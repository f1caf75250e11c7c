/** Mutation (mutation.rs): random edits to the constraints of the rules of
    the population's candidates. A mutated candidate replaces its original
    when it differs from every candidate of the population and from every
    replacement already proposed. */
module Mutation {
  import opened Common
  import opened Rules
  import opened Candidates
  import opened Populations
  import Random

  /** The range of Rust's `isize`. */
  type Isize = x: int | -0x8000_0000_0000_0000 <= x < 0x8000_0000_0000_0000

  const UsizeModulus: nat := 0x1_0000_0000_0000_0000

  /** How a selected constraint is edited. */
  datatype MutationVariant =
    | ConstraintSwap(delta: Isize)
    | ConstraintRandomize(swapIfFail: bool, retries: nat)
    | ConstraintValueRandomize

  /** The four chances, in percent; a missing chance is 0. */
  datatype MutationOptions = MutationOptions(
    chance: Option<nat>,
    chancePerCandidate: Option<nat>,
    chancePerRule: Option<nat>,
    chancePerConstraint: Option<nat>)

  datatype MutationStrategy = MutationStrategy(options: MutationOptions, variant: MutationVariant)

  /** `RngFail` is the error `mutate` returns when no free key is drawn;
      `IndexPanic` stands for the panic of `alphabet.chars().nth(pos).unwrap()`
      when a value draw lands at or past the end of the alphabet, which ends
      the program rather than returning. */
  datatype MutationError = RngFail | IndexPanic

  /** `Option::unwrap_or_default` on a chance. */
  function Chance(o: Option<nat>): (p: nat)
    ensures o.Some? ==> p == o.value
    ensures o.None? ==> p == 0
  {
    match o
    case None => 0
    case Some(p) => p
  }

  /** `gen_ratio(chance, 100)` panics on a chance above 100. */
  predicate ChancesValid(o: MutationOptions) {
    && Chance(o.chance) <= 100
    && Chance(o.chancePerCandidate) <= 100
    && Chance(o.chancePerRule) <= 100
    && Chance(o.chancePerConstraint) <= 100
  }

  /** `delta as usize`: a negative offset wraps around to a large value. */
  function AsUsize(delta: Isize): (u: nat)
    ensures u < UsizeModulus
    ensures u % UsizeModulus == delta % UsizeModulus
  {
    if delta >= 0 then delta else delta + UsizeModulus
  }

  /** The key a constraint swaps with: `key + (delta as usize) % maxIndex`
      (the remainder binds tighter than the sum). */
  function NewKey(key: nat, delta: Isize, maxIndex: nat): (k: nat)
    requires maxIndex > 0
    ensures key <= k < key + maxIndex
    ensures k - key == AsUsize(delta) % maxIndex
  {
    key + AsUsize(delta) % maxIndex
  }

  /** The transposition of `k` and `k2`. */
  function Transpose(j: nat, k: nat, k2: nat): nat {
    if j == k then k2 else if j == k2 then k else j
  }

  /** Removes the values at `k2` and at `k`, then puts each back under the
      other key: the constraints seen through the transposition of the two
      keys. */
  function SwapKeys(m: map<nat, char>, k: nat, k2: nat): (r: map<nat, char>)
    ensures forall j :: j in r <==> Transpose(j, k, k2) in m
    ensures forall j :: j in r ==> r[j] == m[Transpose(j, k, k2)]
  {
    var atNew := if k2 in m then Some(m[k2]) else None;
    var withoutNew := m - {k2};
    var atCurrent := if k in withoutNew then Some(withoutNew[k]) else None;
    var without := withoutNew - {k};
    var moved := if atCurrent.Some? then without[k2 := atCurrent.value] else without;
    if atNew.Some? then moved[k := atNew.value] else moved
  }

  /** Swapping twice restores the constraints. */
  lemma SwapKeysInvolution(m: map<nat, char>, k: nat, k2: nat)
    ensures SwapKeys(SwapKeys(m, k, k2), k, k2) == m
  {
    var r := SwapKeys(SwapKeys(m, k, k2), k, k2);
    forall j ensures (j in r <==> j in m) && (j in r ==> r[j] == m[j]) {
      assert Transpose(Transpose(j, k, k2), k, k2) == j;
    }
  }

  /** The order of the two keys does not matter. */
  lemma SwapKeysSymmetric(m: map<nat, char>, k: nat, k2: nat)
    ensures SwapKeys(m, k, k2) == SwapKeys(m, k2, k)
  {
    var r, s := SwapKeys(m, k, k2), SwapKeys(m, k2, k);
    forall j ensures (j in r <==> j in s) && (j in r ==> r[j] == s[j]) {
      assert Transpose(j, k, k2) == Transpose(j, k2, k);
    }
  }

  /** Swapping a key with itself changes nothing. */
  lemma SwapSameKey(m: map<nat, char>, k: nat)
    ensures SwapKeys(m, k, k) == m
  {
    var r := SwapKeys(m, k, k);
    forall j ensures (j in r <==> j in m) && (j in r ==> r[j] == m[j]) {
      assert Transpose(j, k, k) == j;
    }
  }

  /** A swap keeps the number of constraints and the characters they hold. */
  lemma SwapKeysKeepsShape(m: map<nat, char>, k: nat, k2: nat)
    ensures |SwapKeys(m, k, k2)| == |m|
    ensures SwapKeys(m, k, k2).Values == m.Values
  {
    SwapKeysKeepsSize(m, k, k2);
    SwapKeysKeepsValues(m, k, k2);
  }

  lemma SwapKeysKeepsSize(m: map<nat, char>, k: nat, k2: nat)
    ensures |SwapKeys(m, k, k2)| == |m|
  {
    TransposedKeysSize(m, SwapKeys(m, k, k2), k, k2);
  }

  /** A map whose keys are the transposed keys of `m` has as many keys. */
  lemma TransposedKeysSize(m: map<nat, char>, r: map<nat, char>, k: nat, k2: nat)
    requires forall j :: j in r <==> Transpose(j, k, k2) in m
    ensures |r| == |m|
  {
    if (k in m) == (k2 in m) {
      SameKeys(m, r, k, k2);
    } else if k in m {
      MovedKey(m, r, k, k2);
    } else {
      forall j ensures j in r <==> Transpose(j, k2, k) in m {
        assert Transpose(j, k, k2) == Transpose(j, k2, k);
      }
      MovedKey(m, r, k2, k);
    }
  }

  lemma SameKeys(m: map<nat, char>, r: map<nat, char>, k: nat, k2: nat)
    requires forall j :: j in r <==> Transpose(j, k, k2) in m
    requires (k in m) == (k2 in m)
    ensures r.Keys == m.Keys
  {
    forall j ensures j in r.Keys <==> j in m.Keys {
      assert j in r <==> Transpose(j, k, k2) in m;
    }
  }

  lemma MovedKey(m: map<nat, char>, r: map<nat, char>, k: nat, k2: nat)
    requires forall j :: j in r <==> Transpose(j, k, k2) in m
    requires k in m && k2 !in m
    ensures |r| == |m|
  {
    assert r.Keys == m.Keys - {k} + {k2} by {
      forall j ensures j in r.Keys <==> j in m.Keys - {k} + {k2} {
        assert j in r <==> Transpose(j, k, k2) in m;
      }
    }
    assert |m.Keys - {k}| == |m.Keys| - 1;
  }

  lemma SwapKeysKeepsValues(m: map<nat, char>, k: nat, k2: nat)
    ensures SwapKeys(m, k, k2).Values == m.Values
  {
    var r := SwapKeys(m, k, k2);
    forall v | v in r.Values ensures v in m.Values {
      var j :| j in r && r[j] == v;
      assert m[Transpose(j, k, k2)] == v;
    }
    forall v | v in m.Values ensures v in r.Values {
      var j :| j in m && m[j] == v;
      var i := Transpose(j, k, k2);
      assert Transpose(i, k, k2) == j;
      assert r[i] == v;
    }
  }

  /** Moves the value at `k`, if any, to `k2`. */
  function MoveKey(m: map<nat, char>, k: nat, k2: nat): (r: map<nat, char>)
    ensures k !in m ==> r == m
    ensures k in m ==> k2 in r && r[k2] == m[k]
    ensures k in m && k != k2 ==> k !in r
    ensures forall j :: j != k && j != k2 ==> (j in r <==> j in m) && (j in r ==> r[j] == m[j])
  {
    if k in m then (m - {k})[k2 := m[k]] else m
  }

  /** Swapping into a free key is moving there. */
  lemma SwapIntoFreeKeyIsMove(m: map<nat, char>, k: nat, k2: nat)
    requires k2 !in m
    ensures SwapKeys(m, k, k2) == MoveKey(m, k, k2)
  {
    var r, s := SwapKeys(m, k, k2), MoveKey(m, k, k2);
    forall j ensures (j in r <==> j in s) && (j in r ==> r[j] == s[j]) {
    }
  }

  /** What the edits of a variant keep of a rule's constraints, however many
      of them are made: a swap or a randomized key keeps the number of
      constraints and their characters; a randomized key or value leaves the
      keys at `maxIndex` and above alone; a randomized value comes from the
      alphabet. */
  ghost predicate Keeps(variant: MutationVariant, maxIndex: nat, alphabet: string, before: map<nat, char>, after: map<nat, char>) {
    && (!variant.ConstraintValueRandomize? ==> |after| == |before| && after.Values == before.Values)
    && (!variant.ConstraintSwap? ==>
          forall k :: k >= maxIndex ==> (k in after <==> k in before) && (k in after ==> after[k] == before[k]))
    && (variant.ConstraintValueRandomize? ==>
          forall k :: k in after ==> after[k] in before.Values || after[k] in alphabet)
  }

  lemma KeepsReflexive(variant: MutationVariant, maxIndex: nat, alphabet: string, m: map<nat, char>)
    ensures Keeps(variant, maxIndex, alphabet, m, m)
  {
    forall k | k in m ensures m[k] in m.Values {
    }
  }

  /** Successive edits keep what each keeps. */
  lemma KeepsTransitive(variant: MutationVariant, maxIndex: nat, alphabet: string, a: map<nat, char>, b: map<nat, char>, c: map<nat, char>)
    requires Keeps(variant, maxIndex, alphabet, a, b)
    requires Keeps(variant, maxIndex, alphabet, b, c)
    ensures Keeps(variant, maxIndex, alphabet, a, c)
  {
    if variant.ConstraintValueRandomize? {
      forall k | k in c ensures c[k] in a.Values || c[k] in alphabet {
        if c[k] in b.Values {
          var j :| j in b && b[j] == c[k];
        }
      }
    }
  }

  /** The i-th draw of a key in `[0, maxIndex)`. */
  function DrawKey(rng: Random.Tape, i: nat, maxIndex: nat): (k: nat)
    requires maxIndex > 0
    ensures k < maxIndex
  {
    Random.GenRange(rng, i, 0, maxIndex)
  }

  /** The key draws of `ConstraintRandomize` read off the tape from `pos`
      after `fails` collisions: keys are drawn until one is free; a collision
      once `retries` collisions have been counted gives up with `RngFail`. */
  function FreeDraw(constraints: map<nat, char>, maxIndex: nat, retries: nat, rng: Random.Tape, pos: nat, fails: nat)
    : (r: (Result<nat, MutationError>, nat))
    requires maxIndex > 0 && fails <= retries
    ensures pos < r.1 <= pos + retries - fails + 1
    ensures forall i :: pos <= i < r.1 - 1 ==> DrawKey(rng, i, maxIndex) in constraints
    ensures r.0.Ok? ==> r.0.value == DrawKey(rng, r.1 - 1, maxIndex) && r.0.value !in constraints
    ensures r.0.Err? ==> r.0.error == RngFail && r.1 == pos + retries - fails + 1
    ensures r.0.Err? <==> forall i :: pos <= i <= pos + retries - fails ==> DrawKey(rng, i, maxIndex) in constraints
    decreases retries - fails
  {
    var index := Random.GenRange(rng, pos, 0, maxIndex);
    if index in constraints then
      if fails >= retries then (Err(RngFail), pos + 1)
      else FreeDraw(constraints, maxIndex, retries, rng, pos + 1, fails + 1)
    else (Ok(index), pos + 1)
  }

  /** One draw of `FreeDraw`, unfolded. */
  lemma FreeDrawStep(constraints: map<nat, char>, maxIndex: nat, retries: nat, rng: Random.Tape, pos: nat, fails: nat)
    requires maxIndex > 0 && fails <= retries
    ensures Random.GenRange(rng, pos, 0, maxIndex) !in constraints ==>
              FreeDraw(constraints, maxIndex, retries, rng, pos, fails) == (Ok(Random.GenRange(rng, pos, 0, maxIndex)), pos + 1)
    ensures Random.GenRange(rng, pos, 0, maxIndex) in constraints && fails >= retries ==>
              FreeDraw(constraints, maxIndex, retries, rng, pos, fails) == (Err(RngFail), pos + 1)
    ensures Random.GenRange(rng, pos, 0, maxIndex) in constraints && fails < retries ==>
              FreeDraw(constraints, maxIndex, retries, rng, pos, fails)
              == FreeDraw(constraints, maxIndex, retries, rng, pos + 1, fails + 1)
  {
  }

  /** The draw loop of `ConstraintRandomize`; `collided` says whether any
      draw hit a taken key. */
  method DrawFreeKey(constraints: map<nat, char>, maxIndex: nat, retries: nat, rng: Random.Tape, pos: nat)
    returns (res: Result<nat, MutationError>, collided: bool, next: nat)
    requires maxIndex > 0
    ensures (res, next) == FreeDraw(constraints, maxIndex, retries, rng, pos, 0)
    ensures collided <==> next > pos + 1 || res.Err?
  {
    var fails := 0;
    next := pos;
    collided := false;
    while true
      invariant fails <= retries
      invariant next == pos + fails
      invariant collided <==> fails > 0
      invariant FreeDraw(constraints, maxIndex, retries, rng, pos, 0) == FreeDraw(constraints, maxIndex, retries, rng, next, fails)
      decreases retries - fails
    {
      FreeDrawStep(constraints, maxIndex, retries, rng, next, fails);
      var index := Random.GenRange(rng, next, 0, maxIndex);
      next := next + 1;
      if index in constraints {
        collided := true;
        if fails >= retries {
          return Err(RngFail), collided, next;
        }
        fails := fails + 1;
      } else {
        return Ok(index), collided, next;
      }
    }
  }

  /** `ConstraintValueRandomize` at `key`: a present constraint is removed
      with chance 1 in `maxIndex + 1` and otherwise redrawn from the first
      `maxIndex` characters of the alphabet (a redraw that lands on the
      current character keeps it); an absent one is drawn likewise. A draw
      at or past the end of the alphabet is the `IndexPanic` outcome.
      Returns the new constraints and the position after the draws. */
  function ValueRandomized(m: map<nat, char>, key: nat, maxIndex: nat, alphabet: string, rng: Random.Tape, pos: nat)
    : (r: (Result<map<nat, char>, MutationError>, nat))
    requires key < maxIndex
    ensures pos < r.1 <= pos + 2
    ensures r.0.Ok? ==> forall j :: j != key ==> (j in r.0.value <==> j in m) && (j in r.0.value ==> r.0.value[j] == m[j])
    ensures r.0.Ok? && key in r.0.value ==>
              Random.GenRange(rng, r.1 - 1, 0, maxIndex) < |alphabet|
              && r.0.value[key] == alphabet[Random.GenRange(rng, r.1 - 1, 0, maxIndex)]
    ensures r.0.Ok? && key !in m ==> key in r.0.value
    ensures r.0.Ok? && key !in r.0.value ==> key in m && Random.GenRatio(rng, pos, 1, maxIndex + 1)
    ensures r.0.Err? <==> (key in m ==> !Random.GenRatio(rng, pos, 1, maxIndex + 1))
                          && Random.GenRange(rng, r.1 - 1, 0, maxIndex) >= |alphabet|
    ensures r.0.Err? ==> r.0.error == IndexPanic
    ensures maxIndex <= |alphabet| ==> r.0.Ok?
  {
    if key in m then
      if Random.GenRatio(rng, pos, 1, maxIndex + 1) then
        (Ok(m - {key}), pos + 1)
      else
        var p := Random.GenRange(rng, pos + 1, 0, maxIndex);
        if p >= |alphabet| then (Err(IndexPanic), pos + 2)
        else
          var newChar := alphabet[p];
          (Ok(m[key := if newChar == m[key] then alphabet[p] else newChar]), pos + 2)
    else
      var p := Random.GenRange(rng, pos, 0, maxIndex);
      if p >= |alphabet| then (Err(IndexPanic), pos + 1)
      else (Ok(m[key := alphabet[p]]), pos + 1)
  }

  /** The redraw does not avoid the current character: for a constraint
      whose character is among the first `maxIndex` of the alphabet, some
      draws leave the constraints exactly as they were. */
  lemma RedrawCanKeepValue(m: map<nat, char>, key: nat, maxIndex: nat, alphabet: string, p: nat)
    requires key < maxIndex && key in m
    requires p < maxIndex && p < |alphabet| && alphabet[p] == m[key]
    ensures exists rng: Random.Tape :: ValueRandomized(m, key, maxIndex, alphabet, rng, 0).0 == Ok(m)
  {
    var rng: Random.Tape := i => if i == 0 then 1 else p;
    assert !Random.GenRatio(rng, 0, 1, maxIndex + 1);
    assert Random.GenRange(rng, 1, 0, maxIndex) == p;
    assert ValueRandomized(m, key, maxIndex, alphabet, rng, 0).0 == Ok(m[key := alphabet[p]]);
    assert m[key := alphabet[p]] == m;
  }

  /** With an alphabet shorter than `maxIndex`, a value draw can land past
      its end: for the binary alphabet and `maxIndex` 5 of the shipped
      configuration, drawing position 2 for an absent constraint panics. */
  lemma ShortAlphabetCanPanic(m: map<nat, char>, key: nat)
    requires key < 5 && key !in m
    ensures exists rng: Random.Tape :: ValueRandomized(m, key, 5, "01", rng, 0).0 == Err(IndexPanic)
  {
    var rng: Random.Tape := i => 2;
    assert Random.GenRange(rng, 0, 0, 5) == 2 >= |"01"|;
    assert ValueRandomized(m, key, 5, "01", rng, 0).0 == Err(IndexPanic);
  }

  lemma SwapKeeps(delta: Isize, m: map<nat, char>, key: nat, maxIndex: nat, alphabet: string)
    requires key < maxIndex
    ensures Keeps(ConstraintSwap(delta), maxIndex, alphabet, m, SwapKeys(m, key, NewKey(key, delta, maxIndex)))
  {
    SwapKeysKeepsShape(m, key, NewKey(key, delta, maxIndex));
  }

  lemma MoveToFreeKeyKeeps(variant: MutationVariant, m: map<nat, char>, key: nat, newKey: nat, maxIndex: nat, alphabet: string)
    requires variant.ConstraintRandomize?
    requires key < maxIndex && newKey < maxIndex && newKey !in m
    ensures Keeps(variant, maxIndex, alphabet, m, MoveKey(m, key, newKey))
  {
    SwapIntoFreeKeyIsMove(m, key, newKey);
    SwapKeysKeepsShape(m, key, newKey);
  }

  lemma ValueRandomizedKeeps(m: map<nat, char>, key: nat, maxIndex: nat, alphabet: string, rng: Random.Tape, pos: nat)
    requires key < maxIndex
    requires ValueRandomized(m, key, maxIndex, alphabet, rng, pos).0.Ok?
    ensures Keeps(ConstraintValueRandomize, maxIndex, alphabet, m, ValueRandomized(m, key, maxIndex, alphabet, rng, pos).0.value)
  {
    var r := ValueRandomized(m, key, maxIndex, alphabet, rng, pos);
    forall k | k in r.0.value ensures r.0.value[k] in m.Values || r.0.value[k] in alphabet {
      if k != key {
        assert r.0.value[k] == m[k];
      }
    }
  }

  /** One selected constraint key read off the tape, edited as the variant
      says: the new constraints, or the error, and the next tape position. */
  function ConstraintEdit(variant: MutationVariant, m: map<nat, char>, key: nat, maxIndex: nat, alphabet: string,
                          rng: Random.Tape, pos: nat)
    : (r: (Result<map<nat, char>, MutationError>, nat))
    requires key < maxIndex
    ensures r.1 >= pos
    ensures r.0.Err? ==> (r.0.error == RngFail && variant.ConstraintRandomize?)
                         || (r.0.error == IndexPanic && variant.ConstraintValueRandomize?)
    ensures variant.ConstraintValueRandomize? && maxIndex <= |alphabet| ==> r.0.Ok?
  {
    match variant
    case ConstraintSwap(delta) => (Ok(SwapKeys(m, key, NewKey(key, delta, maxIndex))), pos)
    case ConstraintRandomize(_, retries) =>
      var d := FreeDraw(m, maxIndex, retries, rng, pos, 0);
      if d.0.Err? then (Err(d.0.error), d.1)
      else (Ok(MoveKey(m, key, d.0.value)), d.1)
    case ConstraintValueRandomize => ValueRandomized(m, key, maxIndex, alphabet, rng, pos)
  }

  /** One key's edit keeps what the variant keeps. */
  lemma ConstraintEditKeeps(variant: MutationVariant, m: map<nat, char>, key: nat, maxIndex: nat, alphabet: string,
                            rng: Random.Tape, pos: nat)
    requires key < maxIndex
    ensures var r := ConstraintEdit(variant, m, key, maxIndex, alphabet, rng, pos);
            r.0.Ok? ==> Keeps(variant, maxIndex, alphabet, m, r.0.value)
  {
    match variant
    case ConstraintSwap(delta) =>
      SwapKeeps(delta, m, key, maxIndex, alphabet);
    case ConstraintRandomize(_, retries) =>
      var d := FreeDraw(m, maxIndex, retries, rng, pos, 0);
      if d.0.Ok? {
        MoveToFreeKeyKeeps(variant, m, key, d.0.value, maxIndex, alphabet);
      }
    case ConstraintValueRandomize =>
      if ValueRandomized(m, key, maxIndex, alphabet, rng, pos).0.Ok? {
        ValueRandomizedKeeps(m, key, maxIndex, alphabet, rng, pos);
      }
  }

  /** Puts the constraint at `k` under the free key `k2`, by a swap when
      `swap` is set and by a move otherwise: the two come to the same. */
  function Relocate(m: map<nat, char>, k: nat, k2: nat, swap: bool): (r: map<nat, char>)
    requires k2 !in m
    ensures r == MoveKey(m, k, k2)
  {
    if swap then
      SwapIntoFreeKeyIsMove(m, k, k2);
      SwapKeys(m, k, k2)
    else MoveKey(m, k, k2)
  }

  /** `ConstraintRandomize` at `key`: draws a free key and moves the
      constraint there. After a collision with `swapIfFail` set the move is
      written as a swap, which comes to the same since the drawn key is
      free. */
  method RandomizeConstraint(swapIfFail: bool, retries: nat, m: map<nat, char>, key: nat, maxIndex: nat, rng: Random.Tape, pos: nat)
    returns (res: Result<map<nat, char>, MutationError>, next: nat)
    requires key < maxIndex
    ensures (res, next) == ConstraintEdit(ConstraintRandomize(swapIfFail, retries), m, key, maxIndex, [], rng, pos)
    ensures res.Err? <==> forall i :: pos <= i <= pos + retries ==> DrawKey(rng, i, maxIndex) in m
    ensures res.Ok? ==>
              DrawKey(rng, next - 1, maxIndex) !in m
              && res.value == MoveKey(m, key, DrawKey(rng, next - 1, maxIndex))
  {
    var drawn, collided;
    drawn, collided, next := DrawFreeKey(m, maxIndex, retries, rng, pos);
    ghost var d := FreeDraw(m, maxIndex, retries, rng, pos, 0);
    assert drawn == d.0 && next == d.1;
    if drawn.Err? {
      return Err(drawn.error), next;
    }
    var newKey := drawn.value;
    assert newKey == DrawKey(rng, next - 1, maxIndex) && newKey !in m;
    res := Ok(Relocate(m, key, newKey, swapIfFail && collided));
  }

  /** One selected constraint key, edited as the variant says. */
  method MutateConstraint(variant: MutationVariant, m: map<nat, char>, key: nat, maxIndex: nat, alphabet: string, rng: Random.Tape, pos: nat)
    returns (res: Result<map<nat, char>, MutationError>, next: nat)
    requires key < maxIndex
    ensures (res, next) == ConstraintEdit(variant, m, key, maxIndex, alphabet, rng, pos)
    ensures variant.ConstraintSwap? ==>
              res == Ok(SwapKeys(m, key, NewKey(key, variant.delta, maxIndex))) && next == pos
    ensures variant.ConstraintRandomize? ==>
              (res.Err? <==> forall i :: pos <= i <= pos + variant.retries ==> DrawKey(rng, i, maxIndex) in m)
    ensures variant.ConstraintRandomize? && res.Ok? ==>
              next > pos && DrawKey(rng, next - 1, maxIndex) !in m
              && res.value == MoveKey(m, key, DrawKey(rng, next - 1, maxIndex))
    ensures variant.ConstraintValueRandomize? ==> (res, next) == ValueRandomized(m, key, maxIndex, alphabet, rng, pos)
  {
    match variant {
      case ConstraintSwap(delta) =>
        var newKey := NewKey(key, delta, maxIndex);
        res, next := Ok(SwapKeys(m, key, newKey)), pos;
      case ConstraintRandomize(swapIfFail, retries) =>
        res, next := RandomizeConstraint(swapIfFail, retries, m, key, maxIndex, rng, pos);
      case ConstraintValueRandomize =>
        var v := ValueRandomized(m, key, maxIndex, alphabet, rng, pos);
        res, next := v.0, v.1;
    }
  }

  /** The constraint loop of one selected rule read off the tape, from key
      `key` on: each key below `maxIndex` is selected with `chance` percent
      and edited. Returns the new constraints or the error, whether any key
      was selected (`ran` so far included) and the next tape position. */
  function ConstraintsPass(variant: MutationVariant, chance: nat, m: map<nat, char>, key: nat, maxIndex: nat,
                           alphabet: string, rng: Random.Tape, pos: nat, ran: bool)
    : (r: (Result<map<nat, char>, MutationError>, bool, nat))
    requires chance <= 100
    ensures r.2 >= pos
    ensures ran ==> r.1
    ensures r.0.Ok? && !r.1 ==> r.0.value == m
    ensures r.0.Err? ==> r.1
    ensures r.0.Err? ==> (r.0.error == RngFail && variant.ConstraintRandomize?)
                         || (r.0.error == IndexPanic && variant.ConstraintValueRandomize?)
    ensures variant.ConstraintValueRandomize? && maxIndex <= |alphabet| ==> r.0.Ok?
    ensures chance == 0 ==> r.0 == Ok(m) && r.1 == ran
    ensures chance == 100 && key < maxIndex ==> r.1
    decreases maxIndex - key
  {
    if key >= maxIndex then (Ok(m), ran, pos)
    else if !Random.GenRatio(rng, pos, chance, 100) then
      ConstraintsPass(variant, chance, m, key + 1, maxIndex, alphabet, rng, pos + 1, ran)
    else
      var e := ConstraintEdit(variant, m, key, maxIndex, alphabet, rng, pos + 1);
      if e.0.Err? then (Err(e.0.error), true, e.1)
      else ConstraintsPass(variant, chance, e.0.value, key + 1, maxIndex, alphabet, rng, e.1, true)
  }

  /** However many keys the pass edits, the constraints it returns keep what
      the variant keeps. */
  lemma {:induction false} ConstraintsPassKeeps(variant: MutationVariant, chance: nat, m: map<nat, char>, key: nat,
                                               maxIndex: nat, alphabet: string, rng: Random.Tape, pos: nat, ran: bool)
    requires chance <= 100
    ensures var r := ConstraintsPass(variant, chance, m, key, maxIndex, alphabet, rng, pos, ran);
            r.0.Ok? ==> Keeps(variant, maxIndex, alphabet, m, r.0.value)
    decreases maxIndex - key
  {
    if key >= maxIndex {
      KeepsReflexive(variant, maxIndex, alphabet, m);
      return;
    }
    ConstraintsPassStep(variant, chance, m, key, maxIndex, alphabet, rng, pos, ran);
    if !Random.GenRatio(rng, pos, chance, 100) {
      ConstraintsPassKeeps(variant, chance, m, key + 1, maxIndex, alphabet, rng, pos + 1, ran);
    } else {
      var e := ConstraintEdit(variant, m, key, maxIndex, alphabet, rng, pos + 1);
      ConstraintEditKeeps(variant, m, key, maxIndex, alphabet, rng, pos + 1);
      if e.0.Ok? {
        ConstraintsPassKeeps(variant, chance, e.0.value, key + 1, maxIndex, alphabet, rng, e.1, true);
        var rest := ConstraintsPass(variant, chance, e.0.value, key + 1, maxIndex, alphabet, rng, e.1, true);
        if rest.0.Ok? {
          KeepsTransitive(variant, maxIndex, alphabet, m, e.0.value, rest.0.value);
        }
      }
    }
  }

  /** One key of `ConstraintsPass`, unfolded. */
  lemma ConstraintsPassStep(variant: MutationVariant, chance: nat, m: map<nat, char>, key: nat, maxIndex: nat,
                            alphabet: string, rng: Random.Tape, pos: nat, ran: bool)
    requires chance <= 100 && key < maxIndex
    ensures !Random.GenRatio(rng, pos, chance, 100) ==>
              ConstraintsPass(variant, chance, m, key, maxIndex, alphabet, rng, pos, ran)
              == ConstraintsPass(variant, chance, m, key + 1, maxIndex, alphabet, rng, pos + 1, ran)
    ensures Random.GenRatio(rng, pos, chance, 100) ==>
              var e := ConstraintEdit(variant, m, key, maxIndex, alphabet, rng, pos + 1);
              && (e.0.Err? ==> ConstraintsPass(variant, chance, m, key, maxIndex, alphabet, rng, pos, ran) == (Err(e.0.error), true, e.1))
              && (e.0.Ok? ==>
                    ConstraintsPass(variant, chance, m, key, maxIndex, alphabet, rng, pos, ran)
                    == ConstraintsPass(variant, chance, e.0.value, key + 1, maxIndex, alphabet, rng, e.1, true))
  {
  }

  /** The constraint pass of one selected rule from the start of the tape at
      `pos`, with the rule's chance per constraint. */
  function RuleMutation(strategy: MutationStrategy, rule: Rule, maxIndex: nat, alphabet: string, rng: Random.Tape, pos: nat)
    : (r: (Result<Rule, MutationError>, bool, nat))
    requires ChancesValid(strategy.options)
  {
    var p := ConstraintsPass(strategy.variant, Chance(strategy.options.chancePerConstraint), rule.constraints, 0,
                             maxIndex, alphabet, rng, pos, false);
    (if p.0.Ok? then Ok(Rule(p.0.value)) else Err(p.0.error), p.1, p.2)
  }

  /** One turn of the key loop, at `key`: selects it or not and edits it;
      `ran` says whether any key was selected so far. */
  method EditKey(variant: MutationVariant, chance: nat, m: map<nat, char>, key: nat, maxIndex: nat, alphabet: string,
                 rng: Random.Tape, pos: nat, ran: bool)
    returns (res: Result<map<nat, char>, MutationError>, ranAfter: bool, next: nat)
    requires chance <= 100 && key < maxIndex
    ensures res.Ok? ==>
              ConstraintsPass(variant, chance, m, key, maxIndex, alphabet, rng, pos, ran)
              == ConstraintsPass(variant, chance, res.value, key + 1, maxIndex, alphabet, rng, next, ranAfter)
    ensures res.Err? ==>
              ConstraintsPass(variant, chance, m, key, maxIndex, alphabet, rng, pos, ran) == (Err(res.error), ranAfter, next)
  {
    ConstraintsPassStep(variant, chance, m, key, maxIndex, alphabet, rng, pos, ran);
    var selected := Random.GenRatio(rng, pos, chance, 100);
    next := pos + 1;
    ranAfter := ran;
    res := Ok(m);
    if selected {
      ranAfter := true;
      res, next := MutateConstraint(variant, m, key, maxIndex, alphabet, rng, next);
    }
  }

  /** The constraint loop of one selected rule: every key in `[0, maxIndex)`
      is selected with `chance` percent; `ran` says whether any was. A failed
      key draw ends the whole mutation. */
  method EditConstraints(variant: MutationVariant, chance: nat, m: map<nat, char>, maxIndex: nat, alphabet: string,
                         rng: Random.Tape, pos: nat)
    returns (res: Result<map<nat, char>, MutationError>, ran: bool, next: nat)
    requires chance <= 100
    ensures (res, ran, next) == ConstraintsPass(variant, chance, m, 0, maxIndex, alphabet, rng, pos, false)
  {
    var constraints := m;
    ran := false;
    next := pos;
    var key := 0;
    while key < maxIndex
      invariant key <= maxIndex
      invariant ConstraintsPass(variant, chance, m, 0, maxIndex, alphabet, rng, pos, false)
                == ConstraintsPass(variant, chance, constraints, key, maxIndex, alphabet, rng, next, ran)
    {
      var edited;
      edited, ran, next := EditKey(variant, chance, constraints, key, maxIndex, alphabet, rng, next, ran);
      if edited.Err? {
        return Err(edited.error), ran, next;
      }
      constraints := edited.value;
      key := key + 1;
    }
    res := Ok(constraints);
  }

  /** One selected rule, its constraints edited with `chancePerConstraint`
      percent each. */
  method MutateRule(strategy: MutationStrategy, rule: Rule, maxIndex: nat, alphabet: string, rng: Random.Tape, pos: nat)
    returns (res: Result<Rule, MutationError>, ran: bool, next: nat)
    requires ChancesValid(strategy.options)
    ensures (res, ran, next) == RuleMutation(strategy, rule, maxIndex, alphabet, rng, pos)
    ensures next >= pos
    ensures res.Ok? ==> Keeps(strategy.variant, maxIndex, alphabet, rule.constraints, res.value.constraints)
    ensures !ran ==> res == Ok(rule)
    ensures res.Err? ==> (res.error == RngFail && strategy.variant.ConstraintRandomize?)
                         || (res.error == IndexPanic && strategy.variant.ConstraintValueRandomize?)
    ensures Chance(strategy.options.chancePerConstraint) == 0 ==> !ran
    ensures Chance(strategy.options.chancePerConstraint) == 100 && maxIndex > 0 ==> ran
  {
    var edited;
    edited, ran, next := EditConstraints(strategy.variant, Chance(strategy.options.chancePerConstraint),
                                         rule.constraints, maxIndex, alphabet, rng, pos);
    ConstraintsPassKeeps(strategy.variant, Chance(strategy.options.chancePerConstraint),
                         rule.constraints, 0, maxIndex, alphabet, rng, pos, false);
    if edited.Err? {
      res := Err(edited.error);
    } else {
      res := Ok(Rule(edited.value));
    }
  }

  /** Rule by rule, `after` is an edit of `before`. */
  ghost predicate MutatedRules(variant: MutationVariant, maxIndex: nat, alphabet: string, before: seq<Rule>, after: seq<Rule>) {
    && |after| == |before|
    && forall i :: 0 <= i < |before| ==> Keeps(variant, maxIndex, alphabet, before[i].constraints, after[i].constraints)
  }

  lemma MutatedRulesReflexive(variant: MutationVariant, maxIndex: nat, alphabet: string, rules: seq<Rule>)
    ensures MutatedRules(variant, maxIndex, alphabet, rules, rules)
  {
    forall i | 0 <= i < |rules| ensures Keeps(variant, maxIndex, alphabet, rules[i].constraints, rules[i].constraints) {
      KeepsReflexive(variant, maxIndex, alphabet, rules[i].constraints);
    }
  }

  /** Editing the rule at `r` after editing the rules keeps them an edit of
      the originals. */
  lemma MutatedRulesStep(variant: MutationVariant, maxIndex: nat, alphabet: string, rules: seq<Rule>, r: nat, edited: Rule,
                         after: seq<Rule>)
    requires r < |rules|
    requires Keeps(variant, maxIndex, alphabet, rules[r].constraints, edited.constraints)
    requires MutatedRules(variant, maxIndex, alphabet, rules[r := edited], after)
    ensures MutatedRules(variant, maxIndex, alphabet, rules, after)
  {
    KeepsTransitive(variant, maxIndex, alphabet, rules[r].constraints, edited.constraints, after[r].constraints);
  }

  /** The rule loop of one picked candidate read off the tape, from rule `r`
      on: each rule is selected with `chancePerRule` percent and its
      constraints edited. Returns the edited rules in the candidate's order,
      or the error, whether any constraint was edited (`ran` so far
      included) and the next tape position. */
  function RulesPass(strategy: MutationStrategy, rules: seq<Rule>, r: nat, maxIndex: nat, alphabet: string,
                     rng: Random.Tape, pos: nat, ran: bool)
    : (x: (Result<seq<Rule>, MutationError>, bool, nat))
    requires ChancesValid(strategy.options)
    ensures x.2 >= pos
    ensures ran ==> x.1
    ensures x.0.Ok? && !x.1 ==> x.0.value == rules
    ensures x.0.Err? ==> x.1
    ensures x.0.Err? ==> (x.0.error == RngFail && strategy.variant.ConstraintRandomize?)
                         || (x.0.error == IndexPanic && strategy.variant.ConstraintValueRandomize?)
    ensures strategy.variant.ConstraintValueRandomize? && maxIndex <= |alphabet| ==> x.0.Ok?
    ensures Chance(strategy.options.chancePerRule) == 0 ==> x.0 == Ok(rules) && x.1 == ran
    decreases |rules| - r
  {
    if r >= |rules| then (Ok(rules), ran, pos)
    else if !Random.GenRatio(rng, pos, Chance(strategy.options.chancePerRule), 100) then
      RulesPass(strategy, rules, r + 1, maxIndex, alphabet, rng, pos + 1, ran)
    else
      var e := RuleMutation(strategy, rules[r], maxIndex, alphabet, rng, pos + 1);
      if e.0.Err? then (Err(e.0.error), true, e.2)
      else
        assert !e.1 ==> rules[r := e.0.value] == rules;
        RulesPass(strategy, rules[r := e.0.value], r + 1, maxIndex, alphabet, rng, e.2, ran || e.1)
  }

  /** The rules the rule pass returns are, rule by rule, edits of the
      candidate's within the variant's promise. */
  lemma {:induction false} RulesPassMutates(strategy: MutationStrategy, rules: seq<Rule>, r: nat, maxIndex: nat,
                                           alphabet: string, rng: Random.Tape, pos: nat, ran: bool)
    requires ChancesValid(strategy.options)
    ensures var x := RulesPass(strategy, rules, r, maxIndex, alphabet, rng, pos, ran);
            x.0.Ok? ==> MutatedRules(strategy.variant, maxIndex, alphabet, rules, x.0.value)
    decreases |rules| - r
  {
    if r >= |rules| {
      MutatedRulesReflexive(strategy.variant, maxIndex, alphabet, rules);
    } else if !Random.GenRatio(rng, pos, Chance(strategy.options.chancePerRule), 100) {
      RulesPassMutates(strategy, rules, r + 1, maxIndex, alphabet, rng, pos + 1, ran);
    } else {
      var e := RuleMutation(strategy, rules[r], maxIndex, alphabet, rng, pos + 1);
      if e.0.Ok? {
        ConstraintsPassKeeps(strategy.variant, Chance(strategy.options.chancePerConstraint),
                             rules[r].constraints, 0, maxIndex, alphabet, rng, pos + 1, false);
        RulesPassMutates(strategy, rules[r := e.0.value], r + 1, maxIndex, alphabet, rng, e.2, ran || e.1);
        var rest := RulesPass(strategy, rules[r := e.0.value], r + 1, maxIndex, alphabet, rng, e.2, ran || e.1);
        if rest.0.Ok? {
          MutatedRulesStep(strategy.variant, maxIndex, alphabet, rules, r, e.0.value, rest.0.value);
        }
      }
    }
  }

  /** One rule of `RulesPass`, unfolded. */
  lemma RulesPassStep(strategy: MutationStrategy, rules: seq<Rule>, r: nat, maxIndex: nat, alphabet: string,
                      rng: Random.Tape, pos: nat, ran: bool)
    requires ChancesValid(strategy.options) && r < |rules|
    ensures !Random.GenRatio(rng, pos, Chance(strategy.options.chancePerRule), 100) ==>
              RulesPass(strategy, rules, r, maxIndex, alphabet, rng, pos, ran)
              == RulesPass(strategy, rules, r + 1, maxIndex, alphabet, rng, pos + 1, ran)
    ensures Random.GenRatio(rng, pos, Chance(strategy.options.chancePerRule), 100) ==>
              var e := RuleMutation(strategy, rules[r], maxIndex, alphabet, rng, pos + 1);
              && (e.0.Err? ==> RulesPass(strategy, rules, r, maxIndex, alphabet, rng, pos, ran) == (Err(e.0.error), true, e.2))
              && (e.0.Ok? ==>
                    RulesPass(strategy, rules, r, maxIndex, alphabet, rng, pos, ran)
                    == RulesPass(strategy, rules[r := e.0.value], r + 1, maxIndex, alphabet, rng, e.2, ran || e.1))
  {
  }

  /** One turn of the rule loop, at rule `r`: selects it or not and edits
      its constraints; `ran` says whether any constraint was edited so far. */
  method EditRule(strategy: MutationStrategy, rules: seq<Rule>, r: nat, maxIndex: nat, alphabet: string,
                  rng: Random.Tape, pos: nat, ran: bool)
    returns (res: Result<seq<Rule>, MutationError>, ranAfter: bool, next: nat)
    requires ChancesValid(strategy.options) && r < |rules|
    ensures res.Ok? ==>
              |res.value| == |rules|
              && RulesPass(strategy, rules, r, maxIndex, alphabet, rng, pos, ran)
                 == RulesPass(strategy, res.value, r + 1, maxIndex, alphabet, rng, next, ranAfter)
    ensures res.Err? ==>
              RulesPass(strategy, rules, r, maxIndex, alphabet, rng, pos, ran) == (Err(res.error), ranAfter, next)
  {
    RulesPassStep(strategy, rules, r, maxIndex, alphabet, rng, pos, ran);
    var selected := Random.GenRatio(rng, pos, Chance(strategy.options.chancePerRule), 100);
    next := pos + 1;
    ranAfter := ran;
    res := Ok(rules);
    if selected {
      var edited, ruleRan;
      edited, ruleRan, next := MutateRule(strategy, rules[r], maxIndex, alphabet, rng, next);
      ranAfter := ran || ruleRan;
      if edited.Err? {
        res := Err(edited.error);
      } else {
        res := Ok(rules[r := edited.value]);
      }
    }
  }

  /** The rule loop of one picked candidate: each rule is selected with
      `chancePerRule` percent and its constraints edited; `ran` says whether
      any constraint was. Returns the edited rules, in the candidate's
      order. */
  method MutateRules(strategy: MutationStrategy, candidate: Candidate, maxIndex: nat, alphabet: string, rng: Random.Tape, pos: nat)
    returns (res: Result<seq<Rule>, MutationError>, ran: bool, next: nat)
    requires ChancesValid(strategy.options)
    ensures (res, ran, next) == RulesPass(strategy, candidate.rules, 0, maxIndex, alphabet, rng, pos, false)
    ensures next >= pos
    ensures res.Ok? ==> MutatedRules(strategy.variant, maxIndex, alphabet, candidate.rules, res.value)
    ensures res.Ok? && !ran ==> res.value == candidate.rules
    ensures res.Err? ==> (res.error == RngFail && strategy.variant.ConstraintRandomize?)
                         || (res.error == IndexPanic && strategy.variant.ConstraintValueRandomize?)
    ensures Chance(strategy.options.chancePerRule) == 0 ==> res == Ok(candidate.rules) && !ran
  {
    RulesPassMutates(strategy, candidate.rules, 0, maxIndex, alphabet, rng, pos, false);
    var rules := candidate.rules;
    ran := false;
    next := pos;
    var r := 0;
    while r < |rules|
      invariant r <= |rules| == |candidate.rules|
      invariant RulesPass(strategy, candidate.rules, 0, maxIndex, alphabet, rng, pos, false)
                == RulesPass(strategy, rules, r, maxIndex, alphabet, rng, next, ran)
    {
      var edited;
      edited, ran, next := EditRule(strategy, rules, r, maxIndex, alphabet, rng, next, ran);
      if edited.Err? {
        return Err(edited.error), ran, next;
      }
      rules := edited.value;
      r := r + 1;
    }
    res := Ok(rules);
  }

  /** `mutant` is built from edits of the rules of `orig` (edited rules that
      became equal collapse into one). */
  ghost predicate Mutant(variant: MutationVariant, maxIndex: nat, alphabet: string, orig: Candidate, mutant: Candidate) {
    exists rules :: MutatedRules(variant, maxIndex, alphabet, orig.rules, rules) && RuleSet(mutant) == Elements(rules)
  }

  /** A set built from a sequence has at most its length. */
  lemma {:induction false} ElementsSize<T>(s: seq<T>)
    ensures |Elements(s)| <= |s|
  {
    if s != [] {
      ElementsSize(s[1..]);
      assert Elements(s) == {s[0]} + Elements(s[1..]);
    }
  }

  /** A mutant never has more rules than its original, and under a swap or
      a randomized key each of its rules has as many constraints as some
      rule of the original. */
  lemma MutantShape(variant: MutationVariant, maxIndex: nat, alphabet: string, orig: Candidate, mutant: Candidate)
    requires Candidates.Valid(mutant) && Mutant(variant, maxIndex, alphabet, orig, mutant)
    ensures |mutant.rules| <= |orig.rules|
    ensures !variant.ConstraintValueRandomize? ==>
              forall r :: r in mutant.rules ==> exists o :: o in orig.rules && |r.constraints| == |o.constraints|
  {
    var rules :| MutatedRules(variant, maxIndex, alphabet, orig.rules, rules) && RuleSet(mutant) == Elements(rules);
    EnumerationLength(mutant.rules, RuleSet(mutant));
    ElementsSize(rules);
    if !variant.ConstraintValueRandomize? {
      forall r | r in mutant.rules ensures exists o :: o in orig.rules && |r.constraints| == |o.constraints| {
        assert r in Elements(rules);
        var i :| 0 <= i < |rules| && rules[i] == r;
        assert orig.rules[i] in orig.rules;
      }
    }
  }

  /** The planned replacements, each a pair of a member of `cs` and the
      candidate to put in its place: the originals are pairwise unequal, the
      replacements are valid, pairwise unequal and equal to no member. */
  predicate ChangesValid(cs: seq<Candidate>, changes: seq<(Candidate, Candidate)>) {
    && (forall j :: 0 <= j < |changes| ==>
          changes[j].0 in cs && Candidates.Valid(changes[j].1) && !Member(cs, changes[j].1))
    && (forall i, j :: 0 <= i < j < |changes| ==>
          !Equal(changes[i].0, changes[j].0) && !Equal(changes[i].1, changes[j].1))
  }

  /** The planned changes up to equality: each original with the rule set
      of its replacement. */
  function Planned(changes: seq<(Candidate, Candidate)>): (p: seq<(Candidate, set<Rule>)>)
    ensures |p| == |changes|
  {
    seq(|changes|, j requires 0 <= j < |changes| => (changes[j].0, RuleSet(changes[j].1)))
  }

  /** The candidate loop read off the tape, from member `i` of `cs` on, with
      the replacements `planned` so far: each member is picked with
      `chancePerCandidate` percent and its rules edited; when some
      constraint was edited and the resulting rule set is new (unequal to
      the member, to every member of the population and to every planned
      replacement) the pair is planned. */
  function PlanFrom(strategy: MutationStrategy, cs: seq<Candidate>, i: nat, maxIndex: nat, alphabet: string,
                    rng: Random.Tape, pos: nat, planned: seq<(Candidate, set<Rule>)>)
    : (r: (Result<seq<(Candidate, set<Rule>)>, MutationError>, nat))
    requires ChancesValid(strategy.options)
    ensures r.1 >= pos
    ensures r.0.Ok? ==> planned <= r.0.value
    ensures r.0.Err? ==> (r.0.error == RngFail && strategy.variant.ConstraintRandomize?)
                         || (r.0.error == IndexPanic && strategy.variant.ConstraintValueRandomize?)
    ensures strategy.variant.ConstraintValueRandomize? && maxIndex <= |alphabet| ==> r.0.Ok?
    ensures Chance(strategy.options.chancePerCandidate) == 0 ==> r.0 == Ok(planned)
    decreases |cs| - i
  {
    if i >= |cs| then (Ok(planned), pos)
    else if !Random.GenRatio(rng, pos, Chance(strategy.options.chancePerCandidate), 100) then
      PlanFrom(strategy, cs, i + 1, maxIndex, alphabet, rng, pos + 1, planned)
    else
      var e := RulesPass(strategy, cs[i].rules, 0, maxIndex, alphabet, rng, pos + 1, false);
      if e.0.Err? then (Err(e.0.error), e.2)
      else
        var target := Elements(e.0.value);
        var isNew := e.1 && target != RuleSet(cs[i]) && target !in RuleSets(cs)
                     && forall j :: 0 <= j < |planned| ==> planned[j].1 != target;
        PlanFrom(strategy, cs, i + 1, maxIndex, alphabet, rng, e.2,
                 if isNew then planned + [(cs[i], target)] else planned)
  }

  /** One member of `PlanFrom`, unfolded. */
  lemma PlanStep(strategy: MutationStrategy, cs: seq<Candidate>, i: nat, maxIndex: nat, alphabet: string,
                 rng: Random.Tape, pos: nat, planned: seq<(Candidate, set<Rule>)>)
    requires ChancesValid(strategy.options) && i < |cs|
    ensures !Random.GenRatio(rng, pos, Chance(strategy.options.chancePerCandidate), 100) ==>
              PlanFrom(strategy, cs, i, maxIndex, alphabet, rng, pos, planned)
              == PlanFrom(strategy, cs, i + 1, maxIndex, alphabet, rng, pos + 1, planned)
    ensures Random.GenRatio(rng, pos, Chance(strategy.options.chancePerCandidate), 100) ==>
              var e := RulesPass(strategy, cs[i].rules, 0, maxIndex, alphabet, rng, pos + 1, false);
              && (e.0.Err? ==> PlanFrom(strategy, cs, i, maxIndex, alphabet, rng, pos, planned) == (Err(e.0.error), e.2))
              && (e.0.Ok? ==>
                    var target := Elements(e.0.value);
                    var isNew := e.1 && target != RuleSet(cs[i]) && target !in RuleSets(cs)
                                 && forall j :: 0 <= j < |planned| ==> planned[j].1 != target;
                    PlanFrom(strategy, cs, i, maxIndex, alphabet, rng, pos, planned)
                    == PlanFrom(strategy, cs, i + 1, maxIndex, alphabet, rng, e.2,
                                if isNew then planned + [(cs[i], target)] else planned))
  {
  }

  /** `changes.iter().position(..).is_some()`: some planned replacement
      equals `c`. */
  method Proposed(changes: seq<(Candidate, Candidate)>, c: Candidate) returns (found: bool)
    ensures found <==> exists j :: 0 <= j < |changes| && Equal(changes[j].1, c)
  {
    var j := 0;
    while j < |changes|
      invariant j <= |changes|
      invariant forall i :: 0 <= i < j ==> !Equal(changes[i].1, c)
    {
      if Equal(changes[j].1, c) {
        return true;
      }
      j := j + 1;
    }
    return false;
  }

  /** Proposing a new replacement for the i-th member keeps the changes
      valid, and the originals so far unequal to every later member. */
  lemma AppendChange(cs: seq<Candidate>, changes: seq<(Candidate, Candidate)>, i: nat, mutant: Candidate)
    requires Distinct(cs) && i < |cs| && ChangesValid(cs, changes)
    requires forall j, k :: 0 <= j < |changes| && i <= k < |cs| ==> !Equal(changes[j].0, cs[k])
    requires Candidates.Valid(mutant) && !Member(cs, mutant)
    requires forall j :: 0 <= j < |changes| ==> !Equal(changes[j].1, mutant)
    ensures ChangesValid(cs, changes + [(cs[i], mutant)])
    ensures forall j, k :: 0 <= j < |changes| + 1 && i + 1 <= k < |cs| ==> !Equal((changes + [(cs[i], mutant)])[j].0, cs[k])
  {
    var extended := changes + [(cs[i], mutant)];
    forall j, k | 0 <= j < |extended| && i + 1 <= k < |cs| ensures !Equal(extended[j].0, cs[k]) {
      if j == |changes| {
        assert !Equal(cs[i], cs[k]);
      }
    }
  }

  /** The test `PlanChanges` makes of a mutant, in terms of rule sets. */
  lemma IsNewIff(cs: seq<Candidate>, changes: seq<(Candidate, Candidate)>, candidate: Candidate, mutant: Candidate,
                 present: bool, proposed: bool)
    requires present <==> Member(cs, mutant)
    requires proposed <==> exists j :: 0 <= j < |changes| && Equal(changes[j].1, mutant)
    ensures (!Equal(mutant, candidate) && !present && !proposed) <==>
            (RuleSet(mutant) != RuleSet(candidate) && RuleSet(mutant) !in RuleSets(cs)
             && forall j :: 0 <= j < |Planned(changes)| ==> Planned(changes)[j].1 != RuleSet(mutant))
    ensures Planned(changes + [(candidate, mutant)]) == Planned(changes) + [(candidate, RuleSet(mutant))]
  {
    MemberIffRuleSet(cs, mutant);
    if proposed {
      var j :| 0 <= j < |changes| && Equal(changes[j].1, mutant);
      assert Planned(changes)[j].1 == RuleSet(mutant);
    }
  }

  /** What the candidate loop keeps about the changes planned before member
      `i`: they are valid, their originals are unequal to the members still
      to come, and each replacement is a fresh mutant of its original. */
  ghost predicate Planning(variant: MutationVariant, maxIndex: nat, alphabet: string, cs: seq<Candidate>,
                           changes: seq<(Candidate, Candidate)>, i: nat) {
    && ChangesValid(cs, changes)
    && (forall j, k :: 0 <= j < |changes| && i <= k < |cs| ==> !Equal(changes[j].0, cs[k]))
    && (forall j :: 0 <= j < |changes| ==>
          Mutant(variant, maxIndex, alphabet, changes[j].0, changes[j].1)
          && changes[j].1.mutationCount == 0 && changes[j].1.birthGenerationId == None)
  }

  /** One turn of the candidate loop, at member `i`: picks it or not, edits
      its rules and plans the replacement when it is new. */
  method ConsiderMember(strategy: MutationStrategy, population: Population, changes: seq<(Candidate, Candidate)>, i: nat,
                        maxIndex: nat, alphabet: string, rng: Random.Tape, pos: nat)
    returns (res: Result<seq<(Candidate, Candidate)>, MutationError>, next: nat)
    requires population.Valid() && ChancesValid(strategy.options) && i < |population.candidates|
    requires Planning(strategy.variant, maxIndex, alphabet, population.candidates, changes, i)
    ensures res.Ok? ==> Planning(strategy.variant, maxIndex, alphabet, population.candidates, res.value, i + 1)
    ensures res.Ok? ==>
              PlanFrom(strategy, population.candidates, i, maxIndex, alphabet, rng, pos, Planned(changes))
              == PlanFrom(strategy, population.candidates, i + 1, maxIndex, alphabet, rng, next, Planned(res.value))
    ensures res.Err? ==>
              PlanFrom(strategy, population.candidates, i, maxIndex, alphabet, rng, pos, Planned(changes))
              == (Err(res.error), next)
  {
    var cs := population.candidates;
    PlanStep(strategy, cs, i, maxIndex, alphabet, rng, pos, Planned(changes));
    var candidate := cs[i];
    res := Ok(changes);
    var picked := Random.GenRatio(rng, pos, Chance(strategy.options.chancePerCandidate), 100);
    next := pos + 1;
    if picked {
      var edited, ran;
      edited, ran, next := MutateRules(strategy, candidate, maxIndex, alphabet, rng, next);
      if edited.Err? {
        return Err(edited.error), next;
      }
      var rules := edited.value;
      if ran {
        var mutant := FromRuleSet(Elements(rules));
        assert Mutant(strategy.variant, maxIndex, alphabet, candidate, mutant);
        var present := population.Contains(mutant);
        var proposed := Proposed(changes, mutant);
        IsNewIff(cs, changes, candidate, mutant, present, proposed);
        if !Equal(mutant, candidate) && !present && !proposed {
          AppendChange(cs, changes, i, mutant);
          res := Ok(changes + [(candidate, mutant)]);
        }
      }
    }
  }

  /** The candidate loop: each member is picked with `chancePerCandidate`
      percent, each of its rules with `chancePerRule` percent; a picked
      candidate some of whose constraints were edited yields a replacement
      when the result is new. */
  method PlanChanges(strategy: MutationStrategy, population: Population, maxIndex: nat, alphabet: string, rng: Random.Tape, pos: nat)
    returns (res: Result<seq<(Candidate, Candidate)>, MutationError>, next: nat)
    requires population.Valid()
    requires ChancesValid(strategy.options)
    ensures var p := PlanFrom(strategy, population.candidates, 0, maxIndex, alphabet, rng, pos, []);
            && next == p.1
            && (res.Ok? <==> p.0.Ok?)
            && (res.Err? ==> res.error == p.0.error)
            && (res.Ok? ==> Planned(res.value) == p.0.value)
    ensures res.Ok? ==> ChangesValid(population.candidates, res.value)
    ensures res.Ok? ==> forall j :: 0 <= j < |res.value| ==>
              Mutant(strategy.variant, maxIndex, alphabet, res.value[j].0, res.value[j].1)
              && res.value[j].1.mutationCount == 0 && res.value[j].1.birthGenerationId == None
  {
    var cs := population.candidates;
    var changes: seq<(Candidate, Candidate)> := [];
    assert Planned(changes) == [];
    next := pos;
    var i := 0;
    while i < |cs|
      invariant i <= |cs|
      invariant Planning(strategy.variant, maxIndex, alphabet, cs, changes, i)
      invariant PlanFrom(strategy, cs, 0, maxIndex, alphabet, rng, pos, [])
                == PlanFrom(strategy, cs, i, maxIndex, alphabet, rng, next, Planned(changes))
    {
      var considered;
      considered, next := ConsiderMember(strategy, population, changes, i, maxIndex, alphabet, rng, next);
      if considered.Err? {
        return Err(considered.error), next;
      }
      changes := considered.value;
      i := i + 1;
    }
    res := Ok(changes);
  }

  /** The rule sets taken out and put in by a list of changes. */
  function Removed(changes: seq<(Candidate, Candidate)>): set<set<Rule>> {
    set j | 0 <= j < |changes| :: RuleSet(changes[j].0)
  }

  function Added(changes: seq<(Candidate, Candidate)>): set<set<Rule>> {
    set j | 0 <= j < |changes| :: RuleSet(changes[j].1)
  }

  /** The j-th change of a valid list: its original is still present after
      the earlier changes and its replacement is not. */
  lemma ChangeStep(start: seq<Candidate>, changes: seq<(Candidate, Candidate)>, j: nat)
    requires ChangesValid(start, changes) && j < |changes|
    ensures RuleSet(changes[j].0) in RuleSets(start) - Removed(changes[..j])
    ensures RuleSet(changes[j].0) !in Added(changes[..j])
    ensures RuleSet(changes[j].1) !in RuleSets(start) && RuleSet(changes[j].1) !in Added(changes[..j])
    ensures Removed(changes[..j + 1]) == Removed(changes[..j]) + {RuleSet(changes[j].0)}
    ensures Added(changes[..j + 1]) == Added(changes[..j]) + {RuleSet(changes[j].1)}
  {
    var (original, replacement) := changes[j];
    assert RuleSet(original) in RuleSets(start) by {
      var k :| 0 <= k < |start| && start[k] == original;
    }
    assert RuleSet(original) !in Removed(changes[..j]) by {
      forall i | 0 <= i < j ensures RuleSet(changes[..j][i].0) != RuleSet(original) {
        assert !Equal(changes[i].0, changes[j].0);
      }
    }
    MemberIffRuleSet(start, replacement);
    assert RuleSet(original) !in Added(changes[..j]) by {
      forall i | 0 <= i < j ensures RuleSet(changes[..j][i].1) != RuleSet(original) {
        MemberIffRuleSet(start, changes[i].1);
      }
    }
    assert RuleSet(replacement) !in Added(changes[..j]) by {
      forall i | 0 <= i < j ensures RuleSet(changes[..j][i].1) != RuleSet(replacement) {
        assert !Equal(changes[i].1, changes[j].1);
      }
    }
    assert changes[..j + 1] == changes[..j] + [changes[j]];
  }

  /** The set algebra of one change: taking out a present original and
      putting in an absent replacement. */
  lemma ReplaceOne<T>(current: set<T>, start: set<T>, removed: set<T>, added: set<T>, o: T, n: T)
    requires current == start - removed + added
    requires o in start - removed && o !in added
    requires n !in start && n !in added
    ensures o in current && n !in current - {o}
    ensures current - {o} + {n} == start - (removed + {o}) + (added + {n})
  {
  }

  /** Applies the planned changes: removes each original and inserts its
      replacement. Every removal and every insertion takes effect, so the
      population keeps its size, and every member afterwards is an old
      member or one of the replacements. */
  method ApplyChanges(population: Population, changes: seq<(Candidate, Candidate)>)
    requires population.Valid() && ChangesValid(population.candidates, changes)
    modifies population
    ensures population.Valid()
    ensures population.generation == old(population.generation)
    ensures |population.candidates| == old(|population.candidates|)
    ensures RuleSets(population.candidates) == RuleSets(old(population.candidates)) - Removed(changes) + Added(changes)
    ensures forall x :: x in population.candidates ==>
              x in old(population.candidates) || exists j :: 0 <= j < |changes| && x == changes[j].1
  {
    ghost var start := population.candidates;
    var j := 0;
    while j < |changes|
      invariant j <= |changes|
      invariant population.Valid()
      invariant population.generation == old(population.generation)
      invariant |population.candidates| == |start|
      invariant RuleSets(population.candidates) == RuleSets(start) - Removed(changes[..j]) + Added(changes[..j])
      invariant forall x :: x in population.candidates ==> x in start || exists k :: 0 <= k < j && x == changes[k].1
    {
      var original, replacement := changes[j].0, changes[j].1;
      ChangeStep(start, changes, j);
      ghost var before := RuleSets(population.candidates);
      ReplaceOne(before, RuleSets(start), Removed(changes[..j]), Added(changes[..j]), RuleSet(original), RuleSet(replacement));
      MemberIffRuleSet(population.candidates, original);
      var removed := population.Remove(original);
      MemberIffRuleSet(population.candidates, replacement);
      var inserted := population.Insert(replacement);
      j := j + 1;
    }
    assert changes[..j] == changes;
  }

  /** `MutationStrategy::mutate`: with `chance` percent the population is
      mutated at all; the planned changes are applied only once planning has
      finished, so a failed key draw leaves the population untouched. */
  method Mutate(strategy: MutationStrategy, population: Population, maxIndex: nat, alphabet: string, rng: Random.Tape, pos: nat)
    returns (res: Result<(), MutationError>, next: nat, ghost changes: seq<(Candidate, Candidate)>)
    requires population.Valid()
    requires ChancesValid(strategy.options)
    modifies population
    ensures population.Valid()
    ensures population.generation == old(population.generation)
    ensures |population.candidates| == old(|population.candidates|)
    ensures Chance(strategy.options.chance) == 0 ==>
              res == Ok(()) && next == pos && population.candidates == old(population.candidates)
    ensures Chance(strategy.options.chance) > 0 && !Random.GenRatio(rng, pos, Chance(strategy.options.chance), 100) ==>
              res == Ok(()) && next == pos + 1 && population.candidates == old(population.candidates)
    ensures Chance(strategy.options.chance) > 0 && Random.GenRatio(rng, pos, Chance(strategy.options.chance), 100) ==>
              var p := PlanFrom(strategy, old(population.candidates), 0, maxIndex, alphabet, rng, pos + 1, []);
              && next == p.1
              && (res.Ok? <==> p.0.Ok?)
              && (res.Err? ==> res.error == p.0.error)
              && (res.Ok? ==> Planned(changes) == p.0.value)
    ensures res.Err? ==> population.candidates == old(population.candidates) && changes == []
    ensures ChangesValid(old(population.candidates), changes)
    ensures forall j :: 0 <= j < |changes| ==>
              Mutant(strategy.variant, maxIndex, alphabet, changes[j].0, changes[j].1)
              && changes[j].1.mutationCount == 0 && changes[j].1.birthGenerationId == None
    ensures RuleSets(population.candidates) == RuleSets(old(population.candidates)) - Removed(changes) + Added(changes)
    ensures forall x :: x in population.candidates ==>
              x in old(population.candidates) || exists j :: 0 <= j < |changes| && x == changes[j].1
  {
    changes := [];
    var chance := Chance(strategy.options.chance);
    if chance == 0 {
      return Ok(()), pos, changes;
    }
    if !Random.GenRatio(rng, pos, chance, 100) {
      return Ok(()), pos + 1, changes;
    }
    var planned;
    planned, next := PlanChanges(strategy, population, maxIndex, alphabet, rng, pos + 1);
    if planned.Err? {
      return Err(planned.error), next, changes;
    }
    changes := planned.value;
    ApplyChanges(population, planned.value);
    res := Ok(());
  }
}
