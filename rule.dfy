/** A rule: a sparse pattern from position to required symbol (rule.rs). */
module Rules {
  import opened Common
  import opened PopGenSpecs
  import Random

  /** Positions absent from `constraints` are "don't care". */
  datatype Rule = Rule(constraints: map<nat, char>)

  datatype RuleEvaluationError = IndexOutOfRange

  /** The symbol the canonical form shows for an unconstrained position. */
  const Placeholder: char := '_'

  /** `keys` is one iteration order of the rule's `HashMap`. */
  predicate KeyOrder(r: Rule, keys: seq<nat>) {
    IsEnumeration(keys, r.constraints.Keys)
  }

  /** Every constrained position lies inside `input` and holds its symbol. */
  predicate Matches(r: Rule, input: string) {
    forall k :: k in r.constraints ==> k < |input| && input[k] == r.constraints[k]
  }

  /** Every constrained position lies inside an input of width `width`. */
  predicate InRange(r: Rule, width: nat) {
    forall k :: k in r.constraints ==> k < width
  }

  /** The evaluation loop over the remaining keys, in iteration order: the
      first key past the end of the input is an error, the first mismatch
      answers false. */
  function EvaluateFrom(r: Rule, keys: seq<nat>, input: string): (res: Result<bool, RuleEvaluationError>)
    requires forall k :: k in keys ==> k in r.constraints
    ensures res == Ok(true) <==>
              forall i :: 0 <= i < |keys| ==> keys[i] < |input| && input[keys[i]] == r.constraints[keys[i]]
    ensures (forall i :: 0 <= i < |keys| ==> keys[i] < |input|) ==> res.Ok?
  {
    if keys == [] then Ok(true)
    else if keys[0] >= |input| then Err(IndexOutOfRange)
    else if input[keys[0]] != r.constraints[keys[0]] then Ok(false)
    else EvaluateFrom(r, keys[1..], input)
  }

  /** `Rule::evaluate`: whatever the iteration order, the answer is `Ok(true)`
      exactly when the rule matches, and it is an error only when some
      constrained position lies past the end of the input. When every position
      lies inside the input the answer is the match itself. */
  function Evaluate(r: Rule, keys: seq<nat>, input: string): (res: Result<bool, RuleEvaluationError>)
    requires KeyOrder(r, keys)
    ensures res == Ok(true) <==> Matches(r, input)
    ensures InRange(r, |input|) ==> res == Ok(Matches(r, input))
    ensures res.Err? ==> !InRange(r, |input|)
    ensures r.constraints == map[] ==> res == Ok(true)
  {
    KeyOrderCoversConstraints(r, keys, input);
    var res := EvaluateFrom(r, keys, input);
    assert res.Ok? ==> (res.value <==> res == Ok(true));
    res
  }

  /** Quantifying over an iteration order is quantifying over the keys. */
  lemma KeyOrderCoversConstraints(r: Rule, keys: seq<nat>, input: string)
    requires KeyOrder(r, keys)
    ensures Matches(r, input) <==>
              forall i :: 0 <= i < |keys| ==> keys[i] < |input| && input[keys[i]] == r.constraints[keys[i]]
    ensures InRange(r, |input|) <==> forall i :: 0 <= i < |keys| ==> keys[i] < |input|
  {
    forall i | 0 <= i < |keys| ensures keys[i] in r.constraints {
      assert keys[i] in keys;
    }
    if forall i :: 0 <= i < |keys| ==> keys[i] < |input| {
      forall k | k in r.constraints ensures k < |input| {
        assert k in keys;
        var i :| 0 <= i < |keys| && keys[i] == k;
      }
    }
    if forall i :: 0 <= i < |keys| ==> keys[i] < |input| && input[keys[i]] == r.constraints[keys[i]] {
      forall k | k in r.constraints ensures k < |input| && input[k] == r.constraints[k] {
        assert k in keys;
        var i :| 0 <= i < |keys| && keys[i] == k;
      }
    }
  }

  /** `Rule::len`: the number of constraints. Each occupies its own position of
      the canonical form, so there are at most as many as it is long. */
  function Len(r: Rule): (n: nat)
    ensures n == |r.constraints.Keys|
    ensures n <= |Canonical(r)|
  {
    KeysBelowWidth(r.constraints.Keys, Width(r));
    |r.constraints|
  }

  /** A set of naturals below `n` has at most `n` elements. */
  lemma {:induction false} KeysBelowWidth(s: set<nat>, n: nat)
    requires forall x :: x in s ==> x < n
    ensures |s| <= n
  {
    if n > 0 {
      KeysBelowWidth(s - {n - 1}, n - 1);
    } else {
      assert s == {};
    }
  }

  /** A non-empty set of naturals has a largest element. */
  lemma {:induction false} LargestExists(s: set<nat>)
    requires s != {}
    ensures exists m :: m in s && forall x :: x in s ==> x <= m
  {
    var y :| y in s;
    if s - {y} != {} {
      LargestExists(s - {y});
      var m :| m in s - {y} && forall x :: x in s - {y} ==> x <= m;
      var big := if y <= m then m else y;
      forall x | x in s ensures x <= big {
        if x != y {
          assert x in s - {y};
        }
      }
    } else {
      assert s == {y};
    }
  }

  /** One more than the largest constrained position; 0 for an empty rule. */
  function Width(r: Rule): (w: nat)
    ensures InRange(r, w)
    ensures w == 0 <==> r.constraints == map[]
    ensures w > 0 ==> w - 1 in r.constraints
  {
    if r.constraints == map[] then 0
    else
      LargestExists(r.constraints.Keys);
      var m :| m in r.constraints && forall k :: k in r.constraints ==> k <= m;
      m + 1
  }

  /** What the canonical form shows at position `p`. */
  function Symbol(r: Rule, p: nat): char {
    if p in r.constraints then r.constraints[p] else Placeholder
  }

  /** The canonical padded form of a rule: one symbol per position up to the
      largest constrained one, `Placeholder` where nothing is required. It
      depends on the map's contents only; `Hash` hashes this string. */
  function Canonical(r: Rule): (s: string)
  {
    seq(Width(r), p requires 0 <= p => Symbol(r, p))
  }

  predicate StrictlyIncreasing(s: seq<nat>) {
    forall i, j :: 0 <= i < j < |s| ==> s[i] < s[j]
  }

  /** Putting a key below every key of a strictly increasing sequence in
      front keeps it strictly increasing. */
  lemma ConsIncreasing(a: nat, t: seq<nat>)
    requires StrictlyIncreasing(t)
    requires forall y :: y in t ==> a < y
    ensures StrictlyIncreasing([a] + t)
  {
    var r := [a] + t;
    forall i, j | 0 <= i < j < |r| ensures r[i] < r[j] {
      assert r[j] == t[j - 1];
      if i > 0 {
        assert r[i] == t[i - 1];
      } else {
        assert t[j - 1] in t;
      }
    }
  }

  /** Every key after the first of a strictly increasing sequence is above it. */
  lemma HeadBelowRest(s: seq<nat>)
    requires StrictlyIncreasing(s)
    ensures s != [] ==> forall y :: y in s[1..] ==> s[0] < y
  {
    forall y | s != [] && y in s[1..] ensures s[0] < y {
      var j :| 0 <= j < |s[1..]| && s[1..][j] == y;
      assert s[j + 1] == y;
    }
  }

  /** Inserts a new key into an ascending sequence of keys. */
  function InsertAscending(s: seq<nat>, x: nat): (res: seq<nat>)
    requires StrictlyIncreasing(s) && x !in s
    ensures StrictlyIncreasing(res)
    ensures forall y :: y in res <==> y in s || y == x
    ensures |res| == |s| + 1
  {
    if s == [] || x < s[0] then
      HeadBelowRest(s);
      assert forall y :: y in s ==> x < y by {
        forall y | y in s ensures x < y {
          assert y == s[0] || y in s[1..];
        }
      }
      ConsIncreasing(x, s);
      [x] + s
    else
      var tail := InsertAscending(s[1..], x);
      HeadBelowRest(s);
      ConsIncreasing(s[0], tail);
      assert s == [s[0]] + s[1..];
      [s[0]] + tail
  }

  /** `entries.sort_by_key(index)` on distinct keys: the same keys in
      ascending order. */
  function SortAscending(keys: seq<nat>): (res: seq<nat>)
    requires NoDuplicates(keys)
    ensures StrictlyIncreasing(res)
    ensures forall y :: y in res <==> y in keys
    ensures |res| == |keys|
  {
    if keys == [] then []
    else
      var init := keys[..|keys| - 1];
      var last := keys[|keys| - 1];
      assert last !in init by {
        forall j | 0 <= j < |init| ensures init[j] != last {
          assert keys[j] != keys[|keys| - 1];
        }
      }
      assert keys == init + [last];
      InsertAscending(SortAscending(init), last)
  }

  /** `Rule::to_string`: sorts the entries by position and pads the gaps with
      the placeholder. Whatever the map's iteration order, the result is the
      canonical form. */
  method ToString(r: Rule, iterationOrder: seq<nat>) returns (output: string)
    requires KeyOrder(r, iterationOrder)
    ensures output == Canonical(r)
  {
    var entries := SortAscending(iterationOrder);
    output := [];
    var i := 0;
    while i < |entries|
      invariant 0 <= i <= |entries|
      invariant |output| == if i == 0 then 0 else entries[i - 1] + 1
      invariant forall p :: 0 <= p < |output| ==> output[p] == Symbol(r, p)
    {
      var index := entries[i];
      GapUnconstrained(r, iterationOrder, entries, i, |output|);
      if i > 0 {
        assert entries[i - 1] < entries[i];
      }
      assert index in r.constraints by {
        assert entries[i] in entries;
      }
      output := PadGap(r, output, index);
      output := output + [r.constraints[index]];
      i := i + 1;
    }
    SortedWidth(r, iterationOrder, entries);
  }

  /** The padding loop of `to_string`: fills the unconstrained positions
      before `index` with the placeholder. */
  method PadGap(r: Rule, prefix: string, index: nat) returns (output: string)
    requires |prefix| <= index
    requires forall p :: 0 <= p < |prefix| ==> prefix[p] == Symbol(r, p)
    requires forall p :: |prefix| <= p < index ==> p !in r.constraints
    ensures |output| == index
    ensures forall p :: 0 <= p < index ==> output[p] == Symbol(r, p)
  {
    output := prefix;
    while index > |output|
      invariant |prefix| <= |output| <= index
      invariant forall p :: 0 <= p < |output| ==> output[p] == Symbol(r, p)
    {
      output := output + [Placeholder];
    }
  }

  /** Between the previous sorted key and the next one no position is
      constrained. */
  lemma GapUnconstrained(r: Rule, iterationOrder: seq<nat>, entries: seq<nat>, i: nat, from: nat)
    requires KeyOrder(r, iterationOrder)
    requires StrictlyIncreasing(entries) && forall y :: y in entries <==> y in iterationOrder
    requires i < |entries|
    requires from == if i == 0 then 0 else entries[i - 1] + 1
    ensures forall p :: from <= p < entries[i] ==> p !in r.constraints
  {
    forall p | p in r.constraints ensures p < from || entries[i] <= p {
      assert p in iterationOrder;
      var j :| 0 <= j < |entries| && entries[j] == p;
      if j < i {
        assert entries[j] <= entries[i - 1];
      } else {
        assert entries[i] <= entries[j];
      }
    }
  }

  /** The canonical width is one past the last sorted key. */
  lemma SortedWidth(r: Rule, iterationOrder: seq<nat>, entries: seq<nat>)
    requires KeyOrder(r, iterationOrder)
    requires StrictlyIncreasing(entries) && forall y :: y in entries <==> y in iterationOrder
    requires |entries| == |iterationOrder|
    ensures Width(r) == if entries == [] then 0 else entries[|entries| - 1] + 1
  {
    if entries == [] {
      EnumerationLength(iterationOrder, r.constraints.Keys);
    } else {
      var last := entries[|entries| - 1];
      assert last in entries;
      assert last in r.constraints;
      assert Width(r) - 1 in iterationOrder;
      forall k | k in r.constraints ensures k <= last {
        assert k in iterationOrder;
        var j :| 0 <= j < |entries| && entries[j] == k;
        assert j == |entries| - 1 || entries[j] < last;
      }
    }
  }

  /** When no rule requires the placeholder symbol, the canonical form
      determines the rule: equal strings mean equal rules, so hashing the
      string agrees with comparing the maps. */
  lemma CanonicalDeterminesRule(r1: Rule, r2: Rule)
    requires forall k :: k in r1.constraints ==> r1.constraints[k] != Placeholder
    requires forall k :: k in r2.constraints ==> r2.constraints[k] != Placeholder
    requires Canonical(r1) == Canonical(r2)
    ensures r1 == r2
  {
    forall k | k in r1.constraints
      ensures k in r2.constraints && r2.constraints[k] == r1.constraints[k]
    {
      assert Canonical(r1)[k] == r1.constraints[k];
    }
    forall k | k in r2.constraints
      ensures k in r1.constraints
    {
      assert Canonical(r2)[k] == r2.constraints[k];
    }
    assert r1.constraints == r2.constraints;
  }

  /** Every constraint points inside the examples and asks for a symbol of the
      alphabet. */
  predicate WithinSpec(r: Rule, maxIndex: nat, alphabet: string) {
    forall k :: k in r.constraints ==> k < maxIndex && r.constraints[k] in alphabet
  }

  /** The drawing loop of `Rule::generate` from position `pos` of the tape,
      with the constraints `m` gathered so far and `fails` consecutive
      failures: a drawn position already constrained counts a failure and
      the loop gives up once the failures reach
      `maxRuleGenerationConsecutiveFail` (the cap the code reads, the one
      named for rules rather than for constraints); a fresh position gets a
      drawn symbol and resets the count. Yields the constraints, the
      position after the last draw and the final failure count. */
  function Fill(spec: PopGenSpec, rng: Random.Tape, pos: nat, target: nat, m: map<nat, char>, fails: nat)
    : (r: (map<nat, char>, nat, nat))
    requires CanGenerateRules(spec)
    requires fails <= spec.maxRuleGenerationConsecutiveFail
    ensures |m| <= target ==> |r.0| <= target
    ensures forall k :: k in m ==> k in r.0 && r.0[k] == m[k]
    ensures WithinSpec(Rule(m), spec.maxIndex, spec.alphabet) ==> WithinSpec(Rule(r.0), spec.maxIndex, spec.alphabet)
    ensures |r.0| < target ==> r.2 >= spec.maxRuleGenerationConsecutiveFail && r.2 > 0
    ensures target > 0 ==> |r.0| > 0
    ensures r.1 >= pos
    decreases target - |m|, spec.maxRuleGenerationConsecutiveFail - fails
  {
    if |m| >= target then (m, pos, fails)
    else
      var index := Random.GenRange(rng, pos, 0, spec.maxIndex);
      if index in m then
        if fails + 1 >= spec.maxRuleGenerationConsecutiveFail then (m, pos + 1, fails + 1)
        else Fill(spec, rng, pos + 1, target, m, fails + 1)
      else
        var symbol := spec.alphabet[Random.GenRange(rng, pos + 1, 0, |spec.alphabet|)];
        Fill(spec, rng, pos + 2, target, m[index := symbol], 0)
  }

  /** The rule `Rule::generate` builds from position `pos` of the tape, and
      the position after its last draw. */
  function Generated(spec: PopGenSpec, rng: Random.Tape, pos: nat): (r: (Rule, nat))
    requires CanGenerateRules(spec)
    ensures spec.minRuleConstraints > 0 ==> |r.0.constraints| > 0
    ensures |r.0.constraints| < spec.maxRuleConstraints
    ensures WithinSpec(r.0, spec.maxIndex, spec.alphabet)
    ensures r.1 > pos
  {
    var target := Random.GenRange(rng, pos, spec.minRuleConstraints, spec.maxRuleConstraints);
    var f := Fill(spec, rng, pos + 1, target, map[], 0);
    (Rule(f.0), f.1)
  }

  /** `Rule::generate`: draws a target count in
      `[minRuleConstraints, maxRuleConstraints)`, then runs the drawing loop
      `Fill`. */
  method Generate(spec: PopGenSpec, rng: Random.Tape, pos: nat)
    returns (r: Rule, next: nat, ghost target: nat, ghost consecutiveFails: nat)
    requires CanGenerateRules(spec)
    ensures target == Random.GenRange(rng, pos, spec.minRuleConstraints, spec.maxRuleConstraints)
    ensures (r, next) == Generated(spec, rng, pos)
    ensures consecutiveFails == Fill(spec, rng, pos + 1, target, map[], 0).2
    ensures spec.minRuleConstraints <= target < spec.maxRuleConstraints
    ensures |r.constraints| <= target
    ensures target > 0 ==> |r.constraints| > 0
    ensures |r.constraints| < target ==>
              consecutiveFails >= spec.maxRuleGenerationConsecutiveFail && consecutiveFails > 0
    ensures WithinSpec(r, spec.maxIndex, spec.alphabet)
    ensures next > pos
  {
    var numberOfConstraints := Random.GenRange(rng, pos, spec.minRuleConstraints, spec.maxRuleConstraints);
    next := pos + 1;
    var constraints: map<nat, char> := map[];
    var fails := 0;
    while |constraints| < numberOfConstraints
      invariant fails <= spec.maxRuleGenerationConsecutiveFail
      invariant Fill(spec, rng, pos + 1, numberOfConstraints, map[], 0) == Fill(spec, rng, next, numberOfConstraints, constraints, fails)
      decreases numberOfConstraints - |constraints|, spec.maxRuleGenerationConsecutiveFail - fails
    {
      var index := Random.GenRange(rng, next, 0, spec.maxIndex);
      next := next + 1;
      if index in constraints {
        fails := fails + 1;
        if fails >= spec.maxRuleGenerationConsecutiveFail {
          break;
        }
      } else {
        fails := 0;
        var characterIndex := Random.GenRange(rng, next, 0, |spec.alphabet|);
        next := next + 1;
        constraints := constraints[index := spec.alphabet[characterIndex]];
      }
    }
    target, consecutiveFails := numberOfConstraints, fails;
    r := Rule(constraints);
  }
}
