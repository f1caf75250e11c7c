/** Crossover: pairing the selected candidates and mating each pair into two
    children (crossover.rs). */
module Crossover {
  import opened Common
  import opened Rules
  import opened Candidates
  import opened Selection
  import Random

  datatype MatchupStrategy = Random(allowAsexual: bool, allowDuplicates: bool) | NextFittest | LeastFittest

  datatype MirroringStrategy = MirrorIfAsexual | AlwaysMirror | Never

  /** An unsigned 8-bit configuration value. */
  type U8 = x: nat | x < 256

  datatype MatingStrategy =
    | SinglePointAtIndex(splitAt: U8)
    | SinglePointAtPercentage(splitAt: U8)
    | MultiPointAtIndices(splits: seq<(U8, U8)>)
    | MultiPointAtPercentages(splits: seq<(U8, U8)>)

  datatype CrossoverStrategy = CrossoverStrategy(
    matchupStrategy: MatchupStrategy,
    mirroring: MirroringStrategy,
    matingStrategy: MatingStrategy)

  datatype CrossoverError = RngFail | CantGenerateNonAsexualMatchupWithOneCandidate

  type Pair = (CandidateFitness, CandidateFitness)

  // ---------------------------------------------------------------------
  // Iterator adaptors

  /** `iter().take(n)`: at most the first `n` elements. */
  function Take<T>(s: seq<T>, n: nat): seq<T> {
    if n <= |s| then s[..n] else s
  }

  /** `iter().skip(n)`: all but the first `n` elements. */
  function Skip<T>(s: seq<T>, n: nat): seq<T> {
    if n <= |s| then s[n..] else []
  }

  /** `skip(start).take(len)`. */
  function Slice<T>(s: seq<T>, start: nat, len: nat): seq<T> {
    Take(Skip(s, start), len)
  }

  function Reverse<T>(s: seq<T>): (r: seq<T>)
    ensures |r| == |s|
    ensures forall i :: 0 <= i < |s| ==> r[i] == s[|s| - 1 - i]
  {
    if s == [] then [] else Reverse(s[1..]) + [s[0]]
  }

  /** `a.zip(b)`: pairs up to the shorter length. */
  function Zip<A, B>(a: seq<A>, b: seq<B>): (r: seq<(A, B)>)
    ensures |r| == if |a| <= |b| then |a| else |b|
    ensures forall i :: 0 <= i < |r| ==> r[i] == (a[i], b[i])
  {
    if a == [] || b == [] then [] else [(a[0], b[0])] + Zip(a[1..], b[1..])
  }

  // ---------------------------------------------------------------------
  // Matchups

  /** `MatchupStrategy::LeastFittest`: the first `len - 1` candidates zipped
      with the candidates after the first, reversed: the fittest with the
      least fit. */
  function LeastFittestMatchup(cs: seq<CandidateFitness>): (pairs: seq<Pair>)
    requires |cs| > 0
    ensures |pairs| == |cs| - 1
    ensures forall i :: 0 <= i < |pairs| ==> pairs[i] == (cs[i], cs[|cs| - 1 - i])
  {
    Zip(Take(cs, |cs| - 1), Reverse(cs[1..]))
  }

  /** `MatchupStrategy::NextFittest`: each candidate with the one after it. */
  function NextFittestMatchup(cs: seq<CandidateFitness>): (pairs: seq<Pair>)
    requires |cs| > 0
    ensures |pairs| == |cs| - 1
    ensures forall i :: 0 <= i < |pairs| ==> pairs[i] == (cs[i], cs[i + 1])
  {
    Zip(Take(cs, |cs| - 1), cs[1..])
  }

  /** The duplicate probe of the random matchup: while the pair is already
      present, advance the partner; give up (skip this candidate) after
      `n` advances. */
  method Probe(matchups: seq<(nat, nat)>, candidateIndex: nat, matchup: nat, n: nat)
    returns (partner: nat, skip: bool)
    requires matchup < n
    ensures partner < n
    ensures !skip ==> (candidateIndex, partner) !in matchups
    ensures (candidateIndex, matchup) !in matchups ==> partner == matchup && !skip
  {
    partner := matchup;
    skip := false;
    var checks := 0;
    while (candidateIndex, partner) in matchups
      invariant partner < n && checks <= n
      invariant (candidateIndex, matchup) !in matchups ==> partner == matchup
      decreases n - checks
    {
      partner := (partner + 1) % n;
      if checks >= n {
        skip := true;
        return;
      }
      checks := checks + 1;
    }
  }

  /** The partner the random matchup reads off the tape for candidate index
      `i` of `n`: the draw at `pos + i`, rolled over to the next index when it
      is `i` itself and asexual reproduction is off. */
  function RandomPartner(rng: Random.Tape, pos: nat, i: nat, n: nat, allowAsexual: bool): (j: nat)
    requires n > 0
    ensures j < n
    ensures !allowAsexual && n > 1 && i < n ==> j != i
  {
    var m := Random.GenRange(rng, pos + i, 0, n);
    if !allowAsexual && m == i then (m + 1) % n else m
  }

  /** `MatchupStrategy::Random`: each candidate index in turn gets a random
      partner index; without asexual reproduction a candidate drawn as its
      own partner rolls over to the next index. The duplicate probe only
      looks for pairs of the current index, which have not been pushed yet,
      so it never moves the partner and never skips. */
  method RandomMatchup(n: nat, allowAsexual: bool, allowDuplicates: bool, rng: Random.Tape, pos: nat)
    returns (res: Result<seq<(nat, nat)>, CrossoverError>, next: nat)
    requires n > 0
    ensures res.Err? <==> n == 1 && !allowAsexual
    ensures res.Err? ==> res.error == CantGenerateNonAsexualMatchupWithOneCandidate
    ensures res.Ok? ==> |res.value| == n
    ensures res.Ok? ==> forall i :: 0 <= i < n ==> res.value[i].0 == i && res.value[i].1 < n
    ensures res.Ok? && !allowAsexual ==> forall i :: 0 <= i < n ==> res.value[i].1 != i
    ensures res.Ok? ==> next == pos + n && forall i :: 0 <= i < n ==> res.value[i].1 == RandomPartner(rng, pos, i, n, allowAsexual)
    ensures res.Err? ==> next == pos
  {
    next := pos;
    if n == 1 && !allowAsexual {
      return Err(CantGenerateNonAsexualMatchupWithOneCandidate), next;
    }
    var matchups: seq<(nat, nat)> := [];
    for candidateIndex := 0 to n
      invariant |matchups| == candidateIndex
      invariant forall i :: 0 <= i < candidateIndex ==> matchups[i].0 == i && matchups[i].1 < n
      invariant !allowAsexual ==> forall i :: 0 <= i < candidateIndex ==> matchups[i].1 != i
      invariant next == pos + candidateIndex
      invariant forall i :: 0 <= i < candidateIndex ==> matchups[i].1 == RandomPartner(rng, pos, i, n, allowAsexual)
    {
      var matchup := Random.GenRange(rng, next, 0, n);
      next := next + 1;
      if !allowAsexual && matchup == candidateIndex {
        matchup := (matchup + 1) % n;
      }
      if !allowDuplicates {
        assert (candidateIndex, matchup) !in matchups;
        var skip;
        matchup, skip := Probe(matchups, candidateIndex, matchup, n);
        if skip {
          continue;
        }
      }
      matchups := matchups + [(candidateIndex, matchup)];
    }
    res := Ok(matchups);
  }

  /** Whether the matchup strategy can pair the k-th of `n` candidates with
      the j-th: the mirror position, the next position, or (at random) any
      position, the k-th itself only with asexual reproduction. */
  predicate PairPossible(strategy: MatchupStrategy, n: nat, k: nat, j: nat) {
    match strategy
    case LeastFittest => k + 1 < n && j == n - 1 - k
    case NextFittest => k + 1 < n && j == k + 1
    case Random(allowAsexual, _) => k < n && j < n && (allowAsexual || j != k)
  }

  /** The pairs are the k-th candidate with the `partners[k]`-th, each a
      pairing the strategy can form. */
  ghost predicate PairsOf(strategy: MatchupStrategy, cs: seq<CandidateFitness>, pairs: seq<Pair>, partners: seq<nat>) {
    && |partners| == |pairs|
    && forall k :: 0 <= k < |pairs| ==>
         && partners[k] < |cs| && PairPossible(strategy, |cs|, k, partners[k])
         && pairs[k] == (cs[k], cs[partners[k]])
  }

  /** `CrossoverStrategy::matchup`: the pairs of candidates to mate. */
  method Matchup(strategy: MatchupStrategy, cs: seq<CandidateFitness>, rng: Random.Tape, pos: nat)
    returns (res: Result<seq<Pair>, CrossoverError>, next: nat, ghost partners: seq<nat>)
    requires |cs| > 0
    ensures res.Err? <==> strategy.Random? && |cs| == 1 && !strategy.allowAsexual
    ensures res.Err? ==> res.error == CantGenerateNonAsexualMatchupWithOneCandidate
    ensures res.Ok? ==> |res.value| == if strategy.Random? then |cs| else |cs| - 1
    ensures res.Ok? ==> PairsOf(strategy, cs, res.value, partners)
    ensures strategy.LeastFittest? ==> res == Ok(LeastFittestMatchup(cs))
    ensures strategy.NextFittest? ==> res == Ok(NextFittestMatchup(cs))
    ensures !strategy.Random? || res.Err? ==> next == pos
    ensures strategy.Random? && res.Ok? ==>
              next == pos + |cs|
              && forall k :: 0 <= k < |partners| ==> partners[k] == RandomPartner(rng, pos, k, |cs|, strategy.allowAsexual)
  {
    match strategy
    case LeastFittest =>
      res, next := Ok(LeastFittestMatchup(cs)), pos;
      partners := seq(|cs| - 1, k requires 0 <= k < |cs| - 1 => |cs| - 1 - k);
    case NextFittest =>
      res, next := Ok(NextFittestMatchup(cs)), pos;
      partners := seq(|cs| - 1, k requires 0 <= k < |cs| - 1 => k + 1);
    case Random(allowAsexual, allowDuplicates) =>
      var indices;
      indices, next := RandomMatchup(|cs|, allowAsexual, allowDuplicates, rng, pos);
      if indices.Err? {
        return Err(indices.error), next, [];
      }
      var pairs := seq(|cs|, k requires 0 <= k < |cs| => (cs[indices.value[k].0], cs[indices.value[k].1]));
      res := Ok(pairs);
      partners := seq(|cs|, k requires 0 <= k < |cs| => indices.value[k].1);
  }

  // ---------------------------------------------------------------------
  // Split points

  /** Whether the mirroring strategy applies to this pair; `MirrorIfAsexual`
      asks whether the two entries are equal. */
  predicate Mirrors(mirroring: MirroringStrategy, a: CandidateFitness, b: CandidateFitness) {
    match mirroring
    case MirrorIfAsexual => SameEntry(a, b)
    case AlwaysMirror => true
    case Never => false
  }

  function Min(x: nat, y: nat): nat { if x <= y then x else y }

  function Max(x: nat, y: nat): nat { if x <= y then y else x }

  /** `max(x, y) - min(x, y)`. */
  function AbsDiff(x: nat, y: nat): nat { Max(x, y) - Min(x, y) }

  /** A percentage of a length, `(p / 100) * n` truncated. */
  function Percent(p: nat, n: nat): nat { p * n / 100 }

  /** Up to 100 percent of a length stays within it. */
  lemma PercentWithin(p: nat, n: nat)
    requires p <= 100
    ensures Percent(p, n) <= n
  {
    assert p * n <= 100 * n;
  }

  /** The multi-point "normalisation" `(min(s, e), max(min(s, e), e))`. */
  function NormaliseSplit(s: nat, e: nat): (nat, nat) {
    (Min(s, e), Max(Min(s, e), e))
  }

  /** Normalising keeps an ordered pair and turns a reversed pair into the
      empty range at its end, instead of swapping it. */
  lemma NormaliseSplitEffect(s: nat, e: nat)
    ensures NormaliseSplit(s, e).0 <= NormaliseSplit(s, e).1
    ensures s <= e ==> NormaliseSplit(s, e) == (s, e)
    ensures s > e ==> NormaliseSplit(s, e) == (e, e)
  {
  }

  /** The single-point split positions `(split_at_a, split_at_b)`; nothing
      when mirroring a percentage split would subtract past zero (the code
      panics). */
  function SinglePointSplits(mating: MatingStrategy, mirror: bool, lenA: nat, lenB: nat): Option<(nat, nat)>
    requires mating.SinglePointAtIndex? || mating.SinglePointAtPercentage?
  {
    match mating
    case SinglePointAtIndex(p) =>
      Some((p, if mirror then AbsDiff(lenB, p) else p))
    case SinglePointAtPercentage(p) =>
      var splitB := Percent(p, lenB);
      if !mirror then Some((Percent(p, lenA), splitB))
      else if splitB <= lenB then Some((Percent(p, lenA), lenB - splitB))
      else None
  }

  /** A mirrored split counts from the other end of `b`: the two split points
      add up to `b`'s length (for an index split inside `b`, and for any
      percentage up to 100). */
  lemma MirroredSplitsCountFromEnd(mating: MatingStrategy, lenA: nat, lenB: nat)
    requires mating.SinglePointAtIndex? || mating.SinglePointAtPercentage?
    requires mating.SinglePointAtIndex? ==> mating.splitAt <= lenB
    requires mating.SinglePointAtPercentage? ==> mating.splitAt <= 100
    ensures SinglePointSplits(mating, true, lenA, lenB).Some?
    ensures var s := SinglePointSplits(mating, true, lenA, lenB).value;
            var straight := SinglePointSplits(mating, false, lenA, lenB).value;
            straight.1 + s.1 == lenB
  {
    if mating.SinglePointAtPercentage? {
      PercentWithin(mating.splitAt, lenB);
    }
  }

  /** The bounds `(a_start, a_end, b_start, b_end)` of one multi-point
      segment; nothing when the b-range would be computed by a subtraction
      past zero (the code panics). */
  function SegmentBounds(percentage: bool, mirror: bool, lenA: nat, lenB: nat, split: (U8, U8)): (r: Option<(nat, nat, nat, nat)>)
    ensures r.Some? ==> r.value.0 <= r.value.1 && r.value.2 <= r.value.3
  {
    if !percentage then
      var (aStart, aEnd) := NormaliseSplit(split.0, split.1);
      var (bStart, bEnd) := if mirror then (AbsDiff(lenB, aStart), AbsDiff(lenB, aEnd)) else (aStart, aEnd);
      if bStart <= bEnd then Some((aStart, aEnd, bStart, bEnd)) else None
    else
      var (aStart, aEnd) := NormaliseSplit(Percent(split.0, lenA), Percent(split.1, lenA));
      var (bStartPlain, bEndPlain) := NormaliseSplit(Percent(split.0, lenB), Percent(split.1, lenB));
      if !mirror then Some((aStart, aEnd, bStartPlain, bEndPlain))
      else if bEndPlain <= lenB && lenB - bStartPlain <= lenB - bEndPlain then
        Some((aStart, aEnd, lenB - bStartPlain, lenB - bEndPlain))
      else None
  }

  /** Without mirroring every segment has well-ordered bounds; with it, an
      index segment that starts before its end inside `b` cannot be
      mirrored, because the mirrored end lies before the mirrored start. */
  lemma SegmentBoundsDefinedness(percentage: bool, lenA: nat, lenB: nat, split: (U8, U8))
    ensures SegmentBounds(percentage, false, lenA, lenB, split).Some?
    ensures !percentage && split.0 < split.1 <= lenB ==> SegmentBounds(false, true, lenA, lenB, split).None?
  {
  }

  /** The mating strategy is defined on this pair: no subtraction past zero. */
  predicate MatingDefined(mating: MatingStrategy, mirroring: MirroringStrategy, a: CandidateFitness, b: CandidateFitness) {
    var mirror := Mirrors(mirroring, a, b);
    var lenA := |a.candidate.rules|;
    var lenB := |b.candidate.rules|;
    match mating
    case SinglePointAtIndex(_) => true
    case SinglePointAtPercentage(_) => SinglePointSplits(mating, mirror, lenA, lenB).Some?
    case MultiPointAtIndices(splits) =>
      forall s :: s in splits ==> SegmentBounds(false, mirror, lenA, lenB, s).Some?
    case MultiPointAtPercentages(splits) =>
      forall s :: s in splits ==> SegmentBounds(true, mirror, lenA, lenB, s).Some?
  }

  // ---------------------------------------------------------------------
  // Children

  /** The single-point children before collection:
      `a.take(sa) ++ b.skip(sb)` and `b.take(sb) ++ a.skip(sa)`. */
  function SinglePointChildren(a: seq<Rule>, b: seq<Rule>, splitA: nat, splitB: nat): (seq<Rule>, seq<Rule>) {
    (Take(a, splitA) + Skip(b, splitB), Take(b, splitB) + Skip(a, splitA))
  }

  lemma TakeSkipSplit<T>(s: seq<T>, n: nat)
    ensures Take(s, n) + Skip(s, n) == s
  {
  }

  /** Single-point crossover loses no rule and invents none: together the two
      children hold exactly the rules of the two parents, and as many of
      them. */
  lemma SinglePointKeepsRules(a: seq<Rule>, b: seq<Rule>, splitA: nat, splitB: nat)
    ensures var (c1, c2) := SinglePointChildren(a, b, splitA, splitB);
            Elements(c1) + Elements(c2) == Elements(a) + Elements(b) &&
            |c1| + |c2| == |a| + |b|
  {
    TakeSkipSplit(a, splitA);
    TakeSkipSplit(b, splitB);
    var (c1, c2) := SinglePointChildren(a, b, splitA, splitB);
    assert Elements(c1) == Elements(Take(a, splitA)) + Elements(Skip(b, splitB));
    assert Elements(c2) == Elements(Take(b, splitB)) + Elements(Skip(a, splitA));
    assert Elements(a) == Elements(Take(a, splitA)) + Elements(Skip(a, splitA));
    assert Elements(b) == Elements(Take(b, splitB)) + Elements(Skip(b, splitB));
  }

  /** The a-slice and the b-slice of one multi-point segment:
      `skip(start).take(end - start)` of each parent. */
  function SegmentSlices(percentage: bool, mirror: bool, a: seq<Rule>, b: seq<Rule>, split: (U8, U8)): (seq<Rule>, seq<Rule>)
    requires SegmentBounds(percentage, mirror, |a|, |b|, split).Some?
  {
    var bounds := SegmentBounds(percentage, mirror, |a|, |b|, split).value;
    (Slice(a, bounds.0, bounds.1 - bounds.0), Slice(b, bounds.2, bounds.3 - bounds.2))
  }

  /** The rule sets the two multi-point children accumulate over the
      segments: the first extends with the a-slice then the b-slice, the
      second with the b-slice then the a-slice. */
  function MultiPointRules(percentage: bool, mirror: bool, a: seq<Rule>, b: seq<Rule>, splits: seq<(U8, U8)>): (set<Rule>, set<Rule>)
    requires forall s :: s in splits ==> SegmentBounds(percentage, mirror, |a|, |b|, s).Some?
  {
    if splits == [] then ({}, {})
    else
      var (first, second) := MultiPointRules(percentage, mirror, a, b, splits[..|splits| - 1]);
      var (aSlice, bSlice) := SegmentSlices(percentage, mirror, a, b, splits[|splits| - 1]);
      (first + (Elements(aSlice) + Elements(bSlice)), second + (Elements(bSlice) + Elements(aSlice)))
  }

  /** Both multi-point children receive the same slices, so they always hold
      the same rules. */
  lemma {:induction false} MultiPointChildrenEqual(percentage: bool, mirror: bool, a: seq<Rule>, b: seq<Rule>, splits: seq<(U8, U8)>)
    requires forall s :: s in splits ==> SegmentBounds(percentage, mirror, |a|, |b|, s).Some?
    ensures MultiPointRules(percentage, mirror, a, b, splits).0 == MultiPointRules(percentage, mirror, a, b, splits).1
  {
    if splits != [] {
      MultiPointChildrenEqual(percentage, mirror, a, b, splits[..|splits| - 1]);
    }
  }

  lemma SliceElements<T>(s: seq<T>, start: nat, len: nat)
    ensures Elements(Slice(s, start, len)) <= Elements(s)
  {
    forall x | x in Slice(s, start, len) ensures x in s {
      var i :| 0 <= i < |Slice(s, start, len)| && Slice(s, start, len)[i] == x;
      assert s[start + i] == x;
    }
  }

  /** Multi-point children only hold rules of their parents. */
  lemma {:induction false} MultiPointRulesFromParents(percentage: bool, mirror: bool, a: seq<Rule>, b: seq<Rule>, splits: seq<(U8, U8)>)
    requires forall s :: s in splits ==> SegmentBounds(percentage, mirror, |a|, |b|, s).Some?
    ensures MultiPointRules(percentage, mirror, a, b, splits).0 <= Elements(a) + Elements(b)
    ensures MultiPointRules(percentage, mirror, a, b, splits).1 <= Elements(a) + Elements(b)
  {
    if splits != [] {
      MultiPointRulesFromParents(percentage, mirror, a, b, splits[..|splits| - 1]);
      SegmentSlicesFromParents(percentage, mirror, a, b, splits[|splits| - 1]);
    }
  }

  /** A segment's slices come from their parents. */
  lemma SegmentSlicesFromParents(percentage: bool, mirror: bool, a: seq<Rule>, b: seq<Rule>, split: (U8, U8))
    requires SegmentBounds(percentage, mirror, |a|, |b|, split).Some?
    ensures Elements(SegmentSlices(percentage, mirror, a, b, split).0) <= Elements(a)
    ensures Elements(SegmentSlices(percentage, mirror, a, b, split).1) <= Elements(b)
  {
    var bounds := SegmentBounds(percentage, mirror, |a|, |b|, split).value;
    SliceElements(a, bounds.0, bounds.1 - bounds.0);
    SliceElements(b, bounds.2, bounds.3 - bounds.2);
  }

  /** The rule sets of the two children of a pair. */
  function ChildRules(mating: MatingStrategy, mirroring: MirroringStrategy, a: CandidateFitness, b: CandidateFitness): (set<Rule>, set<Rule>)
    requires MatingDefined(mating, mirroring, a, b)
  {
    var mirror := Mirrors(mirroring, a, b);
    match mating
    case SinglePointAtIndex(_) =>
      var (sa, sb) := SinglePointSplits(mating, mirror, |a.candidate.rules|, |b.candidate.rules|).value;
      var (c1, c2) := SinglePointChildren(a.candidate.rules, b.candidate.rules, sa, sb);
      (Elements(c1), Elements(c2))
    case SinglePointAtPercentage(_) =>
      var (sa, sb) := SinglePointSplits(mating, mirror, |a.candidate.rules|, |b.candidate.rules|).value;
      var (c1, c2) := SinglePointChildren(a.candidate.rules, b.candidate.rules, sa, sb);
      (Elements(c1), Elements(c2))
    case MultiPointAtIndices(splits) =>
      MultiPointRules(false, mirror, a.candidate.rules, b.candidate.rules, splits)
    case MultiPointAtPercentages(splits) =>
      MultiPointRules(true, mirror, a.candidate.rules, b.candidate.rules, splits)
  }

  /** Every child holds rules of its parents only. */
  lemma ChildRulesFromParents(mating: MatingStrategy, mirroring: MirroringStrategy, a: CandidateFitness, b: CandidateFitness)
    requires MatingDefined(mating, mirroring, a, b)
    ensures ChildRules(mating, mirroring, a, b).0 <= RuleSet(a.candidate) + RuleSet(b.candidate)
    ensures ChildRules(mating, mirroring, a, b).1 <= RuleSet(a.candidate) + RuleSet(b.candidate)
  {
    var mirror := Mirrors(mirroring, a, b);
    match mating
    case SinglePointAtIndex(_) =>
      var (sa, sb) := SinglePointSplits(mating, mirror, |a.candidate.rules|, |b.candidate.rules|).value;
      SinglePointKeepsRules(a.candidate.rules, b.candidate.rules, sa, sb);
    case SinglePointAtPercentage(_) =>
      var (sa, sb) := SinglePointSplits(mating, mirror, |a.candidate.rules|, |b.candidate.rules|).value;
      SinglePointKeepsRules(a.candidate.rules, b.candidate.rules, sa, sb);
    case MultiPointAtIndices(splits) =>
      MultiPointRulesFromParents(false, mirror, a.candidate.rules, b.candidate.rules, splits);
    case MultiPointAtPercentages(splits) =>
      MultiPointRulesFromParents(true, mirror, a.candidate.rules, b.candidate.rules, splits);
  }

  /** The multi-point segment loop: extends both children segment by
      segment. */
  method MultiPoint(percentage: bool, mirror: bool, a: seq<Rule>, b: seq<Rule>, splits: seq<(U8, U8)>)
    returns (first: set<Rule>, second: set<Rule>)
    requires forall s :: s in splits ==> SegmentBounds(percentage, mirror, |a|, |b|, s).Some?
    ensures (first, second) == MultiPointRules(percentage, mirror, a, b, splits)
  {
    first, second := {}, {};
    for j := 0 to |splits|
      invariant (first, second) == MultiPointRules(percentage, mirror, a, b, splits[..j])
    {
      assert splits[..j + 1][..j] == splits[..j] && splits[..j + 1][j] == splits[j];
      var (aSlice, bSlice) := SegmentSlices(percentage, mirror, a, b, splits[j]);
      first := first + (Elements(aSlice) + Elements(bSlice));
      second := second + (Elements(bSlice) + Elements(aSlice));
    }
    assert splits[..|splits|] == splits;
  }

  /** One iteration of the mating loop of `crossover`: the two children of
      a pair, built by the mating strategy from the parents' rules. */
  method MatePair(mating: MatingStrategy, mirroring: MirroringStrategy, a: CandidateFitness, b: CandidateFitness)
    returns (firstChild: Candidate, secondChild: Candidate)
    requires MatingDefined(mating, mirroring, a, b)
    ensures RuleSet(firstChild) == ChildRules(mating, mirroring, a, b).0
    ensures RuleSet(secondChild) == ChildRules(mating, mirroring, a, b).1
    ensures Candidates.Valid(firstChild) && firstChild.mutationCount == 0 && firstChild.birthGenerationId == None
    ensures Candidates.Valid(secondChild) && secondChild.mutationCount == 0 && secondChild.birthGenerationId == None
  {
    var mirror := Mirrors(mirroring, a, b);
    var firstRules: set<Rule>, secondRules: set<Rule>;
    match mating {
      case SinglePointAtIndex(_) =>
        var (splitA, splitB) := SinglePointSplits(mating, mirror, |a.candidate.rules|, |b.candidate.rules|).value;
        var (c1, c2) := SinglePointChildren(a.candidate.rules, b.candidate.rules, splitA, splitB);
        firstRules, secondRules := Elements(c1), Elements(c2);
      case SinglePointAtPercentage(_) =>
        var (splitA, splitB) := SinglePointSplits(mating, mirror, |a.candidate.rules|, |b.candidate.rules|).value;
        var (c1, c2) := SinglePointChildren(a.candidate.rules, b.candidate.rules, splitA, splitB);
        firstRules, secondRules := Elements(c1), Elements(c2);
      case MultiPointAtIndices(splits) =>
        firstRules, secondRules := MultiPoint(false, mirror, a.candidate.rules, b.candidate.rules, splits);
      case MultiPointAtPercentages(splits) =>
        firstRules, secondRules := MultiPoint(true, mirror, a.candidate.rules, b.candidate.rules, splits);
    }
    firstChild := FromRuleSet(firstRules);
    secondChild := FromRuleSet(secondRules);
  }

  /** The mating loop of `crossover`: two children per pair, in order. */
  method Mate(mating: MatingStrategy, mirroring: MirroringStrategy, pairs: seq<Pair>)
    returns (children: seq<Candidate>)
    requires forall k :: 0 <= k < |pairs| ==> MatingDefined(mating, mirroring, pairs[k].0, pairs[k].1)
    ensures |children| == 2 * |pairs|
    ensures forall k :: 0 <= k < |pairs| ==>
              && RuleSet(children[2 * k]) == ChildRules(mating, mirroring, pairs[k].0, pairs[k].1).0
              && RuleSet(children[2 * k + 1]) == ChildRules(mating, mirroring, pairs[k].0, pairs[k].1).1
    ensures forall c :: c in children ==>
              Candidates.Valid(c) && c.mutationCount == 0 && c.birthGenerationId == None
  {
    children := [];
    for k := 0 to |pairs|
      invariant |children| == 2 * k
      invariant forall i :: 0 <= i < k ==>
                  && RuleSet(children[2 * i]) == ChildRules(mating, mirroring, pairs[i].0, pairs[i].1).0
                  && RuleSet(children[2 * i + 1]) == ChildRules(mating, mirroring, pairs[i].0, pairs[i].1).1
      invariant forall c :: c in children ==>
                  Candidates.Valid(c) && c.mutationCount == 0 && c.birthGenerationId == None
    {
      var firstChild, secondChild := MatePair(mating, mirroring, pairs[k].0, pairs[k].1);
      var grown := children + [firstChild, secondChild];
      assert grown[2 * k] == firstChild && grown[2 * k + 1] == secondChild;
      assert forall i :: 0 <= i < 2 * k ==> grown[i] == children[i];
      children := grown;
    }
  }

  /** All rules of a sequence of candidates. */
  function AllRules(cs: seq<CandidateFitness>): set<Rule> {
    set k, r | 0 <= k < |cs| && r in cs[k].candidate.rules :: r
  }

  /** `CrossoverStrategy::crossover`: matches the candidates up and mates
      every pair into two children built from the parents' rules. It fails
      only when the random matchup is asked for non-asexual pairs of a single
      candidate. */
  method Crossover(strategy: CrossoverStrategy, cs: seq<CandidateFitness>, rng: Random.Tape, pos: nat)
    returns (res: Result<seq<Candidate>, CrossoverError>, next: nat, ghost pairs: seq<Pair>, ghost partners: seq<nat>)
    requires |cs| > 0
    requires forall k, j :: 0 <= k < |cs| && 0 <= j < |cs| && PairPossible(strategy.matchupStrategy, |cs|, k, j) ==>
               MatingDefined(strategy.matingStrategy, strategy.mirroring, cs[k], cs[j])
    ensures res.Err? <==> strategy.matchupStrategy.Random? && |cs| == 1 && !strategy.matchupStrategy.allowAsexual
    ensures res.Err? ==> res.error == CantGenerateNonAsexualMatchupWithOneCandidate
    ensures res.Ok? ==> |pairs| == if strategy.matchupStrategy.Random? then |cs| else |cs| - 1
    ensures res.Ok? ==> PairsOf(strategy.matchupStrategy, cs, pairs, partners)
    ensures res.Ok? && strategy.matchupStrategy.LeastFittest? ==> pairs == LeastFittestMatchup(cs)
    ensures res.Ok? && strategy.matchupStrategy.NextFittest? ==> pairs == NextFittestMatchup(cs)
    ensures !strategy.matchupStrategy.Random? || res.Err? ==> next == pos
    ensures strategy.matchupStrategy.Random? && res.Ok? ==>
              next == pos + |cs|
              && forall k :: 0 <= k < |partners| ==>
                   partners[k] == RandomPartner(rng, pos, k, |cs|, strategy.matchupStrategy.allowAsexual)
    ensures res.Ok? ==> |res.value| == 2 * |pairs|
    ensures res.Ok? ==> forall k :: 0 <= k < |pairs| ==>
              && RuleSet(res.value[2 * k]) == ChildRules(strategy.matingStrategy, strategy.mirroring, pairs[k].0, pairs[k].1).0
              && RuleSet(res.value[2 * k + 1]) == ChildRules(strategy.matingStrategy, strategy.mirroring, pairs[k].0, pairs[k].1).1
    ensures res.Ok? ==> forall c :: c in res.value ==>
              && Candidates.Valid(c) && c.mutationCount == 0 && c.birthGenerationId == None
              && RuleSet(c) <= AllRules(cs)
  {
    var matchups;
    matchups, next, partners := Matchup(strategy.matchupStrategy, cs, rng, pos);
    if matchups.Err? {
      return Err(matchups.error), next, [], [];
    }
    pairs := matchups.value;
    forall k | 0 <= k < |pairs|
      ensures pairs[k].0 in cs && pairs[k].1 in cs
      ensures MatingDefined(strategy.matingStrategy, strategy.mirroring, pairs[k].0, pairs[k].1)
    {
      assert pairs[k] == (cs[k], cs[partners[k]]);
    }
    var children := Mate(strategy.matingStrategy, strategy.mirroring, matchups.value);
    MatedChildrenFromParents(strategy.matingStrategy, strategy.mirroring, cs, pairs, children);
    res := Ok(children);
  }

  /** Children mated from pairs of candidates hold rules of those candidates
      only. */
  lemma MatedChildrenFromParents(mating: MatingStrategy, mirroring: MirroringStrategy, cs: seq<CandidateFitness>,
                                 pairs: seq<Pair>, children: seq<Candidate>)
    requires forall k :: 0 <= k < |pairs| ==> pairs[k].0 in cs && pairs[k].1 in cs
    requires forall k :: 0 <= k < |pairs| ==> MatingDefined(mating, mirroring, pairs[k].0, pairs[k].1)
    requires |children| == 2 * |pairs|
    requires forall k :: 0 <= k < |pairs| ==>
               && RuleSet(children[2 * k]) == ChildRules(mating, mirroring, pairs[k].0, pairs[k].1).0
               && RuleSet(children[2 * k + 1]) == ChildRules(mating, mirroring, pairs[k].0, pairs[k].1).1
    ensures forall c :: c in children ==> RuleSet(c) <= AllRules(cs)
  {
    forall c | c in children ensures RuleSet(c) <= AllRules(cs) {
      var i :| 0 <= i < |children| && children[i] == c;
      var k := i / 2;
      assert i == 2 * k || i == 2 * k + 1;
      ChildRulesFromParents(mating, mirroring, pairs[k].0, pairs[k].1);
      ParentRulesInAll(cs, pairs[k].0);
      ParentRulesInAll(cs, pairs[k].1);
    }
  }

  lemma ParentRulesInAll(cs: seq<CandidateFitness>, a: CandidateFitness)
    requires a in cs
    ensures RuleSet(a.candidate) <= AllRules(cs)
  {
    var k :| 0 <= k < |cs| && cs[k] == a;
    forall r | r in RuleSet(a.candidate) ensures r in AllRules(cs) {
      assert r in cs[k].candidate.rules;
    }
  }
}
