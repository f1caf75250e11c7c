/** A population: a set of candidates plus a generation counter
    (population.rs). */
module Populations {
  import opened Common
  import opened Candidates
  import opened PopGenSpecs
  import Rules
  import Random

  /** The candidates of a `HashSet<Candidate>` in iteration order: each has
      duplicate-free rules and no two are equal. */
  predicate Distinct(cs: seq<Candidate>) {
    && (forall i :: 0 <= i < |cs| ==> Candidates.Valid(cs[i]))
    && (forall i, j :: 0 <= i < j < |cs| ==> !Equal(cs[i], cs[j]))
  }

  /** Some member equals `c`: what `HashSet::contains` answers. */
  predicate Member(cs: seq<Candidate>, c: Candidate) {
    exists i :: 0 <= i < |cs| && Equal(cs[i], c)
  }

  /** The rule sets of the candidates: the population up to equality. */
  function RuleSets(cs: seq<Candidate>): set<set<Rules.Rule>> {
    set i | 0 <= i < |cs| :: RuleSet(cs[i])
  }

  lemma MemberIffRuleSet(cs: seq<Candidate>, c: Candidate)
    ensures Member(cs, c) <==> RuleSet(c) in RuleSets(cs)
  {
    if RuleSet(c) in RuleSets(cs) {
      var i :| 0 <= i < |cs| && RuleSet(cs[i]) == RuleSet(c);
      assert Equal(cs[i], c);
    }
  }

  /** The rule sets of a list grow by the rule set of an appended
      candidate. */
  lemma RuleSetsSnoc(init: seq<Candidate>, last: Candidate)
    ensures RuleSets(init + [last]) == RuleSets(init) + {RuleSet(last)}
  {
    var cs := init + [last];
    forall s | s in RuleSets(cs) ensures s in RuleSets(init) + {RuleSet(last)} {
      var i :| 0 <= i < |cs| && RuleSet(cs[i]) == s;
      if i < |init| {
        assert init[i] == cs[i];
      }
    }
    forall s | s in RuleSets(init) ensures s in RuleSets(cs) {
      var i :| 0 <= i < |init| && RuleSet(init[i]) == s;
      assert cs[i] == init[i];
    }
    assert cs[|init|] == last;
  }

  /** Pairwise unequal candidates have pairwise different rule sets, so there
      are as many rule sets as candidates. */
  lemma {:induction false} DistinctCardinality(cs: seq<Candidate>)
    requires Distinct(cs)
    ensures |RuleSets(cs)| == |cs|
  {
    if cs != [] {
      var init := cs[..|cs| - 1];
      var last := cs[|cs| - 1];
      assert Distinct(init);
      DistinctCardinality(init);
      assert cs == init + [last];
      RuleSetsSnoc(init, last);
      assert RuleSet(last) !in RuleSets(init) by {
        forall i | 0 <= i < |init| ensures RuleSet(init[i]) != RuleSet(last) {
          assert !Equal(cs[i], cs[|cs| - 1]);
        }
      }
    }
  }

  class Population {
    var generation: nat
    var candidates: seq<Candidate>

    ghost predicate Valid()
      reads this
    {
      Distinct(candidates)
    }

    constructor (generation: nat, candidates: seq<Candidate>)
      requires Distinct(candidates)
      ensures Valid()
      ensures this.generation == generation && this.candidates == candidates
    {
      this.generation := generation;
      this.candidates := candidates;
    }

    /** `Population::len`: the number of distinct candidates. */
    function Len(): (n: nat)
      reads this
      requires Valid()
      ensures n == |RuleSets(candidates)|
    {
      DistinctCardinality(candidates);
      |candidates|
    }

    /** `HashSet::contains`: some member equals `c`. */
    method Contains(c: Candidate) returns (found: bool)
      ensures found <==> Member(candidates, c)
    {
      found := false;
      var i := 0;
      while i < |candidates|
        invariant 0 <= i <= |candidates|
        invariant forall j :: 0 <= j < i ==> !Equal(candidates[j], c)
      {
        if Equal(candidates[i], c) {
          return true;
        }
        i := i + 1;
      }
    }

    /** `Population::insert`: adds `c` unless an equal candidate is already a
        member, in which case the population is left as it was and the answer
        is false. */
    method Insert(c: Candidate) returns (inserted: bool)
      requires Valid() && Candidates.Valid(c)
      modifies this
      ensures Valid()
      ensures inserted <==> !Member(old(candidates), c)
      ensures inserted ==> candidates == old(candidates) + [c]
      ensures !inserted ==> candidates == old(candidates)
      ensures RuleSets(candidates) == RuleSets(old(candidates)) + {RuleSet(c)}
      ensures generation == old(generation)
    {
      var present := Contains(c);
      MemberIffRuleSet(candidates, c);
      if present {
        inserted := false;
      } else {
        inserted := true;
        candidates := candidates + [c];
        assert RuleSets(candidates) == RuleSets(old(candidates)) + {RuleSet(c)} by {
          forall s | s in RuleSets(candidates) ensures s in RuleSets(old(candidates)) + {RuleSet(c)} {
            var i :| 0 <= i < |candidates| && RuleSet(candidates[i]) == s;
            if i < |old(candidates)| {
              assert candidates[i] == old(candidates)[i];
            }
          }
          assert candidates[|candidates| - 1] == c;
          forall s | s in RuleSets(old(candidates)) ensures s in RuleSets(candidates) {
            var i :| 0 <= i < |old(candidates)| && RuleSet(old(candidates)[i]) == s;
            assert candidates[i] == old(candidates)[i];
          }
        }
      }
    }

    /** `HashSet::remove`: takes out the member equal to `c`, if any; the
        others keep their order. */
    method Remove(c: Candidate) returns (removed: bool)
      requires Valid()
      modifies this
      ensures Valid()
      ensures removed <==> Member(old(candidates), c)
      ensures RuleSets(candidates) == RuleSets(old(candidates)) - {RuleSet(c)}
      ensures forall x :: x in candidates <==> x in old(candidates) && !Equal(x, c)
      ensures |candidates| == if removed then |old(candidates)| - 1 else |old(candidates)|
      ensures generation == old(generation)
    {
      var i := 0;
      while i < |candidates| && !Equal(candidates[i], c)
        invariant 0 <= i <= |candidates|
        invariant forall j :: 0 <= j < i ==> !Equal(candidates[j], c)
      {
        i := i + 1;
      }
      removed := i < |candidates|;
      if removed {
        RemoveAt(candidates, i, c);
        candidates := candidates[..i] + candidates[i + 1..];
      } else {
        assert RuleSet(c) !in RuleSets(candidates);
      }
    }

    /** `Population::generate`: draws a target size in
        `[minCandidates, maxCandidates)` and runs the loop `FillPopulation`.
        The population starts at generation 1. */
    static method Generate(spec: PopGenSpec, rng: Random.Tape, pos: nat)
      returns (p: Population, next: nat, ghost target: nat, ghost consecutiveFails: nat)
      requires CanGeneratePopulation(spec)
      ensures fresh(p) && p.Valid()
      ensures p.generation == 1
      ensures target == Random.GenRange(rng, pos, spec.minCandidates, spec.maxCandidates)
      ensures (RuleSets(p.candidates), next, consecutiveFails) == FillPopulation(spec, rng, pos + 1, target, {}, 0)
      ensures spec.minCandidates <= target < spec.maxCandidates
      ensures |p.candidates| <= target
      ensures target > 0 ==> |p.candidates| > 0
      ensures |p.candidates| < target ==>
                consecutiveFails >= spec.maxCandidateGenerationConsecutiveFail && consecutiveFails > 0
      ensures forall c :: c in p.candidates ==> c.mutationCount == 0 && c.birthGenerationId == None
      ensures next > pos
    {
      var numberOfCandidates := Random.GenRange(rng, pos, spec.minCandidates, spec.maxCandidates);
      next := pos + 1;
      p := new Population(1, []);
      var fails := 0;
      while |p.candidates| < numberOfCandidates
        invariant fresh(p) && p.Valid() && p.generation == 1
        invariant |RuleSets(p.candidates)| == |p.candidates|
        invariant forall c :: c in p.candidates ==> c.mutationCount == 0 && c.birthGenerationId == None
        invariant fails <= spec.maxCandidateGenerationConsecutiveFail
        invariant FillPopulation(spec, rng, pos + 1, numberOfCandidates, {}, 0)
                  == FillPopulation(spec, rng, next, numberOfCandidates, RuleSets(p.candidates), fails)
        decreases numberOfCandidates - |p.candidates|, spec.maxCandidateGenerationConsecutiveFail - fails
      {
        var candidate: Candidate;
        ghost var ruleTarget: nat, ruleFails: nat;
        ghost var at := next;
        FillPopulationStep(spec, rng, at, numberOfCandidates, RuleSets(p.candidates), fails);
        candidate, next, ruleTarget, ruleFails := Candidates.Generate(spec, rng, next);
        MemberIffRuleSet(p.candidates, candidate);
        var inserted := p.Insert(candidate);
        DistinctCardinality(p.candidates);
        if !inserted {
          fails := fails + 1;
          if fails >= spec.maxCandidateGenerationConsecutiveFail {
            break;
          }
        } else {
          fails := 0;
        }
      }
      target, consecutiveFails := numberOfCandidates, fails;
    }
  }

  /** The loop of `Population::generate` from position `pos` of the tape,
      on the rule sets of the candidates gathered so far (a candidate is
      known to the set up to equality, that is by its rule set): a generated
      candidate equal to a member counts a consecutive failure and the loop
      gives up once the failures reach `maxCandidateGenerationConsecutiveFail`;
      a new one is inserted and resets the count. Yields the rule sets, the
      position after the last draw and the final failure count. */
  function FillPopulation(spec: PopGenSpec, rng: Random.Tape, pos: nat, target: nat, sets: set<set<Rules.Rule>>, fails: nat)
    : (r: (set<set<Rules.Rule>>, nat, nat))
    requires CanGeneratePopulation(spec)
    requires fails <= spec.maxCandidateGenerationConsecutiveFail
    ensures |sets| <= target ==> |r.0| <= target
    ensures sets <= r.0
    ensures |r.0| < target ==> r.2 >= spec.maxCandidateGenerationConsecutiveFail && r.2 > 0
    ensures target > 0 ==> |r.0| > 0
    ensures r.1 >= pos
    decreases target - |sets|, spec.maxCandidateGenerationConsecutiveFail - fails
  {
    if |sets| >= target then (sets, pos, fails)
    else
      var (rules, after) := GeneratedRules(spec, rng, pos);
      if rules in sets then
        if fails + 1 >= spec.maxCandidateGenerationConsecutiveFail then (sets, after, fails + 1)
        else FillPopulation(spec, rng, after, target, sets, fails + 1)
      else
        FillPopulation(spec, rng, after, target, sets + {rules}, 0)
  }

  /** One iteration of the loop of `Population::generate`. */
  lemma FillPopulationStep(spec: PopGenSpec, rng: Random.Tape, pos: nat, target: nat, sets: set<set<Rules.Rule>>, fails: nat)
    requires CanGeneratePopulation(spec)
    requires fails <= spec.maxCandidateGenerationConsecutiveFail && |sets| < target
    ensures var (rules, after) := GeneratedRules(spec, rng, pos);
            FillPopulation(spec, rng, pos, target, sets, fails) ==
              if rules in sets then
                if fails + 1 >= spec.maxCandidateGenerationConsecutiveFail then (sets, after, fails + 1)
                else FillPopulation(spec, rng, after, target, sets, fails + 1)
              else FillPopulation(spec, rng, after, target, sets + {rules}, 0)
  {
  }

  /** Position `j` of `cs` without its `i`-th element is position
      `j` or `j + 1` of `cs`. */
  lemma RestIndex(cs: seq<Candidate>, i: nat, rest: seq<Candidate>)
    requires i < |cs| && rest == cs[..i] + cs[i + 1..]
    ensures |rest| == |cs| - 1
    ensures forall j :: 0 <= j < i ==> rest[j] == cs[j]
    ensures forall j :: i <= j < |rest| ==> rest[j] == cs[j + 1]
  {
  }

  /** Taking out the one candidate equal to `c` keeps the others distinct and
      removes exactly its rule set. */
  lemma RemoveAt(cs: seq<Candidate>, i: nat, c: Candidate)
    requires Distinct(cs) && i < |cs| && Equal(cs[i], c)
    ensures Distinct(cs[..i] + cs[i + 1..])
    ensures RuleSets(cs[..i] + cs[i + 1..]) == RuleSets(cs) - {RuleSet(c)}
    ensures forall x :: x in cs[..i] + cs[i + 1..] <==> x in cs && !Equal(x, c)
  {
    RestIndex(cs, i, cs[..i] + cs[i + 1..]);
    RemoveAtRuleSets(cs, i, c);
    RemoveAtMembers(cs, i, c);
  }

  lemma RemoveAtRuleSets(cs: seq<Candidate>, i: nat, c: Candidate)
    requires Distinct(cs) && i < |cs| && Equal(cs[i], c)
    ensures RuleSets(cs[..i] + cs[i + 1..]) == RuleSets(cs) - {RuleSet(c)}
  {
    var rest := cs[..i] + cs[i + 1..];
    RestIndex(cs, i, rest);
    forall s | s in RuleSets(rest) ensures s in RuleSets(cs) - {RuleSet(c)} {
      var j :| 0 <= j < |rest| && RuleSet(rest[j]) == s;
      var k := if j < i then j else j + 1;
      assert rest[j] == cs[k] && k != i;
      if k < i {
        assert !Equal(cs[k], cs[i]);
      } else {
        assert !Equal(cs[i], cs[k]);
      }
    }
    forall s | s in RuleSets(cs) - {RuleSet(c)} ensures s in RuleSets(rest) {
      var k :| 0 <= k < |cs| && RuleSet(cs[k]) == s;
      assert k != i;
      var j := if k < i then k else k - 1;
      assert rest[j] == cs[k];
    }
  }

  lemma RemoveAtMembers(cs: seq<Candidate>, i: nat, c: Candidate)
    requires Distinct(cs) && i < |cs| && Equal(cs[i], c)
    ensures forall x :: x in cs[..i] + cs[i + 1..] <==> x in cs && !Equal(x, c)
  {
    var rest := cs[..i] + cs[i + 1..];
    RestIndex(cs, i, rest);
    forall x | x in cs && !Equal(x, c) ensures x in rest {
      var k :| 0 <= k < |cs| && cs[k] == x;
      assert k != i;
      var j := if k < i then k else k - 1;
      assert rest[j] == cs[k];
    }
    forall x | x in rest ensures x in cs && !Equal(x, c) {
      var j :| 0 <= j < |rest| && rest[j] == x;
      var k := if j < i then j else j + 1;
      assert rest[j] == cs[k] && k != i;
      if k < i {
        assert !Equal(cs[k], cs[i]);
      } else {
        assert !Equal(cs[i], cs[k]);
      }
    }
  }
}
