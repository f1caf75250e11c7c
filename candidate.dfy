/** A candidate: a set of rules plus its bookkeeping (candidate.rs). */
module Candidates {
  import opened Common
  import opened Rules
  import opened PopGenSpecs
  import Random

  /** `rules` is the candidate's `HashSet` in its iteration order, so it never
      holds a rule twice (see `Valid`). */
  datatype Candidate = Candidate(rules: seq<Rule>, mutationCount: nat, birthGenerationId: Option<nat>)

  predicate Valid(c: Candidate) {
    NoDuplicates(c.rules)
  }

  function RuleSet(c: Candidate): set<Rule> {
    Elements(c.rules)
  }

  /** `PartialEq for Candidate`: two candidates are equal when they hold the
      same rules, whatever their iteration order and bookkeeping. */
  predicate Equal(a: Candidate, b: Candidate) {
    RuleSet(a) == RuleSet(b)
  }

  /** Equality ignores the mutation count and the birth generation. */
  lemma EqualIgnoresBookkeeping(c: Candidate, count: nat, birth: Option<nat>)
    ensures Equal(c, c.(mutationCount := count, birthGenerationId := birth))
    ensures Equal(c, Candidate(c.rules, count, birth))
  {
  }

  /** Equality is an equivalence: reflexive, symmetric and transitive. */
  lemma EqualIsEquivalence(a: Candidate, b: Candidate, c: Candidate)
    ensures Equal(a, a)
    ensures Equal(a, b) ==> Equal(b, a)
    ensures Equal(a, b) && Equal(b, c) ==> Equal(a, c)
  {
  }

  /** Equal valid candidates hold the same number of rules, and are
      permutations of each other. */
  lemma EqualSameSize(a: Candidate, b: Candidate)
    requires Valid(a) && Valid(b) && Equal(a, b)
    ensures |a.rules| == |b.rules|
    ensures multiset(a.rules) == multiset(b.rules)
  {
    EnumerationLength(a.rules, RuleSet(a));
    EnumerationLength(b.rules, RuleSet(b));
    SameElementsSameMultiset(a.rules, b.rules);
  }

  /** `Candidate::from_rules`: copies the rule set; the copy has never been
      mutated and has no birth generation. */
  function FromRules(rules: seq<Rule>): (c: Candidate)
    requires NoDuplicates(rules)
    ensures Valid(c)
    ensures forall r :: r in c.rules <==> r in rules
    ensures c.mutationCount == 0 && c.birthGenerationId == None
  {
    Candidate(rules, 0, None)
  }

  /** A candidate rebuilt from its own rules equals it. */
  lemma FromRulesEqual(c: Candidate)
    requires Valid(c)
    ensures Equal(FromRules(c.rules), c)
  {
  }

  /** `Candidate::from_rules(&collected)`: a new candidate over a freshly
      built rule set, in whatever order that set iterates. */
  method FromRuleSet(rules: set<Rule>) returns (c: Candidate)
    ensures Valid(c) && RuleSet(c) == rules
    ensures c.mutationCount == 0 && c.birthGenerationId == None
  {
    var order := Enumerate(rules);
    c := FromRules(order);
  }

  /** `Candidate::set_mutation_count`: only the count changes. */
  function SetMutationCount(c: Candidate, count: nat): (d: Candidate)
    ensures d.mutationCount == count
    ensures d.rules == c.rules && d.birthGenerationId == c.birthGenerationId
    ensures Equal(d, c)
  {
    c.(mutationCount := count)
  }

  /** `Candidate::increment_mutation_count`: the count grows by exactly one. */
  function IncrementMutationCount(c: Candidate): (d: Candidate)
    ensures d.mutationCount == c.mutationCount + 1
    ensures d.rules == c.rules && d.birthGenerationId == c.birthGenerationId
    ensures Equal(d, c)
  {
    c.(mutationCount := c.mutationCount + 1)
  }

  /** `Candidate::set_birth_generation_id`: records the birth generation. */
  function SetBirthGenerationId(c: Candidate, generation: nat): (d: Candidate)
    ensures d.birthGenerationId == Some(generation)
    ensures d.rules == c.rules && d.mutationCount == c.mutationCount
    ensures Equal(d, c)
  {
    c.(birthGenerationId := Some(generation))
  }

  /** `Candidate::age`: the signed distance from the birth generation to the
      current one; nothing when the birth generation is unset. */
  function Age(c: Candidate, currentGeneration: nat): (age: Option<int>)
    ensures age.Some? <==> c.birthGenerationId.Some?
    ensures age.Some? ==> c.birthGenerationId.value + age.value == currentGeneration
  {
    match c.birthGenerationId
    case None => None
    case Some(birth) => Some(currentGeneration as int - birth as int)
  }

  /** A candidate born in generation `g` is `current - g` generations old, and
      the age is negative when the current generation is earlier. */
  lemma AgeAfterBirth(c: Candidate, g: nat, current: nat)
    ensures Age(SetBirthGenerationId(c, g), current) == Some(current - g)
    ensures current < g ==> Age(SetBirthGenerationId(c, g), current).value < 0
  {
  }

  // ---------------------------------------------------------------------
  // Fitness

  /** A training example: its input string and its expected output symbol. */
  datatype Example = Example(input: string, output: char)

  datatype FitnessCalculationError = EvaluationFailed(cause: RuleEvaluationError)

  /** The output a rule reports: "1" when it evaluates true, "0" otherwise. */
  function Output(b: bool): char {
    if b then '1' else '0'
  }

  /** One iteration order for each rule's constraint map. */
  predicate OrdersFor(rules: seq<Rule>, orders: seq<seq<nat>>) {
    |orders| == |rules| && forall i :: 0 <= i < |rules| ==> KeyOrder(rules[i], orders[i])
  }

  /** The inner loop of `calculate_fitness` from rule `j` on: an evaluation
      error propagates, the first rule whose output equals the label counts
      the example, and running out of rules does not. */
  function ClassifyFrom(rules: seq<Rule>, orders: seq<seq<nat>>, j: nat, ex: Example): Result<bool, FitnessCalculationError>
    requires OrdersFor(rules, orders) && j <= |rules|
    decreases |rules| - j
  {
    if j == |rules| then Ok(false)
    else
      match Evaluate(rules[j], orders[j], ex.input)
      case Err(e) => Err(EvaluationFailed(e))
      case Ok(v) => if Output(v) == ex.output then Ok(true) else ClassifyFrom(rules, orders, j + 1, ex)
  }

  function Classify(rules: seq<Rule>, orders: seq<seq<nat>>, ex: Example): Result<bool, FitnessCalculationError>
    requires OrdersFor(rules, orders)
  {
    ClassifyFrom(rules, orders, 0, ex)
  }

  /** The fitness of a rule set over a sequence of examples: the number of
      examples counted, or the first evaluation error. It never exceeds the
      number of examples, since each adds at most one. */
  function FitnessOf(rules: seq<Rule>, orders: seq<seq<nat>>, examples: seq<Example>): (res: Result<nat, FitnessCalculationError>)
    requires OrdersFor(rules, orders)
    ensures res.Ok? ==> res.value <= |examples|
  {
    if examples == [] then Ok(0)
    else
      match FitnessOf(rules, orders, examples[..|examples| - 1])
      case Err(e) => Err(e)
      case Ok(f) =>
        match Classify(rules, orders, examples[|examples| - 1])
        case Err(e) => Err(e)
        case Ok(counted) => Ok(f + if counted then 1 else 0)
  }

  /** `Candidate::calculate_fitness`: for each example, tries the rules in
      iteration order and counts the example at the first rule whose output
      equals its label. */
  method CalculateFitness(c: Candidate, orders: seq<seq<nat>>, examples: seq<Example>)
    returns (res: Result<nat, FitnessCalculationError>)
    requires OrdersFor(c.rules, orders)
    ensures res == FitnessOf(c.rules, orders, examples)
  {
    var fitness := 0;
    var i := 0;
    while i < |examples|
      invariant 0 <= i <= |examples|
      invariant FitnessOf(c.rules, orders, examples[..i]) == Ok(fitness)
    {
      var ex := examples[i];
      ghost var counted := false;
      var j := 0;
      while j < |c.rules|
        invariant 0 <= j <= |c.rules|
        invariant Classify(c.rules, orders, ex) == ClassifyFrom(c.rules, orders, j, ex)
      {
        var evaluated := Evaluate(c.rules[j], orders[j], ex.input);
        if evaluated.Err? {
          assert examples[..i + 1][..i] == examples[..i];
          FitnessErrorPersists(c.rules, orders, examples, i + 1);
          ghost var whole := FitnessOf(c.rules, orders, examples);
          assert whole == Err(EvaluationFailed(IndexOutOfRange)) by {
            assert whole.error.cause.IndexOutOfRange?;
          }
          assert evaluated.error == IndexOutOfRange by {
            assert evaluated.error.IndexOutOfRange?;
          }
          return Err(EvaluationFailed(evaluated.error));
        }
        if Output(evaluated.value) == ex.output {
          fitness := fitness + 1;
          counted := true;
          break;
        }
        j := j + 1;
      }
      assert Classify(c.rules, orders, ex) == Ok(counted);
      assert examples[..i + 1][..i] == examples[..i];
      i := i + 1;
    }
    assert examples[..i] == examples;
    res := Ok(fitness);
  }

  /** Once a prefix of the examples fails, the whole sequence fails. */
  lemma {:induction false} FitnessErrorPersists(rules: seq<Rule>, orders: seq<seq<nat>>, examples: seq<Example>, n: nat)
    requires OrdersFor(rules, orders) && n <= |examples|
    requires FitnessOf(rules, orders, examples[..n]).Err?
    ensures FitnessOf(rules, orders, examples).Err?
    decreases |examples| - n
  {
    if n < |examples| {
      assert examples[..n + 1][..n] == examples[..n];
      FitnessErrorPersists(rules, orders, examples, n + 1);
    } else {
      assert examples[..n] == examples;
    }
  }

  /** Fitness is an error exactly when the rule loop of some example reaches
      an evaluation error before a rule that counts the example. */
  lemma {:induction false} FitnessErrorIff(rules: seq<Rule>, orders: seq<seq<nat>>, examples: seq<Example>)
    requires OrdersFor(rules, orders)
    ensures FitnessOf(rules, orders, examples).Err? <==>
              exists i :: 0 <= i < |examples| && Classify(rules, orders, examples[i]).Err?
  {
    if examples != [] {
      var init := examples[..|examples| - 1];
      var last := examples[|examples| - 1];
      FitnessErrorIff(rules, orders, init);
      assert FitnessOf(rules, orders, examples).Err? <==>
               FitnessOf(rules, orders, init).Err? || Classify(rules, orders, last).Err?;
      if exists i :: 0 <= i < |examples| && Classify(rules, orders, examples[i]).Err? {
        var i :| 0 <= i < |examples| && Classify(rules, orders, examples[i]).Err?;
        if i < |init| {
          assert init[i] == examples[i];
        }
      }
      if exists i :: 0 <= i < |init| && Classify(rules, orders, init[i]).Err? {
        var i :| 0 <= i < |init| && Classify(rules, orders, init[i]).Err?;
        assert examples[i] == init[i];
      }
    }
  }

  /** What a rule says about an example when every constrained position is
      inside the input: its output agrees with the label. */
  predicate Agrees(r: Rule, ex: Example) {
    Output(Matches(r, ex.input)) == ex.output
  }

  /** Some rule of the set agrees with the example. */
  predicate Covered(rules: set<Rule>, ex: Example) {
    exists r :: r in rules && Agrees(r, ex)
  }

  /** The number of examples some rule of the set agrees with. */
  function CountCovered(rules: set<Rule>, examples: seq<Example>): nat {
    if examples == [] then 0
    else CountCovered(rules, examples[..|examples| - 1]) + if Covered(rules, examples[|examples| - 1]) then 1 else 0
  }

  /** When no rule reaches past the end of the example, the rule loop counts
      the example exactly when some rule agrees with it, in any order. A
      "0"-labelled example is therefore counted as soon as any rule fails to
      match it. */
  lemma {:induction false} ClassifyInRange(rules: seq<Rule>, orders: seq<seq<nat>>, j: nat, ex: Example)
    requires OrdersFor(rules, orders) && j <= |rules|
    requires forall r :: r in rules ==> InRange(r, |ex.input|)
    ensures ClassifyFrom(rules, orders, j, ex) == Ok(exists i :: j <= i < |rules| && Agrees(rules[i], ex))
    decreases |rules| - j
  {
    if j < |rules| {
      assert rules[j] in rules;
      ClassifyInRange(rules, orders, j + 1, ex);
      if !Agrees(rules[j], ex) {
        assert (exists i :: j <= i < |rules| && Agrees(rules[i], ex)) <==>
               (exists i :: j + 1 <= i < |rules| && Agrees(rules[i], ex));
      }
    }
  }

  /** When no rule reaches past the end of any example, the fitness is the
      number of examples some rule agrees with. It depends on the rule set
      only, not on any iteration order. */
  lemma {:induction false} FitnessInRange(rules: seq<Rule>, orders: seq<seq<nat>>, examples: seq<Example>)
    requires OrdersFor(rules, orders)
    requires forall r, e :: r in rules && e in examples ==> InRange(r, |e.input|)
    ensures FitnessOf(rules, orders, examples) == Ok(CountCovered(Elements(rules), examples))
  {
    if examples != [] {
      var init := examples[..|examples| - 1];
      var last := examples[|examples| - 1];
      assert forall e :: e in init ==> e in examples;
      FitnessInRange(rules, orders, init);
      assert last in examples;
      ClassifyInRange(rules, orders, 0, last);
      assert (exists i :: 0 <= i < |rules| && Agrees(rules[i], last)) <==> Covered(Elements(rules), last) by {
        if Covered(Elements(rules), last) {
          var r :| r in Elements(rules) && Agrees(r, last);
          var i :| 0 <= i < |rules| && rules[i] == r;
        }
      }
    }
  }

  /** Equal candidates whose rules stay inside every example have the same
      fitness, whatever iteration orders they use. */
  lemma EqualCandidatesEqualFitness(a: Candidate, b: Candidate, ordersA: seq<seq<nat>>, ordersB: seq<seq<nat>>, examples: seq<Example>)
    requires Equal(a, b)
    requires OrdersFor(a.rules, ordersA) && OrdersFor(b.rules, ordersB)
    requires forall r, e :: r in a.rules && e in examples ==> InRange(r, |e.input|)
    ensures FitnessOf(a.rules, ordersA, examples) == FitnessOf(b.rules, ordersB, examples)
  {
    FitnessInRange(a.rules, ordersA, examples);
    assert forall r :: r in b.rules ==> r in a.rules by {
      forall r | r in b.rules ensures r in a.rules {
        assert r in RuleSet(b);
      }
    }
    FitnessInRange(b.rules, ordersB, examples);
  }

  /** A candidate without rules counts no example. */
  lemma {:induction false} EmptyRuleSetFitness(orders: seq<seq<nat>>, examples: seq<Example>)
    requires OrdersFor([], orders)
    ensures FitnessOf([], orders, examples) == Ok(0)
  {
    if examples != [] {
      EmptyRuleSetFitness(orders, examples[..|examples| - 1]);
    }
  }

  // ---------------------------------------------------------------------
  // Generation

  /** The rules of a generated candidate meet the spec: each constrains
      positions below `maxIndex` to alphabet symbols, fewer than
      `maxRuleConstraints` of them. */
  predicate RulesWithinSpec(spec: PopGenSpec, rules: set<Rule>) {
    forall r :: r in rules ==> WithinSpec(r, spec.maxIndex, spec.alphabet) && |r.constraints| < spec.maxRuleConstraints
  }

  /** The loop of `Candidate::generate` from position `pos` of the tape,
      with the rules gathered so far and `fails` consecutive failures: a
      generated rule the set already holds counts a failure and the loop
      gives up once the failures reach the cap; a new rule resets the count.
      Yields the rules, the position after the last draw and the final
      failure count. */
  function FillRules(spec: PopGenSpec, rng: Random.Tape, pos: nat, target: nat, rules: set<Rule>, fails: nat)
    : (r: (set<Rule>, nat, nat))
    requires CanGenerateCandidates(spec)
    requires fails <= spec.maxRuleGenerationConsecutiveFail
    ensures |rules| <= target ==> |r.0| <= target
    ensures rules <= r.0
    ensures RulesWithinSpec(spec, rules) ==> RulesWithinSpec(spec, r.0)
    ensures |r.0| < target ==> r.2 >= spec.maxRuleGenerationConsecutiveFail && r.2 > 0
    ensures target > 0 ==> |r.0| > 0
    ensures r.1 >= pos
    decreases target - |rules|, spec.maxRuleGenerationConsecutiveFail - fails
  {
    if |rules| >= target then (rules, pos, fails)
    else
      var (rule, after) := Rules.Generated(spec, rng, pos);
      if rule in rules then
        if fails + 1 >= spec.maxRuleGenerationConsecutiveFail then (rules, after, fails + 1)
        else FillRules(spec, rng, after, target, rules, fails + 1)
      else
        FillRules(spec, rng, after, target, rules + {rule}, 0)
  }

  /** One iteration of the loop of `Candidate::generate`. */
  lemma FillRulesStep(spec: PopGenSpec, rng: Random.Tape, pos: nat, target: nat, rules: set<Rule>, fails: nat)
    requires CanGenerateCandidates(spec)
    requires fails <= spec.maxRuleGenerationConsecutiveFail && |rules| < target
    ensures var (rule, after) := Rules.Generated(spec, rng, pos);
            FillRules(spec, rng, pos, target, rules, fails) ==
              if rule in rules then
                if fails + 1 >= spec.maxRuleGenerationConsecutiveFail then (rules, after, fails + 1)
                else FillRules(spec, rng, after, target, rules, fails + 1)
              else FillRules(spec, rng, after, target, rules + {rule}, 0)
  {
  }

  /** The rule set `Candidate::generate` builds from position `pos` of the
      tape, and the position after its last draw. */
  function GeneratedRules(spec: PopGenSpec, rng: Random.Tape, pos: nat): (r: (set<Rule>, nat))
    requires CanGenerateCandidates(spec)
    ensures spec.minRules > 0 ==> |r.0| > 0
    ensures |r.0| < spec.maxRules
    ensures RulesWithinSpec(spec, r.0)
    ensures r.1 > pos
  {
    var target := Random.GenRange(rng, pos, spec.minRules, spec.maxRules);
    var f := FillRules(spec, rng, pos + 1, target, {}, 0);
    (f.0, f.1)
  }

  /** The loop of `Candidate::generate`, run as `FillRules` says. */
  method DrawRules(spec: PopGenSpec, rng: Random.Tape, pos: nat, target: nat)
    returns (rules: set<Rule>, next: nat, fails: nat)
    requires CanGenerateCandidates(spec)
    ensures (rules, next, fails) == FillRules(spec, rng, pos, target, {}, 0)
  {
    next := pos;
    rules := {};
    fails := 0;
    while |rules| < target
      invariant fails <= spec.maxRuleGenerationConsecutiveFail
      invariant FillRules(spec, rng, pos, target, {}, 0) == FillRules(spec, rng, next, target, rules, fails)
      decreases target - |rules|, spec.maxRuleGenerationConsecutiveFail - fails
    {
      var rule: Rule;
      ghost var ruleTarget: nat, ruleFails: nat;
      ghost var at := next;
      rule, next, ruleTarget, ruleFails := Rules.Generate(spec, rng, next);
      FillRulesStep(spec, rng, at, target, rules, fails);
      if rule in rules {
        fails := fails + 1;
        if fails >= spec.maxRuleGenerationConsecutiveFail {
          break;
        }
      } else {
        fails := 0;
        rules := rules + {rule};
      }
    }
  }

  /** `Candidate::generate`: draws a target number of rules in
      `[minRules, maxRules)` and runs the loop `FillRules`. The new
      candidate has never been mutated and has no birth generation. */
  method Generate(spec: PopGenSpec, rng: Random.Tape, pos: nat)
    returns (c: Candidate, next: nat, ghost target: nat, ghost consecutiveFails: nat)
    requires CanGenerateCandidates(spec)
    ensures Valid(c)
    ensures target == Random.GenRange(rng, pos, spec.minRules, spec.maxRules)
    ensures (RuleSet(c), next) == GeneratedRules(spec, rng, pos)
    ensures consecutiveFails == FillRules(spec, rng, pos + 1, target, {}, 0).2
    ensures spec.minRules <= target < spec.maxRules
    ensures |c.rules| <= target
    ensures target > 0 ==> |c.rules| > 0
    ensures |c.rules| < target ==>
              consecutiveFails >= spec.maxRuleGenerationConsecutiveFail && consecutiveFails > 0
    ensures forall r :: r in c.rules ==>
              WithinSpec(r, spec.maxIndex, spec.alphabet) && |r.constraints| < spec.maxRuleConstraints
    ensures c.mutationCount == 0 && c.birthGenerationId == None
    ensures next > pos
  {
    var numberOfRules := Random.GenRange(rng, pos, spec.minRules, spec.maxRules);
    var rules, fails;
    rules, next, fails := DrawRules(spec, rng, pos + 1, numberOfRules);
    var order := Enumerate(rules);
    EnumerationLength(order, rules);
    target, consecutiveFails := numberOfRules, fails;
    c := Candidate(order, 0, None);
    assert RuleSet(c) == rules;
  }

  // ---------------------------------------------------------------------
  // Hashing

  /** `String`'s ordering: lexicographic on the characters, a prefix first. */
  predicate StringLe(a: string, b: string) {
    if a == [] then true
    else if b == [] then false
    else if a[0] != b[0] then a[0] < b[0]
    else StringLe(a[1..], b[1..])
  }

  lemma {:induction false} StringLeTotal(a: string, b: string)
    ensures StringLe(a, b) || StringLe(b, a)
  {
    if a != [] && b != [] && a[0] == b[0] {
      StringLeTotal(a[1..], b[1..]);
    }
  }

  lemma {:induction false} StringLeAntisymmetric(a: string, b: string)
    requires StringLe(a, b) && StringLe(b, a)
    ensures a == b
  {
    if a != [] && b != [] {
      StringLeAntisymmetric(a[1..], b[1..]);
      assert a == [a[0]] + a[1..] && b == [b[0]] + b[1..];
    }
  }

  lemma {:induction false} StringLeTransitive(a: string, b: string, c: string)
    requires StringLe(a, b) && StringLe(b, c)
    ensures StringLe(a, c)
  {
    if a != [] && b != [] && c != [] && a[0] == b[0] && b[0] == c[0] {
      StringLeTransitive(a[1..], b[1..], c[1..]);
    }
  }

  /** The key `Hash for Candidate` sorts its rules by: the number of
      constraints, then the canonical form. */
  function SortKey(r: Rule): (nat, string) {
    (Len(r), Canonical(r))
  }

  predicate KeyLe(x: (nat, string), y: (nat, string)) {
    x.0 < y.0 || (x.0 == y.0 && StringLe(x.1, y.1))
  }

  /** The key order is a total order. */
  lemma KeyLeTotalOrder(x: (nat, string), y: (nat, string), z: (nat, string))
    ensures KeyLe(x, y) || KeyLe(y, x)
    ensures KeyLe(x, y) && KeyLe(y, x) ==> x == y
    ensures KeyLe(x, y) && KeyLe(y, z) ==> KeyLe(x, z)
  {
    StringLeTotal(x.1, y.1);
    if KeyLe(x, y) && KeyLe(y, x) {
      StringLeAntisymmetric(x.1, y.1);
    }
    if KeyLe(x, y) && KeyLe(y, z) && x.0 == y.0 == z.0 {
      StringLeTransitive(x.1, y.1, z.1);
    }
  }

  predicate SortedKeys(s: seq<(nat, string)>) {
    forall i, j :: 0 <= i < j < |s| ==> KeyLe(s[i], s[j])
  }

  function KeysOf(rules: seq<Rule>): (keys: seq<(nat, string)>)
    ensures |keys| == |rules|
  {
    seq(|rules|, i requires 0 <= i < |rules| => SortKey(rules[i]))
  }

  lemma KeysOfAppend(a: seq<Rule>, b: seq<Rule>)
    ensures KeysOf(a + b) == KeysOf(a) + KeysOf(b)
  {
  }

  /** Rearranging the rules rearranges their keys the same way. */
  lemma {:induction false} KeysOfPermutation(s: seq<Rule>, t: seq<Rule>)
    requires multiset(s) == multiset(t)
    ensures multiset(KeysOf(s)) == multiset(KeysOf(t))
    decreases |s|
  {
    if s != [] {
      var x := s[0];
      assert x in multiset(t) by {
        assert x in multiset(s);
      }
      var j :| 0 <= j < |t| && t[j] == x;
      var rest := t[..j] + t[j + 1..];
      assert t == t[..j] + [x] + t[j + 1..];
      assert s == [x] + s[1..];
      assert multiset(s) == multiset{x} + multiset(s[1..]);
      assert multiset(t) == multiset(t[..j]) + multiset{x} + multiset(t[j + 1..]);
      assert multiset(rest) == multiset(t[..j]) + multiset(t[j + 1..]);
      assert multiset(s[1..]) == multiset(s) - multiset{x};
      assert multiset(rest) == multiset(t) - multiset{x};
      KeysOfPermutation(s[1..], rest);
      KeysOfAppend([x], s[1..]);
      KeysOfAppend(t[..j] + [x], t[j + 1..]);
      KeysOfAppend(t[..j], [x]);
      KeysOfAppend(t[..j], t[j + 1..]);
    }
  }

  /** A key no greater than every key of a sorted sequence can go in front. */
  lemma SortedCons(a: (nat, string), t: seq<(nat, string)>)
    requires SortedKeys(t)
    requires forall y :: y in t ==> KeyLe(a, y)
    ensures SortedKeys([a] + t)
  {
    var r := [a] + t;
    forall i, j | 0 <= i < j < |r| ensures KeyLe(r[i], r[j]) {
      assert r[j] == t[j - 1];
      if i > 0 {
        assert r[i] == t[i - 1];
      } else {
        assert t[j - 1] in t;
      }
    }
  }

  /** Inserts a key into a sorted key sequence. */
  function InsertKey(k: (nat, string), s: seq<(nat, string)>): (res: seq<(nat, string)>)
    requires SortedKeys(s)
    ensures SortedKeys(res)
    ensures multiset(res) == multiset(s) + multiset{k}
  {
    if s == [] || KeyLe(k, s[0]) then
      assert forall y :: y in s ==> KeyLe(k, y) by {
        forall y | y in s ensures KeyLe(k, y) {
          var j :| 0 <= j < |s| && s[j] == y;
          KeyLeTotalOrder(k, s[0], s[j]);
        }
      }
      SortedCons(k, s);
      [k] + s
    else
      var tail := InsertKey(k, s[1..]);
      assert s == [s[0]] + s[1..];
      assert forall y :: y in tail ==> KeyLe(s[0], y) by {
        KeyLeTotalOrder(k, s[0], s[0]);
        forall y | y in tail ensures KeyLe(s[0], y) {
          assert y in multiset(tail);
          if y != k {
            assert y in multiset(s[1..]);
            var j :| 0 <= j < |s[1..]| && s[1..][j] == y;
            assert s[j + 1] == y;
          }
        }
      }
      SortedCons(s[0], tail);
      [s[0]] + tail
  }

  /** `sort_by_key` on the keys: sorted, and a permutation of its input. */
  function SortKeys(s: seq<(nat, string)>): (res: seq<(nat, string)>)
    ensures SortedKeys(res)
    ensures multiset(res) == multiset(s)
  {
    if s == [] then []
    else
      assert s == s[..|s| - 1] + [s[|s| - 1]];
      InsertKey(s[|s| - 1], SortKeys(s[..|s| - 1]))
  }

  /** Sorted permutations of each other start with the same key. */
  lemma SortedHeadsEqual(s: seq<(nat, string)>, t: seq<(nat, string)>)
    requires SortedKeys(s) && SortedKeys(t)
    requires multiset(s) == multiset(t) && s != []
    ensures t != [] && s[0] == t[0]
  {
    assert s[0] in multiset(s);
    assert t != [];
    assert t[0] in multiset(t);
    var j :| 0 <= j < |t| && t[j] == s[0];
    var k :| 0 <= k < |s| && s[k] == t[0];
    if j != 0 && k != 0 {
      KeyLeTotalOrder(s[0], t[0], s[0]);
    }
  }

  /** Two sorted key sequences that are permutations of each other are the
      same sequence. */
  lemma {:induction false} SortedUnique(s: seq<(nat, string)>, t: seq<(nat, string)>)
    requires SortedKeys(s) && SortedKeys(t)
    requires multiset(s) == multiset(t)
    ensures s == t
    decreases |s|
  {
    if s == [] {
      assert |t| == |multiset(t)| == 0;
    } else {
      SortedHeadsEqual(s, t);
      assert s == [s[0]] + s[1..] && t == [t[0]] + t[1..];
      assert multiset(s[1..]) == multiset(s) - multiset{s[0]};
      assert multiset(t[1..]) == multiset(t) - multiset{t[0]};
      SortedUnique(s[1..], t[1..]);
    }
  }

  /** `Hash for Candidate` hashes its rules' canonical forms, ordered by
      `SortKey`: what the hasher is fed. */
  function HashInput(c: Candidate): (h: seq<string>)
    ensures |h| == |c.rules|
  {
    var sorted := SortKeys(KeysOf(c.rules));
    assert |sorted| == |multiset(sorted)| == |KeysOf(c.rules)|;
    seq(|sorted|, i requires 0 <= i < |sorted| => sorted[i].1)
  }

  /** Equal candidates feed the hasher the same input, so they hash alike:
      the hash agrees with `Equal` whatever the rules' iteration orders. */
  lemma EqualCandidatesHashAlike(a: Candidate, b: Candidate)
    requires Valid(a) && Valid(b) && Equal(a, b)
    ensures HashInput(a) == HashInput(b)
  {
    EqualSameSize(a, b);
    KeysOfPermutation(a.rules, b.rules);
    SortedUnique(SortKeys(KeysOf(a.rules)), SortKeys(KeysOf(b.rules)));
  }
}
