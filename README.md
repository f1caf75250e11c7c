# biocomputation: a verified model of the rule-set genetic algorithm

The program evolves a population of candidate classifiers. A candidate is a
set of rules. A rule is a map from input positions to required characters,
and a rule matches an input when every constrained position holds its
character. Each rule answers `1` for an input it matches and `0`
otherwise, and a candidate's fitness is the number of training examples
for which some rule's answer equals the example's label. So an example
labelled `1` counts when some rule matches it and one labelled `0` counts
when some rule does not: the rules are not combined into one answer. One generation runs selection
(tournament or roulette), crossover (a matchup strategy plus single-point
or multi-point mating) and mutation (constraint swap, constraint key
randomisation or constraint value randomisation). The training data is a
list of lines: either five or six binary digits, or six reals `0.dddddd`
of which the 36 fractional digits are kept.

This project models that core in Dafny:

| module | file | models |
|---|---|---|
| `Common` | common.dfy | `Option`/`Result`, and hash-container iteration order as an explicit enumeration |
| `Random` | random.dfy | the random generator as a tape of draws (`gen_range`, `gen_ratio`) |
| `PopGenSpecs` | popgenspec.dfy | the generation parameters |
| `GaSpecs` | gaspec.dfy | the run configuration with the three strategies |
| `Rules` | rule.dfy | `Rule`: evaluation, `len`, `to_string`, generation |
| `Candidates` | candidate.dfy | `Candidate`: equality, bookkeeping, fitness, generation, hashing |
| `Populations` | population.dfy | `Population` as a class over a duplicate-free candidate sequence |
| `Selection` | selection.dfy | tournament and roulette selection |
| `Crossover` | crossover.dfy | matchups, mating, `crossover` |
| `Mutation` | mutation.dfy | the three mutation variants and `mutate` |
| `DataItems` | dataitem.dfy | the data-item grammar and accessors |
| `DataSets` | dataset.dfy | `DataSet` as a class: `push`, `len`, `split_at_percentage` |

Modelling choices:

- **Randomness.** The generator is a tape `rng: nat -> nat`. Every
  operation that draws takes the position of its first draw and returns the
  position after its last draw. `gen_range(lo, hi)` is
  `lo + rng(i) % (hi - lo)`. Every in-range value is the outcome of some
  tape, so a property proved for all tapes holds for every run.
- **Iteration order.** A `HashMap` or `HashSet` iterates in an order the
  program does not control. A rule keeps its constraints as a
  `map<nat, char>`, and evaluation takes the key order as a parameter. A
  candidate keeps its rules as a duplicate-free sequence in iteration
  order. A set freshly built by `collect()` or `extend` gets its order from
  `Common.Enumerate`, whose only promise is that it lists each element once.
  Every contract holds for every such order.
- **Values and objects.** `Rule` and `Candidate` are Rust value types:
  they are cloned, hashed into sets and never aliased. They are datatypes
  here. `Population` and `DataSet` are updated in place, so they are
  classes.
- **Percentages** are computed as the integer floor `p * n / 100`.

Notes on the code, where it differs from what its names suggest. The model
follows the code in each case.

- `Rule::generate` gives up after `max_rule_generation_consecutive_fail`
  consecutive duplicate keys. It does not use
  `max_rule_constraint_generation_consecutive_fail` (src/rule.rs:58-62).
- Rule hashing goes through `to_string`. Two rules with different maps can
  render alike when a constraint holds the placeholder `_`, so they hash
  alike even though they are unequal. `Rules.CanonicalDeterminesRule`
  shows that the rendering determines the rule when `_` is not among the
  constraint characters.
- In multi-point crossover both children are the union of the same slices
  of both parents. The two children therefore hold the same rules
  (`Crossover.MultiPointChildrenEqual`).
- Roulette selection never resets its running total. Every draw after the
  first selects the first candidate (`Selection.RouletteSelect`).
- With `ConstraintRandomize`, a key is accepted only when it is free. So
  the "swap" taken after a collision with `swap_if_fail` is the same as a
  move (`Mutation.SwapIntoFreeKeyIsMove`). The value redraw of
  `ConstraintValueRandomize` can pick the current character again
  (`Mutation.RedrawCanKeepValue`).
- `ConstraintSwap` casts a negative `delta` to `usize`, which wraps around.
  The offset is then `(delta + 2^64) % max_index`, not a step backwards
  (`Mutation.NewKey`).

## Model

| member | source | states |
|---|---|---|
| Random.GenRange | src/selection.rs:99 | a drawn index lies in the requested range |
| Random.EveryValueDrawable | src/rule.rs:57 | every value of a range is the outcome of some draw, so "for every tape" covers every run |
| Random.EveryRatioOutcomeDrawable | src/mutation.rs:52 | a ratio strictly between 0 and 1 can come out either way |
| Common.EnumerationLength | src/candidate.rs:36-42 | an iteration order of a set lists exactly as many elements as the set has |
| Common.SameElementsSameMultiset | src/candidate.rs:17-21 | two duplicate-free orders of the same set are permutations of each other |
| Common.Enumerate | src/crossover.rs:167-174 | a freshly collected set is iterated in some order that lists each element exactly once |
| Rules.Evaluate | src/rule.rs:30-42 | the answer is `Ok(true)` exactly when every constraint matches the input; with all keys in range it is `Ok(matches)`; an error means some key is out of range; a rule without constraints matches everything |
| Rules.EvaluateFrom | src/rule.rs:31-41 | the loop answers `Ok(true)` exactly when every visited key is in range and matches; with all keys in range it never fails |
| Rules.KeyOrderCoversConstraints | src/rule.rs:31 | iterating the key order visits every constraint, so "all visited keys match" means "the rule matches" |
| Rules.Len | src/rule.rs:44-46 | the number of constraints, which is at most the length of the rule's rendering |
| Rules.Width | src/rule.rs:84-91 | the rendering's length: every key is below it, it is 0 only for an empty rule, and otherwise its last position is constrained |
| Rules.SortAscending | src/rule.rs:82-84 | sorting the keys gives a strictly increasing sequence of the same keys |
| Rules.InsertAscending | src/rule.rs:84 | inserting a new key into a strictly increasing sequence keeps it strictly increasing and adds exactly that key |
| Rules.ToString | src/rule.rs:79-94 | for every iteration order, the output is the canonical rendering: each constrained position holds its character and each gap holds `_` |
| Rules.PadGap | src/rule.rs:87-89 | the padding loop brings the output to the next key's position, every padded position holding `_` and each earlier one its canonical symbol |
| Rules.GapUnconstrained | src/rule.rs:87-89 | the positions filled with `_` before a sorted key are unconstrained |
| Rules.SortedWidth | src/rule.rs:86-92 | the rendering ends just after the largest key |
| Rules.CanonicalDeterminesRule | src/rule.rs:96-101 | when no constraint holds `_`, equal renderings (and so equal hashes) mean equal rules |
| Rules.KeysBelowWidth | src/rule.rs:55-57 | keys drawn below the index limit number at most that limit |
| Rules.LargestExists | src/rule.rs:84-91 | a non-empty key set has a largest key |
| Rules.Fill | src/rule.rs:55-69 | read off the tape, the key loop keeps the constraints it started with, never passes the target, falls short only after the cap of consecutive duplicate keys, keeps every key and character within the spec, and fills at least one key for a positive target |
| Rules.Generated | src/rule.rs:48-70 | a generated rule is within the spec, has fewer than `max_rule_constraints` constraints, is non-empty when `min_rule_constraints` is positive, and consumes at least one draw |
| Rules.Generate | src/rule.rs:48-70 | the target size is the first draw of `[min, max)`, and the rule and the next tape position are exactly `Generated` of the tape; the loop ends with the target reached or after the cap of consecutive duplicate keys, and a positive target gives a non-empty rule |
| Candidates.EqualIgnoresBookkeeping | src/candidate.rs:17-21 | equality looks only at the rules, not at the mutation count or birth generation |
| Candidates.EqualIsEquivalence | src/candidate.rs:17-21 | candidate equality is reflexive, symmetric and transitive |
| Candidates.EqualSameSize | src/candidate.rs:17-21 | equal candidates hold the same number of rules, in permuted orders |
| Candidates.FromRules | src/candidate.rs:36-42 | the new candidate holds exactly the given rules, with a zero mutation count and no birth generation |
| Candidates.FromRulesEqual | src/candidate.rs:36-42 | rebuilding a candidate from its own rules gives an equal candidate |
| Candidates.FromRuleSet | src/candidate.rs:36-42 | a candidate built from a rule set holds exactly that set and has fresh bookkeeping |
| Candidates.SetMutationCount | src/candidate.rs:48-50 | only the mutation count changes, and the result equals the original |
| Candidates.IncrementMutationCount | src/candidate.rs:52-54 | the count grows by one and nothing else changes |
| Candidates.SetBirthGenerationId | src/candidate.rs:62-64 | only the birth generation changes, and the result equals the original |
| Candidates.Age | src/candidate.rs:56-60 | there is an age exactly when there is a birth generation, and birth plus age is the current generation |
| Candidates.AgeAfterBirth | src/candidate.rs:56-64 | after setting the birth generation the age is current minus birth, and negative when birth is in the future |
| Candidates.FitnessOf | src/candidate.rs:79-97 | a successful fitness is at most the number of examples |
| Candidates.CalculateFitness | src/candidate.rs:79-97 | the nested loops with early `break` and `?` compute the fitness specification |
| Candidates.FitnessErrorPersists | src/candidate.rs:84-86 | once an example makes evaluation fail, the whole calculation fails |
| Candidates.FitnessErrorIff | src/candidate.rs:79-97 | the calculation fails exactly when some example makes the classification of its rules fail |
| Candidates.ClassifyInRange | src/candidate.rs:81-94 | with all keys in range, classifying from rule j answers whether some later rule agrees with the example |
| Candidates.FitnessInRange | src/candidate.rs:79-97 | with all keys in range, the fitness is the number of examples some rule of the candidate agrees with |
| Candidates.EqualCandidatesEqualFitness | src/candidate.rs:79-97 | equal candidates have equal fitness whatever their iteration orders |
| Candidates.EmptyRuleSetFitness | src/candidate.rs:79-97 | a candidate without rules has fitness 0 |
| Candidates.FillRules | src/candidate.rs:108-117 | read off the tape, the rule loop keeps the rules it started with, never passes the target, falls short only after the cap of consecutive duplicates, keeps every rule within the spec, and yields at least one rule for a positive target |
| Candidates.GeneratedRules | src/candidate.rs:99-123 | the rule set of a generated candidate: within the spec, at most the drawn target, non-empty when `min_rules` is positive |
| Candidates.DrawRules | src/candidate.rs:108-117 | the rule loop computes exactly `FillRules` of the tape from an empty set |
| Candidates.Generate | src/candidate.rs:99-123 | the rule target is the first draw of `[min, max)`, the rule set and the next tape position are exactly `GeneratedRules` of the tape, and the duplicate count is the one `FillRules` ends with; the rules are distinct, within the spec, never exceed the target, fall short only after the cap, are non-empty for a positive target, and the bookkeeping is fresh |
| Candidates.StringLeTotal | src/candidate.rs:129 | string order is total |
| Candidates.StringLeAntisymmetric | src/candidate.rs:129 | string order is antisymmetric |
| Candidates.StringLeTransitive | src/candidate.rs:129 | string order is transitive |
| Candidates.KeyLeTotalOrder | src/candidate.rs:129 | the `(len, to_string)` sort key is a total order |
| Candidates.KeysOf | src/candidate.rs:128-129 | one sort key per rule |
| Candidates.KeysOfAppend | src/candidate.rs:128-129 | the sort keys of a concatenation are the concatenated sort keys |
| Candidates.KeysOfPermutation | src/candidate.rs:128-129 | permuted rules have permuted sort keys |
| Candidates.InsertKey | src/candidate.rs:129 | inserting into a sorted key list keeps it sorted and adds exactly that key |
| Candidates.SortKeys | src/candidate.rs:129 | sorting yields a sorted permutation |
| Candidates.SortedHeadsEqual | src/candidate.rs:129 | two sorted permutations of each other start with the same key |
| Candidates.SortedUnique | src/candidate.rs:129 | two sorted permutations of each other are equal |
| Candidates.HashInput | src/candidate.rs:126-132 | the hashed list has one entry per rule |
| Candidates.EqualCandidatesHashAlike | src/candidate.rs:126-132 | equal candidates hash the same list whatever their iteration orders, so `Hash` agrees with `PartialEq` |
| Populations.MemberIffRuleSet | src/population.rs:11 | a candidate is in the set exactly when its rule set is among the members' rule sets |
| Populations.DistinctCardinality | src/population.rs:19-21 | pairwise unequal members have pairwise different rule sets |
| Populations.Population.Len | src/population.rs:19-21 | the length is the number of distinct members |
| Populations.Population.Contains | src/mutation.rs:182 | the answer is whether some member equals the candidate |
| Populations.Population.Insert | src/population.rs:23-25 | inserts exactly when no equal member exists, answers whether it did, and keeps the members distinct |
| Populations.Population.Remove | src/mutation.rs:196 | removes the member equal to the candidate, if any, keeping the others and the distinctness |
| Populations.RemoveAt | src/mutation.rs:196 | taking out one member removes exactly its rule set and keeps the rest distinct |
| Populations.RemoveAtRuleSets | src/mutation.rs:196 | removing the member equal to a candidate removes exactly that candidate's rule set |
| Populations.RemoveAtMembers | src/mutation.rs:196 | after the removal, the members are exactly the old members not equal to the candidate |
| Populations.FillPopulation | src/population.rs:34-45 | read off the tape, the candidate loop keeps the rule sets it started with, never passes the target, falls short only after the cap of consecutive duplicates, and yields at least one candidate for a positive target |
| Populations.Population.Generate | src/population.rs:28-50 | the target is the first draw of `[min, max)`; the rule sets of the candidates, the next tape position and the duplicate count are exactly `FillPopulation` of the tape; the population is distinct, at generation 1, never exceeds the target, falls short only after the cap and is non-empty for a positive target |
| Selection.SameEntryReflexive | src/selection.rs:103 | an entry equals itself |
| Selection.Draw | src/selection.rs:96-114 | the drawn index is a valid index into the candidates, and at least one draw is consumed |
| Selection.DrawFacts | src/selection.rs:96-114 | the index is the last draw; under `Allow` it is the first draw; under `Disallow` every earlier draw hit an entry already selected and the index does not, at most the budget of draws is used, and it fails (with `RngFail`) exactly when the whole budget of draws hits selected entries |
| Selection.DrawFirstSucceeds | src/selection.rs:96-114 | with nothing selected yet a draw never fails |
| Selection.DrawIndex | src/selection.rs:96-114 | the index and the next tape position are exactly `Draw` of the tape; the index is in range |
| Selection.KeepFitter | src/selection.rs:116-124 | the best so far is replaced only by a strictly fitter draw, and is never less fit than the draw or the previous best |
| Selection.LeadsStep | src/selection.rs:116-124 | keeping the fitter of the best and a new draw keeps it the round's winner so far |
| Selection.RoundFromLeads | src/selection.rs:93-125 | a round read off the tape has `tournament_size` draws, its winner is the fittest and earliest of them, under `Disallow` none of them is already selected, and only `Disallow` can fail |
| Selection.PlayRound | src/selection.rs:93-125 | one round computes exactly `RoundFrom` of the tape, and its winner is the fittest and earliest of its draws |
| Selection.TournamentSelect | src/selection.rs:79-131 | the result, the next tape position and the rounds' draws are exactly `TournamentFrom` of the tape; a result has the requested size and holds only candidates, each the fittest and earliest-fittest of its round's draws, with no duplicates under `Disallow`; `EmptyCandidates` exactly when the tournament size is 0 and some candidate is asked for |
| Selection.PickIndex | src/selection.rs:152-160 | the draw falls in the selected candidate's slice of the running total |
| Selection.PickIndexUnique | src/selection.rs:152-160 | only one candidate's slice contains the draw |
| Selection.PrefixSumStep | src/selection.rs:154 | each candidate adds its fitness to the running total |
| Selection.PrefixSumWhole | src/selection.rs:147 | the running total over all candidates is the total fitness |
| Selection.RouletteSelect | src/selection.rs:137-177 | the value is the single draw of `[0, total)` at the tape position; the first pick is the candidate whose slice holds the draw and later picks are the first candidate; `Allow` never fails; `Disallow` fails for three or more picks and, for two, exactly when the first pick is the first candidate |
| Selection.Select | src/selection.rs:16-28 | the result and the next tape position are exactly the chosen strategy's: `TournamentFrom` of the tape for a tournament; for the roulette, one draw whose `PickIndex` is the first pick, later picks `candidates[0]`, and the roulette's `Disallow` outcomes; either way the requested number of candidates, duplicate-free under `Disallow` |
| Crossover.Reverse | src/crossover.rs:88 | reversal maps position i to position n-1-i |
| Crossover.Zip | src/crossover.rs:89 | zipping pairs up equal positions up to the shorter length |
| Crossover.LeastFittestMatchup | src/crossover.rs:85-91 | the i-th candidate is paired with the i-th from the end, for n-1 pairs |
| Crossover.NextFittestMatchup | src/crossover.rs:93-99 | each candidate is paired with its successor, for n-1 pairs |
| Crossover.Probe | src/crossover.rs:117-128 | the duplicate probe returns a partner in range and never skips a new pairing |
| Crossover.RandomPartner | src/crossover.rs:110-115 | the partner read off the tape for index `i` is in range, and is never `i` itself without asexual mating when there are two or more candidates |
| Crossover.RandomMatchup | src/crossover.rs:101-135 | fails exactly for one candidate without asexual mating, drawing nothing; otherwise pairs each candidate index `i` with `RandomPartner` of the draw at `pos + i`, in range and never itself unless asexual mating is allowed, and returns the position after the `n` draws |
| Crossover.PairPossible | src/crossover.rs:84-130 | which partner positions each strategy can give the k-th candidate |
| Crossover.Matchup | src/crossover.rs:77-137 | the pairs count n or n-1 by strategy; the k-th pair is the k-th candidate with a partner the strategy can form (the mirror or the next position, or any position, itself only with asexual mating); fails exactly when the random matchup has one candidate and no asexual mating; the fixed strategies draw nothing, the random one's partners are `RandomPartner` of the tape and it uses one draw per candidate |
| Crossover.PercentWithin | src/crossover.rs:192-195 | a percentage up to 100 of a length is at most that length |
| Crossover.NormaliseSplitEffect | src/crossover.rs:242-243 | a start past the end collapses the segment to `(end, end)`; otherwise it is kept |
| Crossover.MirroredSplitsCountFromEnd | src/crossover.rs:149-165 | a mirrored single-point split counts from the end of the second parent |
| Crossover.SegmentBounds | src/crossover.rs:242-282 | a defined segment has ordered bounds in both parents |
| Crossover.SegmentBoundsDefinedness | src/crossover.rs:284-314 | an unmirrored segment is always defined; a mirrored index segment inside the second parent underflows |
| Crossover.TakeSkipSplit | src/crossover.rs:167-185 | take and skip at the same point split a sequence into its two halves |
| Crossover.SinglePointKeepsRules | src/crossover.rs:167-185 | together the two single-point children hold every rule of the parents' halves they take |
| Crossover.MultiPointChildrenEqual | src/crossover.rs:284-317 | both multi-point children collect the same rules |
| Crossover.SliceElements | src/crossover.rs:287-290 | a slice holds only elements of its sequence |
| Crossover.SegmentSlicesFromParents | src/crossover.rs:284-314 | each segment slice comes from its parent |
| Crossover.MultiPointRulesFromParents | src/crossover.rs:233-320 | multi-point children hold only rules of their parents |
| Crossover.ChildRulesFromParents | src/crossover.rs:146-415 | every mating strategy builds children only from their parents' rules |
| Crossover.MultiPoint | src/crossover.rs:284-314 | the segment loop's `extend`s compute the multi-point children |
| Crossover.MatePair | src/crossover.rs:146-415 | the two children of a pair hold exactly the rule sets the mating strategy assigns them, with fresh bookkeeping |
| Crossover.Mate | src/crossover.rs:146-415 | two children per pair, built from that pair's child rule sets, with fresh bookkeeping |
| Crossover.Crossover | src/crossover.rs:139-418 | fails exactly when the random matchup has one candidate and no asexual mating; the pairs and the next tape position are the matchup's (`RandomPartner` of the tape for the random strategy, no draw for the fixed ones); otherwise the children come two per matchup pair, in order, with the rule sets `ChildRules` gives for that pair; they are valid, with fresh bookkeeping and only rules from the selected candidates |
| Crossover.MatedChildrenFromParents | src/crossover.rs:139-418 | children of pairs of selected candidates hold only rules of the selected candidates |
| Crossover.ParentRulesInAll | src/crossover.rs:144 | a selected candidate's rules are among all selected rules |
| Mutation.Chance | src/mutation.rs:43 | a missing chance is 0 |
| Mutation.AsUsize | src/mutation.rs:89 | `delta as usize` is a `usize` congruent to `delta` modulo 2^64 |
| Mutation.NewKey | src/mutation.rs:89 | the swap partner lies in `[key, key + max_index)` at offset `(delta as usize) % max_index` |
| Mutation.SwapKeys | src/mutation.rs:88-101 | the removals and re-insertions show the constraints through the transposition of the two keys |
| Mutation.SwapKeysInvolution | src/mutation.rs:88-101 | swapping twice restores the constraints |
| Mutation.SwapKeysSymmetric | src/mutation.rs:88-101 | the order of the two keys does not matter |
| Mutation.SwapSameKey | src/mutation.rs:88-101 | a key swapped with itself (a `delta` that is a multiple of `max_index`) changes nothing |
| Mutation.SwapKeysKeepsShape | src/mutation.rs:88-101 | a swap keeps the number of constraints and the set of characters |
| Mutation.SwapKeysKeepsSize | src/mutation.rs:88-101 | a swap keeps the number of constraints |
| Mutation.SwapKeysKeepsValues | src/mutation.rs:88-101 | a swap keeps the set of characters |
| Mutation.TransposedKeysSize | src/mutation.rs:91-100 | constraints seen through a transposition of keys are as many as before |
| Mutation.SameKeys | src/mutation.rs:91-100 | with both keys present or both absent, a swap keeps the key set |
| Mutation.MovedKey | src/mutation.rs:91-100 | with one key present, a swap moves it and keeps the number of keys |
| Mutation.MoveKey | src/mutation.rs:138-142 | the value at the current key, if any, ends up at the new key, and all other keys are untouched |
| Mutation.SwapIntoFreeKeyIsMove | src/mutation.rs:123-143 | swapping into a free key is moving there |
| Mutation.KeepsReflexive | src/mutation.rs:72-84 | no edit keeps what the variant keeps |
| Mutation.KeepsTransitive | src/mutation.rs:77-176 | successive edits keep what each keeps |
| Mutation.DrawKey | src/mutation.rs:109 | a drawn key is below `max_index` |
| Mutation.FreeDraw | src/mutation.rs:108-121 | read off the tape, the key is the last draw and is free, every earlier draw hit a taken key, and it fails exactly when the first `retries + 1` draws all hit taken keys |
| Mutation.DrawFreeKey | src/mutation.rs:108-121 | the key and the next tape position are exactly `FreeDraw` of the tape; reports whether any draw collided |
| Mutation.ValueRandomized | src/mutation.rs:145-174 | only the selected key changes; a present key is removed only when the 1-in-`max_index + 1` draw says so; a new character is the alphabet character at the last draw; an absent key always gets one; the draw panics (`IndexPanic`) exactly when it lands past the alphabet, which cannot happen when `max_index` is at most the alphabet length |
| Mutation.ShortAlphabetCanPanic | src/mutation.rs:163-166 | with the shipped binary alphabet and `max_index` 5, some draw for an absent key panics |
| Mutation.RedrawCanKeepValue | src/mutation.rs:155-161 | some draws redraw the current character, leaving the rule unchanged |
| Mutation.SwapKeeps | src/mutation.rs:88-101 | a swap keeps what `ConstraintSwap` promises |
| Mutation.MoveToFreeKeyKeeps | src/mutation.rs:123-143 | a move to a free key keeps what `ConstraintRandomize` promises |
| Mutation.ValueRandomizedKeeps | src/mutation.rs:145-174 | a value redraw keeps what `ConstraintValueRandomize` promises |
| Mutation.Relocate | src/mutation.rs:122-140 | the swap taken after a collision with `swap_if_fail` and the plain move give the same constraints when the drawn key is free |
| Mutation.RandomizeConstraint | src/mutation.rs:102-144 | the result is exactly `ConstraintEdit` for the variant; fails exactly when all retries collide; otherwise the constraint moves to the drawn free key, with or without `swap_if_fail` |
| Mutation.ConstraintEdit | src/mutation.rs:87-175 | one key's edit read off the tape: only `ConstraintRandomize` can fail with `RngFail` and only `ConstraintValueRandomize` can panic, never with `max_index` at most the alphabet length |
| Mutation.ConstraintEditKeeps | src/mutation.rs:87-175 | one key's edit keeps what the variant promises |
| Mutation.MutateConstraint | src/mutation.rs:87-175 | the edit and the next tape position are exactly `ConstraintEdit` of the tape; per variant: the swap with the `NewKey` partner, the move to the first free drawn key, or `ValueRandomized` |
| Mutation.ConstraintsPass | src/mutation.rs:77-176 | the key loop read off the tape changes nothing when no key is selected, reports a selection when any error occurs, fails only in the variant's own way, selects none at chance 0 and some at chance 100 |
| Mutation.ConstraintsPassKeeps | src/mutation.rs:77-176 | however many keys the loop edits, the constraints keep the variant's promise |
| Mutation.EditKey | src/mutation.rs:77-176 | one turn of the key loop follows `ConstraintsPass` one key on, or ends it with the error |
| Mutation.EditConstraints | src/mutation.rs:77-176 | the constraints, the flag and the next tape position are exactly `ConstraintsPass` of the tape |
| Mutation.MutateRule | src/mutation.rs:77-176 | the rule, the flag and the next tape position are exactly `RuleMutation` (the key loop `ConstraintsPass` on the rule's constraints) of the tape; the loop keeps the variant's promise, leaves the rule alone when no key was selected, selects every key at chance 100 and none at chance 0 |
| Mutation.MutatedRulesReflexive | src/mutation.rs:69-177 | unedited rules are an edit of themselves |
| Mutation.MutatedRulesStep | src/mutation.rs:69-177 | editing one more rule keeps the rules an edit of the originals |
| Mutation.RulesPass | src/mutation.rs:69-177 | the rule loop read off the tape changes nothing when no key is selected, reports a selection when any error occurs, fails only in the variant's own way, and changes nothing at per-rule chance 0 |
| Mutation.RulesPassMutates | src/mutation.rs:69-177 | the rule loop edits each rule within the variant's promise, in the candidate's order |
| Mutation.EditRule | src/mutation.rs:72-176 | one turn of the rule loop follows `RulesPass` one rule on, keeping the number of rules, or ends it with the error |
| Mutation.MutateRules | src/mutation.rs:69-177 | the rules, the flag and the next tape position are exactly `RulesPass` of the tape; each rule is edited within the variant's promise, in the candidate's order; nothing changes when no key was selected or the per-rule chance is 0 |
| Mutation.ElementsSize | src/mutation.rs:180 | collecting a list into a set never grows it |
| Mutation.MutantShape | src/mutation.rs:180 | a mutant never has more rules than its original; under swap or key randomisation each of its rules has as many constraints as some original rule |
| Mutation.Proposed | src/mutation.rs:183-188 | answers whether some planned replacement equals the candidate |
| Mutation.AppendChange | src/mutation.rs:179-191 | proposing a new replacement keeps the plan valid |
| Mutation.PlanFrom | src/mutation.rs:56-193 | the candidate loop read off the tape only extends the plan, plans nothing at per-candidate chance 0, and fails only as the variant allows |
| Mutation.IsNewIff | src/mutation.rs:179-188 | the test that a mutant is new, in terms of rule sets, and the plan extended by it |
| Mutation.ConsiderMember | src/mutation.rs:58-192 | one turn of the candidate loop follows `PlanFrom` one member on and keeps the plan valid |
| Mutation.PlanChanges | src/mutation.rs:56-193 | the plan and the next tape position are exactly `PlanFrom` of the tape (each planned original with the rule set of its replacement); every planned replacement is a mutant of a distinct member, equal to no member and to no other replacement, with fresh bookkeeping |
| Mutation.ChangeStep | src/mutation.rs:195-198 | when a change is applied its original is still present and its replacement is absent |
| Mutation.ReplaceOne | src/mutation.rs:196-197 | removing a present original and adding an absent replacement changes the rule sets by exactly those two |
| Mutation.ApplyChanges | src/mutation.rs:195-198 | every removal and insertion takes effect, so the population keeps its size, its rule sets lose the originals' and gain the replacements', and every member afterwards is an old member or a replacement |
| Mutation.Mutate | src/mutation.rs:36-201 | a zero chance draws nothing and a failed gate draw consumes one value, and both change nothing; when the gate passes the plan, the next tape position and the outcome are exactly `PlanFrom` of the tape; on failure the population is unchanged; otherwise it keeps its size and generation, its rule sets trade the originals for the replacements, and every new member is a replacement with zero mutations and no birth generation |
| DataItems.Width | src/dataitem.rs:51-53 | the width is the length of the item's text |
| DataItems.CharAt | src/dataitem.rs:33-35 | a character exactly at the indices below the width, and then the one at that index |
| DataItems.IsReal | src/dataitem.rs:37-49 | an item is real exactly when it is not binary |
| DataItems.RealsDigits | src/dataitem.rs:93-114 | six reals give 36 digits |
| DataItems.FromStr | src/dataitem.rs:69-124 | non-ASCII input, and only that, gives `NotValidAscii`; anything parsed is a well-formed item |
| DataItems.ParsedWidth | src/dataitem.rs:163-170 | a parsed binary item is 5 or 6 wide and a parsed real item 36 |
| DataItems.RenderRealsParses | src/dataitem.rs:8 | rendered reals match the reals grammar and give back their digits |
| DataItems.RealsTextRenders | src/dataitem.rs:8 | text matching the reals grammar is the rendering of its digits |
| DataItems.RealsTextNotBinary | src/dataitem.rs:8 | the two alternatives of the grammar are disjoint |
| DataItems.ParseRender | src/dataitem.rs:69-124 | rendering a well-formed item and parsing it gives the item back |
| DataItems.RenderParse | src/dataitem.rs:69-124 | a parsed line is the rendering of its result, so parsing is injective |
| DataItems.ParseBinaryExample | src/dataitem.rs:130-132 | `00000` parses to that binary item |
| DataItems.ParseInvalidExample | src/dataitem.rs:135-140 | `abc` is an invalid format |
| DataItems.ParseNonAsciiExample | src/dataitem.rs:173-178 | a line with a non-ASCII character is refused as such |
| DataSets.HomogeneousSlice | src/dataset.rs:50-56 | any part of a homogeneous list is homogeneous |
| DataSets.SplitIndex | src/dataset.rs:43-45 | the split index is the floor of the percentage of the length, and at most the length |
| DataSets.DataSet.Len | src/dataset.rs:18-20 | the number of items |
| DataSets.DataSet.Push | src/dataset.rs:22-34 | an empty set accepts anything; otherwise another kind gives `HeterogenousData` before another width gives `LengthMismatch`; a refusal changes nothing; an accepted item is appended; homogeneity is kept |
| DataSets.DataSet.SplitAtPercentage | src/dataset.rs:36-58 | a percentage above 100 is refused; otherwise the parts are the items before and after the split index, in order, and concatenate to the whole |

## Left out

- src/main.rs: argument parsing, file loading, printing, the average
  fitness and the driver loop are not modelled. The driver only chains the
  modelled operators. The population operations it calls (`append`,
  `calculate_fitness`, `increment_generation`) are not defined in
  population.rs, so there is nothing to model for them.
- `DataSet::from_file` is not modelled: it is file I/O, and it ignores the
  result of its header check.
- Printing, `Debug`/`Display` formatting and the error messages are left
  out. `Rule`'s `Debug` output is its `to_string`, and only that is
  modelled.
- `thread_rng` is replaced by the tape. The model states which values a run
  can draw, not how likely they are.
- f64 percentages are the integer floor `p * n / 100`. Rounding in f64 can
  differ from this by one.
- Crossover.SegmentBounds: percentages above 100 are taken as written and
  not validated. The source leaves them unvalidated too.
- `usize` and `isize` overflow is not modelled. This covers
  `key + offset` in `ConstraintSwap`, `max_index as u32 + 1` and
  `chance as u32`. The one wrap-around the code relies on, `delta as usize`,
  is modelled.
- Candidates.Generate: the source reads `initial_generation.rules.{min, max,
  rng_fail_retries}`, and those fields do not exist in ga_spec.rs. The model
  reads `min_rules`, `max_rules` and `max_rule_generation_consecutive_fail`
  instead.
- Rules.Generate and Candidates.Generate take a `PopGenSpec`. In the source
  they take a `GaSpec`, which holds the same generation fields;
  `GaSpecs.Generation` gives a `GaSpec`'s generation fields as a
  `PopGenSpec`.
- Candidates.CalculateFitness: the source reads the items of a `DataSet` and
  each item's expected output. Neither accessor exists in dataset.rs or
  dataitem.rs. The model takes the examples as `(input, output)` pairs.
- Candidates.SetMutationCount, Candidates.IncrementMutationCount and
  Candidates.SetBirthGenerationId return the updated value rather than
  updating the candidate in place. Candidates are plain values with no
  aliasing, so nothing observable is lost.
- Populations.Population: the population's iteration order is its
  insertion order. Real `HashSet` order is unspecified, and
  `Populations.Population.Contains` and `Populations.Population.Remove`
  (called by `mutate` but not defined in population.rs) are modelled as the
  `HashSet` operations.
- Crossover.Crossover requires mating to be defined (no subtraction past
  zero) for every pair its matchup strategy can form. For the random
  matchup that is every partner a draw could give, while the source panics
  only for the partners actually drawn, so this requirement is stronger
  than the source's there.
- Mutation.Mutate, Mutation.PlanChanges, Mutation.MutateRules and
  Mutation.MutateRule require every chance to be at most 100. The source's
  `gen_ratio` panics only when a draw with that chance is reached, so this
  requirement is stronger than the source's.
- The panic of `alphabet.chars().nth(pos).unwrap()` under
  `ConstraintValueRandomize`, when `max_index` exceeds the alphabet length,
  is the outcome `IndexPanic` of `MutationError`. The source never returns
  it as a value: the program stops there.
- Other panics become preconditions: `len - 1` on an empty candidate list,
  `gen_range` on an empty range and a mirrored multi-point range whose end
  is before its start.
- `alphabet.len()` in `Rule::generate` and `DataItem::width` are byte
  lengths in the source. The model counts characters, which is the same
  for the ASCII alphabets and data the program reads (`DataItem::parse`
  rejects non-ASCII lines); a non-ASCII alphabet is not modelled.
- The stop test of the driver loop is not modelled. Its flag is part of
  the command-line configuration, not of ga_spec.rs.
