/** The configuration of a run (ga_spec.rs): the generation parameters
    together with the three operator strategies. */
module GaSpecs {
  import opened PopGenSpecs
  import Selection
  import Crossover
  import Mutation

  datatype GaSpec = GaSpec(
    maxCandidates: nat,
    minCandidates: nat,
    maxCandidateGenerationConsecutiveFail: nat,
    maxRules: nat,
    minRules: nat,
    maxRuleGenerationConsecutiveFail: nat,
    maxIndex: nat,
    maxRuleConstraints: nat,
    minRuleConstraints: nat,
    maxRuleConstraintGenerationConsecutiveFail: nat,
    selectionStrategy: Selection.SelectionStrategy,
    crossoverStrategy: Crossover.CrossoverStrategy,
    mutationStrategy: Mutation.MutationStrategy,
    alphabet: string)

  /** The generation parameters of a run, as the generators read them. */
  function Generation(spec: GaSpec): PopGenSpec {
    PopGenSpec(
      spec.maxCandidates, spec.minCandidates, spec.maxCandidateGenerationConsecutiveFail,
      spec.maxRules, spec.minRules, spec.maxRuleGenerationConsecutiveFail,
      spec.maxIndex, spec.maxRuleConstraints, spec.minRuleConstraints,
      spec.maxRuleConstraintGenerationConsecutiveFail, spec.alphabet)
  }
}
