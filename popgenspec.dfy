/** The parameters of initial-population generation. */
module PopGenSpecs {

  /** Configuration record read by `Rule.Generate`, `Candidate.Generate` and
      `Population.Generate`. Each `[min, max)` pair is the range of the size
      drawn for what is generated; each `...ConsecutiveFail` is a cap on
      consecutive duplicate draws. `maxIndex` is the width of the training
      examples and `alphabet` the symbols a constraint can require. */
  datatype PopGenSpec = PopGenSpec(
    maxCandidates: nat,
    minCandidates: nat,
    maxCandidateGenerationConsecutiveFail: nat,
    maxRules: nat,
    minRules: nat,
    maxRuleGenerationConsecutiveFail: nat,
    maxIndex: nat,
    maxRuleConstraints: nat,
    minRuleConstraints: nat,
    maxRuleConstraintGenerationConsecutiveFail: nat,
    alphabet: string)

  /** What generation needs of its configuration so that no range it draws
      from is empty. */
  predicate CanGenerateRules(spec: PopGenSpec) {
    && spec.minRuleConstraints < spec.maxRuleConstraints
    && spec.maxIndex > 0
    && |spec.alphabet| > 0
  }

  predicate CanGenerateCandidates(spec: PopGenSpec) {
    CanGenerateRules(spec) && spec.minRules < spec.maxRules
  }

  predicate CanGeneratePopulation(spec: PopGenSpec) {
    CanGenerateCandidates(spec) && spec.minCandidates < spec.maxCandidates
  }
}
