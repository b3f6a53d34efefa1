/** The closed vocabularies of a public answer (src/firelens/contracts.py:119-182). */
module AnswerKinds {

  datatype SectionKind =
    | CurrentRecords
    | ReviewedGuidance
    | ConflictingGuidance
    | GeneralBackground
    | OfficialHandoff
    | Uncertainty
    | SafetyBoundary
    | Unavailable

  datatype ResponseMode =
    | Grounded
    | Background
    | Capability
    | ScopeRedirect
    | Abstention
    | PartialAnswer
    | Live
    | MixedAnswer
    | Conflict
    | RequiresInput

  /** The reason codes that carry a safety prefix, and all others. */
  datatype ReasonCode =
    | PersonalizedSafetyDecision
    | PersonalizedMedicalAdvice
    | PolicyManipulation
    | OtherReason

  const PUBLIC_ANSWER_MAX_CHARS := 6000
}
