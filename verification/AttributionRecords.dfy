/**
 * The finite records an attribution assessment is judged against: retrieval attempts with their
 * exposures, outcome evidence, and the abstract database that holds both.
 */
module AttributionRecords {
  import opened Collections

  datatype Dimension = Quality | Efficiency | Mechanism | Safety | Feedback

  datatype EvidenceType =
    | TaskAssertion | TestResult | TypecheckResult | LintResult | BuildResult | BlindedEvaluator
    | CorrectiveFollowup
    | ElapsedMs | ToolCallCount | ExplorationCallCount | FilesReadCount | FilesReadBeforeTarget
    | RetrievalOverheadMs | RetrievalOverheadTokens
    | SourceLocationMatch | MemoryReference | CommandOrConstraintReuse | RetrievalFollowup
    | StaleGuidance | ContradictedGuidance | WrongActionFollowup | RetrievalNoise
    | ExplicitHelpful | ExplicitIrrelevant | ExplicitStale | ExplicitHarmful | ExplicitCorrection

  function TypeDimension(t: EvidenceType): Dimension {
    match t
    case TaskAssertion | TestResult | TypecheckResult | LintResult | BuildResult
       | BlindedEvaluator | CorrectiveFollowup => Quality
    case ElapsedMs | ToolCallCount | ExplorationCallCount | FilesReadCount | FilesReadBeforeTarget
       | RetrievalOverheadMs | RetrievalOverheadTokens => Efficiency
    case SourceLocationMatch | MemoryReference | CommandOrConstraintReuse | RetrievalFollowup => Mechanism
    case StaleGuidance | ContradictedGuidance | WrongActionFollowup | RetrievalNoise => Safety
    case ExplicitHelpful | ExplicitIrrelevant | ExplicitStale | ExplicitHarmful | ExplicitCorrection => Feedback
  }

  datatype SourceClass = Observed | Derived | Evaluator | UserReported | Experiment

  datatype Status = Pass | Fail | Mixed | Present | UnknownStatus

  datatype Unit = CountUnit | Milliseconds | Tokens | Ratio

  datatype Value = IntegerValue(amount: int, unit: Unit) | RealValue(real, Unit)

  datatype Gate = StructuredAction | UnambiguousInstruction

  /** A reference code by its prefix; every other code is an opaque flag. */
  datatype ReferenceCode =
    | NamesAttempt(attemptId: string)
    | NamesExposure(exposureId: int)
    | NamesMemory(importKey: string)
    | Preregistered
    | CellsComplete
    | UncertaintyReported
    | OtherCode(text: string)

  /** The references of a row; a row without references carries none of the parts. */
  datatype References = References(
    checkId: Option<string>, assertionId: Option<string>, rubricId: Option<string>,
    fixtureId: Option<string>, checkoutId: Option<string>, adjudicationId: Option<string>,
    feedbackActionId: Option<string>, feedbackGate: Option<Gate>,
    matchedPaths: seq<string>, codes: set<ReferenceCode>)

  datatype Evidence = Evidence(
    evidenceId: string, dimension: Dimension, evidenceType: EvidenceType, sourceClass: SourceClass,
    observedAt: int, status: Status, value: Option<Value>,
    sessionId: Option<int>, source: Option<string>, streamId: Option<string>, sourceSessionId: Option<string>,
    experimentId: Option<string>, experimentCellId: Option<string>,
    references: References, retentionPinned: bool)

  datatype Delivery = NotAttempted | HandedOff | DeliveryFailed | DeliveryUnknown

  datatype Disposition = Selected | Dropped | Deduped | Trimmed | Compressed

  datatype Exposure = Exposure(
    exposureId: int, memoryImportKey: Option<string>, disposition: Disposition, handoffStatus: Delivery)

  datatype Attempt = Attempt(
    attemptId: string, deliveryStatus: Delivery, selectedCount: nat,
    completedAt: Option<int>,
    sessionId: Option<int>, source: Option<string>, streamId: Option<string>, sourceSessionId: Option<string>,
    experimentId: Option<string>, experimentCellId: Option<string>,
    evaluationCheckoutId: Option<string>, evaluationFixtureId: Option<string>,
    retentionPinned: bool, exposures: seq<Exposure>)

  /** A row of the attempts table: its columns, and whether the validated reader accepts them. */
  datatype AttemptRow = AttemptRow(columns: Attempt, contractV1: bool, valid: bool)

  datatype Database = Database(attempts: map<string, AttemptRow>, evidence: map<string, Evidence>) {

    /** `getRetrievalAttempt`: None for a missing or invalid row. */
    function GetAttempt(id: string): Option<Attempt> {
      if id in attempts && attempts[id].valid then Some(attempts[id].columns) else None
    }

    /** `getOutcomeEvidence`. */
    function GetEvidence(id: string): Option<Evidence> {
      if id in evidence then Some(evidence[id]) else None
    }

    /** Rows carry their own primary keys. */
    ghost predicate WellFormed() {
      && (forall id :: id in attempts ==> attempts[id].columns.attemptId == id)
      && (forall id :: id in evidence ==> evidence[id].evidenceId == id)
    }
  }

  datatype Subject = AttemptSubject | ExposureSubject

  datatype Label = Helpful | Irrelevant | Stale | Harmful

  /** The asserted impact: a known label, or none. */
  datatype Impact = Known(known: Label) | Unknown

  datatype Basis =
    | TemporalFollowup | SourceLocationOverlap | ExplicitReference | ContentOverlap
    | HumanReview | BlindedReview | RandomizedContrast

  datatype Confidence = Low | Medium | High

  datatype Claim = Observational | Causal
}
