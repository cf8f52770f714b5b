/**
 * `canonical`: whether linked evidence supports a label, a basis, a confidence level and possibly a
 * causal claim about a retrieval, and the row that is stored when it does.
 */
module AttributionAdmission {
  import opened Collections
  import opened Text
  import opened Identifiers
  import opened Timestamps
  import opened AttributionRecords
  import opened AttributionSubject
  import opened AttributionRandomized
  import opened AttributionMatching

  // ---- What single rows show ----------------------------------------------------------------------

  predicate QualifiedFeedback(row: Evidence) {
    row.sourceClass == UserReported && row.references.feedbackActionId.Some? && row.references.feedbackGate.Some?
  }

  predicate GroundedReview(row: Evidence) {
    row.sourceClass == Evaluator && (row.references.rubricId.Some? || row.references.adjudicationId.Some?)
  }

  predicate CheckedOut(row: Evidence) {
    (row.sourceClass == Observed || row.sourceClass == Derived) && row.references.checkoutId.Some?
  }

  predicate QualifiedWrongAction(row: Evidence) {
    if row.sourceClass == Evaluator then GroundedReview(row) else CheckedOut(row)
  }

  predicate QualifiedStaleSafety(row: Evidence) {
    if row.sourceClass == Evaluator then row.references.adjudicationId.Some? else CheckedOut(row)
  }

  function When(holds: bool, known: Label): Option<Label> { if holds then Some(known) else None }

  /** `directEvidenceLabel`. */
  function DirectLabel(row: Evidence): Option<Label> {
    if row.status != Present then None
    else match row.evidenceType
         case ExplicitHelpful => When(QualifiedFeedback(row), Helpful)
         case ExplicitIrrelevant => When(QualifiedFeedback(row), Irrelevant)
         case RetrievalNoise => When(GroundedReview(row), Irrelevant)
         case ExplicitStale => When(QualifiedFeedback(row), Stale)
         case StaleGuidance | ContradictedGuidance => When(QualifiedStaleSafety(row), Stale)
         case ExplicitHarmful => When(QualifiedFeedback(row), Harmful)
         case WrongActionFollowup => When(QualifiedWrongAction(row), Harmful)
         case _ => None
  }

  predicate ResolvedOutcome(row: Evidence) {
    DirectLabel(row).Some? || (row.sourceClass != UserReported && QualityRank(row).Some?)
  }

  predicate PositiveQuality(row: Evidence) {
    && row.dimension == Quality && (row.status == Pass || row.status == Mixed)
    && (if row.sourceClass == Evaluator then
          row.references.rubricId.Some? || row.references.adjudicationId.Some?
        else
          && row.sourceClass in {Observed, Derived, Experiment}
          && (|| row.references.checkId.Some? || row.references.checkoutId.Some?
              || (row.references.assertionId.Some? && row.references.rubricId.Some?)))
  }

  predicate SourceOverlap(row: Evidence) {
    && row.evidenceType == SourceLocationMatch && row.status == Present
    && (row.sourceClass == Observed || row.sourceClass == Derived)
    && |row.references.matchedPaths| > 0
    && row.value == Some(IntegerValue(|row.references.matchedPaths|, CountUnit))
  }

  // ---- Labels ------------------------------------------------------------------------------------------

  /** A row that names the subject and was observed no earlier than the retrieval completed. */
  predicate SubjectRow(ctx: Context, row: Evidence) {
    RowNamesSubject(ctx.attempt, ctx.subject, ctx.exposureId, row) && AfterCompletion(ctx.attempt, row)
  }

  function SubjectRows(ctx: Context, evidence: seq<Evidence>): seq<Evidence> {
    Filter(evidence, row => SubjectRow(ctx, row))
  }

  predicate LocatedQuality(ctx: Context, rows: seq<Evidence>) {
    && ctx.subject == ExposureSubject
    && (exists r :: r in rows && SourceOverlap(r)) && (exists r :: r in rows && PositiveQuality(r))
  }

  /** `observationalLabelSupport`. */
  function ObservationalSupport(ctx: Context, rows: seq<Evidence>): set<Label> {
    (set r | r in rows && DirectLabel(r).Some? :: DirectLabel(r).value) +
    (if LocatedQuality(ctx, rows) then {Helpful} else {})
  }

  function Support(db: Database, ctx: Context, basis: Basis, evidence: seq<Evidence>): set<Label> {
    if basis == RandomizedContrast then LabelSupport(ctx, AfterCellCompletion(db, ctx.attempt, evidence))
    else ObservationalSupport(ctx, SubjectRows(ctx, evidence))
  }

  /** `supportsLabel`. */
  predicate SupportsLabel(db: Database, ctx: Context, impact: Impact, basis: Basis, evidence: seq<Evidence>) {
    var support := Support(db, ctx, basis, evidence);
    match impact
    case Unknown => |support| != 1
    case Known(known) => basis != TemporalFollowup && |support| == 1 && known in support
  }

  /** `subjectLabelEvidence`: the rows behind a known label on a non-randomized basis. */
  predicate IsLabelWitness(ctx: Context, known: Label, evidence: seq<Evidence>, row: Evidence) {
    var rows := SubjectRows(ctx, evidence);
    && row in rows
    && (|| DirectLabel(row) == Some(known)
        || (known == Helpful && LocatedQuality(ctx, rows) && (SourceOverlap(row) || PositiveQuality(row))))
  }

  // ---- Basis -------------------------------------------------------------------------------------------

  predicate ShowsBasis(basis: Basis, row: Evidence) {
    match basis
    case ExplicitReference =>
      (row.evidenceType == MemoryReference && row.status == Present) || TypeDimension(row.evidenceType) == Feedback
    case ContentOverlap =>
      && row.evidenceType == CommandOrConstraintReuse && row.status == Present
      && (row.sourceClass == Observed || row.sourceClass == Derived)
    case HumanReview => GroundedReview(row)
    case SourceLocationOverlap => SourceOverlap(row)
    case BlindedReview => row.evidenceType == BlindedEvaluator && row.sourceClass == Evaluator
    case TemporalFollowup => row.evidenceType == RetrievalFollowup && row.status == Present
    case RandomizedContrast => false
  }

  /** `basisWitnesses`. */
  predicate IsBasisWitness(db: Database, ctx: Context, basis: Basis, evidence: seq<Evidence>, row: Evidence) {
    if basis == RandomizedContrast then
      IsContrastWitness(ctx, AfterCellCompletion(db, ctx.attempt, evidence), row)
    else
      row in evidence && ShowsBasis(basis, row) && SubjectRow(ctx, row)
  }

  /** `assertRandomizedContrast`. */
  predicate ContrastHolds(db: Database, ctx: Context, evidence: seq<Evidence>) {
    var eligible := AfterCellCompletion(db, ctx.attempt, evidence);
    var cells := set r | r in eligible && r.experimentCellId.Some? :: r.experimentCellId.value;
    && ctx.attempt.experimentId.Some? && ctx.attempt.experimentCellId.Some?
    && |eligible| == |evidence|
    && |cells| >= 2 && ctx.attempt.experimentCellId.value in cells
    && (exists r :: r in eligible && IsContrastWitness(ctx, eligible, r))
    && (forall r :: r in evidence ==>
          r.sourceClass == Experiment && r.experimentId == ctx.attempt.experimentId && r.experimentCellId.Some?)
    && (forall r :: r in eligible && IsContrastWitness(ctx, eligible, r) ==> Preregistered in r.references.codes)
  }

  predicate BasisHolds(db: Database, ctx: Context, basis: Basis, evidence: seq<Evidence>) {
    if basis == RandomizedContrast then ContrastHolds(db, ctx, evidence)
    else exists r :: r in evidence && IsBasisWitness(db, ctx, basis, evidence, r)
  }

  /** `assertHighConfidenceSupport`. */
  predicate ConfidenceHolds(db: Database, ctx: Context, basis: Basis, confidence: Confidence, evidence: seq<Evidence>) {
    || confidence != High
    || basis == RandomizedContrast
    || (basis in {HumanReview, BlindedReview} &&
        exists r :: r in evidence && IsBasisWitness(db, ctx, basis, evidence, r) && ResolvedOutcome(r))
    || (basis == ExplicitReference &&
        exists r :: r in evidence && IsBasisWitness(db, ctx, basis, evidence, r) && DirectLabel(r).Some?)
  }

  predicate IsSupportingRow(db: Database, ctx: Context, impact: Impact, basis: Basis, evidence: seq<Evidence>,
                            row: Evidence) {
    || IsBasisWitness(db, ctx, basis, evidence, row)
    || match impact
       case Unknown => false
       case Known(known) =>
         if basis == RandomizedContrast then
           IsWitness(ctx, AfterCellCompletion(db, ctx.attempt, evidence), row, known)
         else IsLabelWitness(ctx, known, evidence, row)
  }

  /** `assertSupportingDimension`. */
  predicate DimensionHolds(db: Database, ctx: Context, dimension: Dimension, impact: Impact, basis: Basis,
                           evidence: seq<Evidence>) {
    exists r :: r in evidence && IsSupportingRow(db, ctx, impact, basis, evidence, r) &&
                TypeDimension(r.evidenceType) == dimension
  }

  /** What a causal claim needs of each row that establishes the contrast. */
  predicate CausalWitness(db: Database, attempt: Attempt, row: Evidence) {
    && row.retentionPinned
    && CellsComplete in row.references.codes && UncertaintyReported in row.references.codes
    && (exists id :: id in Matches(db, attempt, row) && MatchedTo(db, attempt, row, id) &&
                     db.attempts[id].columns.retentionPinned)
  }

  /** `assertCausalGate`. */
  predicate CausalGateHolds(db: Database, ctx: Context, claim: Claim, basis: Basis, evidence: seq<Evidence>) {
    var eligible := AfterCellCompletion(db, ctx.attempt, evidence);
    || claim == Observational
    || (&& basis == RandomizedContrast
        && ContrastHolds(db, ctx, evidence)
        && forall r :: r in eligible && IsContrastWitness(ctx, eligible, r) ==> CausalWitness(db, ctx.attempt, r))
  }

  // ---- Admission ------------------------------------------------------------------------------------------

  datatype Input = Input(
    assessmentId: string, subject: Option<Subject>, attemptId: string, exposureId: Option<int>,
    dimension: Dimension, impact: Impact, basis: Basis, confidence: Confidence,
    procedure: string, procedureVersion: string, createdAt: string, evidenceIds: seq<string>, claim: Option<Claim>)

  /** The stored columns; the contract version is the constant 1. */
  datatype Row = Row(
    assessmentId: string, subject: Subject, attemptId: string, exposureId: Option<int>,
    dimension: Dimension, impact: Impact, basis: Basis, confidence: Confidence,
    procedure: string, procedureVersion: string, createdAt: string, claim: Claim)

  /** The gates, in the order in which the source reaches them. */
  datatype Error =
    | InvalidAttemptId | MissingAttempt | InvalidExposureId | InvalidEvidenceIds | MissingEvidence | InvalidTimestamp
    | NoCompletionBoundary | CreatedBeforeCompletion | CreatedBeforeEvidence | Uncorrelated
    | ExposureOnAttempt | NoHandoff | AmbiguousMemoryReference | AttemptNotNamed | NotIsolated
    | LabelUnsupported | BasisUnsupported | ConfidenceUnsupported | DimensionUnrepresented | CausalGateClosed
    | InvalidAssessmentId | InvalidProcedure
    | RetryConflict | NotPersistedSafely

  function LinkedEvidence(db: Database, ids: seq<string>): (r: Option<seq<Evidence>>)
    ensures r.Some? ==> |r.value| == |ids| && forall i :: 0 <= i < |ids| ==> db.GetEvidence(ids[i]) == Some(r.value[i])
  {
    if ids == [] then Some([])
    else match (db.GetEvidence(ids[0]), LinkedEvidence(db, ids[1..]))
         case (Some(row), Some(rest)) => Some([row] + rest)
         case _ => None
  }

  /** The assessed subject, its linked rows and the creation instant. */
  datatype Prepared = Prepared(ctx: Context, evidenceIds: seq<string>, evidence: seq<Evidence>, created: int)

  function SubjectOf(input: Input): Subject { if input.subject.Some? then input.subject.value else AttemptSubject }

  function ClaimOf(input: Input): Claim { if input.claim.Some? then input.claim.value else Observational }

  function Prepare(db: Database, input: Input): (r: Result<Prepared, Error>)
    ensures r.Ok? ==> r.value.created >= -DAY && Uuid(input.attemptId).Some?
  {
    var attemptId := Uuid(input.attemptId);
    if attemptId.None? then Err(InvalidAttemptId)
    else if db.GetAttempt(attemptId.value).None? then Err(MissingAttempt)
    else if input.exposureId.Some? && !IsPositiveInteger(input.exposureId.value) then Err(InvalidExposureId)
    else if NormalizedIds(input.evidenceIds).None? then Err(InvalidEvidenceIds)
    else if LinkedEvidence(db, NormalizedIds(input.evidenceIds).value).None? then Err(MissingEvidence)
    else if TimestampInstant(input.createdAt).None? then Err(InvalidTimestamp)
    else
      var ids := NormalizedIds(input.evidenceIds).value;
      Ok(Prepared(Context(db.GetAttempt(attemptId.value).value, SubjectOf(input), input.exposureId),
                  ids, LinkedEvidence(db, ids).value, TimestampInstant(input.createdAt).value))
  }

  /** The first gate that refuses, if any. */
  function Refusal(db: Database, p: Prepared, dimension: Dimension, impact: Impact, basis: Basis,
                   confidence: Confidence, claim: Claim): Option<Error> {
    var attempt, exposureId, evidence := p.ctx.attempt, p.ctx.exposureId, p.evidence;
    var attributed := impact.Known? && basis != RandomizedContrast;
    if attempt.completedAt.None? then Some(NoCompletionBoundary)
    else if p.created < attempt.completedAt.value then Some(CreatedBeforeCompletion)
    else if exists r :: r in evidence && r.observedAt > p.created then Some(CreatedBeforeEvidence)
    else if exists r :: r in evidence && !Correlates(attempt, r, exposureId) then Some(Uncorrelated)
    else if p.ctx.subject == AttemptSubject && exposureId.Some? then Some(ExposureOnAttempt)
    else if p.ctx.subject == AttemptSubject && EligibleExposures(attempt) == [] then Some(NoHandoff)
    else if attributed && !UnambiguousMemories(db, attempt, p.ctx.subject, exposureId, evidence) then
      Some(AmbiguousMemoryReference)
    else if p.ctx.subject == AttemptSubject && attributed &&
            !NamesSubject(attempt, p.ctx.subject, exposureId, Codes(evidence)) then Some(AttemptNotNamed)
    else if p.ctx.subject == ExposureSubject &&
            (exposureId.None? || !SupportsExposure(attempt, exposureId.value, evidence)) then Some(NotIsolated)
    else if !SupportsLabel(db, p.ctx, impact, basis, evidence) then Some(LabelUnsupported)
    else if !BasisHolds(db, p.ctx, basis, evidence) then Some(BasisUnsupported)
    else if !ConfidenceHolds(db, p.ctx, basis, confidence, evidence) then Some(ConfidenceUnsupported)
    else if !DimensionHolds(db, p.ctx, dimension, impact, basis, evidence) then Some(DimensionUnrepresented)
    else if !CausalGateHolds(db, p.ctx, claim, basis, evidence) then Some(CausalGateClosed)
    else None
  }

  /** `canonical`. */
  function Canonical(db: Database, input: Input): Result<Row, Error> {
    hide Refusal; hide Prepare; hide Uuid; hide IsStableCode;
    match Prepare(db, input)
    case Err(e) => Err(e)
    case Ok(p) =>
      match Refusal(db, p, input.dimension, input.impact, input.basis, input.confidence, ClaimOf(input))
      case Some(e) => Err(e)
      case None =>
        if Uuid(input.assessmentId).None? then Err(InvalidAssessmentId)
        else if !IsStableCode(input.procedure) || !IsStableCode(input.procedureVersion) then Err(InvalidProcedure)
        else Ok(Row(Uuid(input.assessmentId).value, SubjectOf(input), Uuid(input.attemptId).value, input.exposureId,
                    input.dimension, input.impact, input.basis, input.confidence,
                    input.procedure, input.procedureVersion, IsoText(p.created), ClaimOf(input)))
  }

  // ---- The loops behind the support -----------------------------------------------------------------------

  /** Rows that are linked by id carry that id, so two of them with one id are one row. */
  lemma LinkedIdsDiffer(db: Database, ids: seq<string>)
    requires db.WellFormed() && LinkedEvidence(db, ids).Some?
    ensures OneRowPerId(LinkedEvidence(db, ids).value)
  {
    var rows := LinkedEvidence(db, ids).value;
    forall r | r in rows ensures db.GetEvidence(r.evidenceId) == Some(r) {
      var i :| 0 <= i < |rows| && rows[i] == r;
      assert db.GetEvidence(ids[i]) == Some(r);
    }
  }

  /** On linked rows the source's loops compute the randomized support that the gates speak of. */
  method SupportByLoops(db: Database, ctx: Context, ids: seq<string>) returns (support: set<Label>)
    requires db.WellFormed() && LinkedEvidence(db, ids).Some?
    ensures support == Support(db, ctx, RandomizedContrast, LinkedEvidence(db, ids).value)
  {
    hide LabelSupport; hide AfterCellCompletion; hide LinkedEvidence;
    LinkedIdsDiffer(db, ids);
    var rows := EvidenceAfterCellCompletion(db, ctx.attempt, LinkedEvidence(db, ids).value);
    var witnesses := RandomizedLabelWitnesses(ctx, rows);
    support := witnesses.Keys;
  }

  // ---- What acceptance means --------------------------------------------------------------------------------

  /** An accepted input passed every gate on its own prepared subject and rows. */
  lemma AcceptedPasses(db: Database, input: Input)
    requires Canonical(db, input).Ok?
    ensures Prepare(db, input).Ok?
    ensures Refusal(db, Prepare(db, input).value, input.dimension, input.impact, input.basis, input.confidence,
                    ClaimOf(input)).None?
    ensures Prepare(db, input).value.evidence != []
    ensures Prepare(db, input).value.ctx.attempt == db.GetAttempt(Uuid(input.attemptId).value).value
  {
    hide Refusal;
    assert Lower(input.evidenceIds[0]) in LowerSet(input.evidenceIds) by {
      assert input.evidenceIds[0] in input.evidenceIds;
    }
    SortedElements(input.evidenceIds);
  }

  /** Everything a reader may conclude from an accepted contrast about its rows. */
  ghost predicate SoundContrast(db: Database, ctx: Context, evidence: seq<Evidence>) {
    && ctx.attempt.experimentId.Some? && ctx.attempt.experimentCellId.Some?
    && (forall r :: r in evidence ==>
          && r.sourceClass == Experiment && r.experimentId == ctx.attempt.experimentId
          && AfterItsAttempt(db, ctx.attempt, r))
    && (forall r :: r in evidence && IsContrastWitness(ctx, evidence, r) ==> Preregistered in r.references.codes)
    && (exists own :: own in evidence && IsContrastWitness(ctx, evidence, own) &&
                      own.experimentCellId == ctx.attempt.experimentCellId)
    && (exists other :: other in evidence && IsContrastWitness(ctx, evidence, other) &&
                        other.experimentCellId.Some? && other.experimentCellId != ctx.attempt.experimentCellId)
  }

  /** With nothing dropped, the contrast speaks about the linked rows themselves. */
  lemma ContrastKeepsRows(db: Database, ctx: Context, evidence: seq<Evidence>)
    requires evidence != [] && ContrastHolds(db, ctx, evidence)
    ensures AfterCellCompletion(db, ctx.attempt, evidence) == evidence
    ensures forall r :: r in evidence ==> AfterItsAttempt(db, ctx.attempt, r)
    ensures exists r :: r in evidence && IsContrastWitness(ctx, evidence, r)
  {
    hide IsContrastWitness; hide AfterItsAttempt; hide AfterCellCompletion;
    NothingDropped(db, ctx.attempt, evidence);
  }

  lemma ContrastHasBothSides(ctx: Context, evidence: seq<Evidence>, row: Evidence)
    returns (own: Evidence, other: Evidence)
    requires row in evidence && IsContrastWitness(ctx, evidence, row)
    ensures own in evidence && IsContrastWitness(ctx, evidence, own)
    ensures other in evidence && IsContrastWitness(ctx, evidence, other)
    ensures own.experimentCellId == ctx.attempt.experimentCellId != other.experimentCellId
  {
    var known :| known in LABELS && IsWitness(ctx, evidence, row, known);
    assert Supported(ctx, evidence, known);
    hide ResolvesTo; hide ComparisonKey;
    own, other := SupportHasBothSides(ctx, evidence, known);
  }

  lemma ContrastIsSound(db: Database, ctx: Context, evidence: seq<Evidence>)
    requires evidence != [] && ContrastHolds(db, ctx, evidence)
    ensures AfterCellCompletion(db, ctx.attempt, evidence) == evidence
    ensures SoundContrast(db, ctx, evidence)
  {
    hide IsContrastWitness; hide AfterItsAttempt; hide AfterCellCompletion;
    ContrastKeepsRows(db, ctx, evidence);
    var row :| row in evidence && IsContrastWitness(ctx, evidence, row);
    var own, other := ContrastHasBothSides(ctx, evidence, row);
  }

  /**
   * An accepted causal assessment rests on a randomized contrast whose every linked row is experiment
   * evidence of the attempt's experiment, belongs to exactly one completed attempt of its cell and was
   * observed no earlier than that completion; every row establishing the contrast, and its attempt, is
   * pinned, preregistered, cells-complete and uncertainty-reported; and such rows exist both in the
   * attempt's own cell and in another one.
   */
  lemma CausalAdmission(db: Database, input: Input)
    requires Canonical(db, input).Ok? && ClaimOf(input) == Causal
    ensures Prepare(db, input).Ok?
    ensures input.basis == RandomizedContrast
    ensures var p := Prepare(db, input).value;
            && SoundContrast(db, p.ctx, p.evidence)
            && forall r :: r in p.evidence && IsContrastWitness(p.ctx, p.evidence, r) ==>
                 CausalWitness(db, p.ctx.attempt, r)
  {
    AcceptedPasses(db, input);
    var p := Prepare(db, input).value;
    GatesOpen(db, p, input.dimension, input.impact, input.basis, input.confidence, ClaimOf(input));
    hide Prepare; hide IsContrastWitness; hide CausalWitness; hide AfterCellCompletion;
    hide ContrastHolds; hide SoundContrast;
    ContrastIsSound(db, p.ctx, p.evidence);
  }

  /** No refusal means that every gate holds. */
  lemma GatesOpen(db: Database, p: Prepared, dimension: Dimension, impact: Impact, basis: Basis,
                  confidence: Confidence, claim: Claim)
    requires Refusal(db, p, dimension, impact, basis, confidence, claim).None?
    ensures p.ctx.attempt.completedAt.Some? && p.created >= p.ctx.attempt.completedAt.value
    ensures forall r :: r in p.evidence ==> r.observedAt <= p.created
    ensures SupportsLabel(db, p.ctx, impact, basis, p.evidence) && BasisHolds(db, p.ctx, basis, p.evidence)
    ensures DimensionHolds(db, p.ctx, dimension, impact, basis, p.evidence)
    ensures ConfidenceHolds(db, p.ctx, basis, confidence, p.evidence)
    ensures impact.Known? && basis != RandomizedContrast ==>
              UnambiguousMemories(db, p.ctx.attempt, p.ctx.subject, p.ctx.exposureId, p.evidence)
    ensures CausalGateHolds(db, p.ctx, claim, basis, p.evidence)
  {
    hide SupportsLabel; hide BasisHolds; hide DimensionHolds; hide CausalGateHolds; hide ConfidenceHolds;
    hide UnambiguousMemories;
  }

  /**
   * Under a randomized contrast a known label is the one label the closed groups resolve to, "unknown"
   * means that two groups resolve to different labels, and "stale" is never accepted.
   */
  lemma RandomizedLabelMeansResolution(db: Database, input: Input)
    requires Canonical(db, input).Ok? && input.basis == RandomizedContrast
    ensures Prepare(db, input).Ok?
    ensures var p := Prepare(db, input).value;
            && SoundContrast(db, p.ctx, p.evidence)
            && (match input.impact
                case Known(known) => known != Stale && LabelSupport(p.ctx, p.evidence) == {known}
                case Unknown =>
                  exists first, second ::
                    && first != second
                    && first in LabelSupport(p.ctx, p.evidence) && second in LabelSupport(p.ctx, p.evidence))
  {
    hide *;
    AcceptedPasses(db, input);
    var p := Prepare(db, input).value;
    GatesOpen(db, p, input.dimension, input.impact, input.basis, input.confidence, ClaimOf(input));
    RandomizedGates(db, p.ctx, input.impact, p.evidence);
  }

  lemma RandomizedGates(db: Database, ctx: Context, impact: Impact, evidence: seq<Evidence>)
    requires evidence != [] && SupportsLabel(db, ctx, impact, RandomizedContrast, evidence)
    requires BasisHolds(db, ctx, RandomizedContrast, evidence)
    ensures SoundContrast(db, ctx, evidence)
    ensures match impact
            case Known(known) => known != Stale && LabelSupport(ctx, evidence) == {known}
            case Unknown =>
              exists first, second ::
                first != second && first in LabelSupport(ctx, evidence) && second in LabelSupport(ctx, evidence)
  {
    hide ContrastHolds; hide AfterCellCompletion; hide LabelSupport; hide SoundContrast; hide IsContrastWitness;
    ContrastIsSound(db, ctx, evidence);
    ContrastKeepsRows(db, ctx, evidence);
    SupportMeaning(ctx, evidence, impact);
  }

  lemma SupportMeaning(ctx: Context, evidence: seq<Evidence>, impact: Impact)
    requires exists r :: r in evidence && IsContrastWitness(ctx, evidence, r)
    requires match impact
             case Known(known) => |LabelSupport(ctx, evidence)| == 1 && known in LabelSupport(ctx, evidence)
             case Unknown => |LabelSupport(ctx, evidence)| != 1
    ensures match impact
            case Known(known) => known != Stale && LabelSupport(ctx, evidence) == {known}
            case Unknown =>
              exists first, second ::
                first != second && first in LabelSupport(ctx, evidence) && second in LabelSupport(ctx, evidence)
  {
    hide IsWitness; hide LabelSupport;
    var support := LabelSupport(ctx, evidence);
    var row :| row in evidence && IsContrastWitness(ctx, evidence, row);
    var first := WitnessedLabel(ctx, evidence, row);
    match impact
    case Known(known) =>
      OnlyElement(support, first, known);
      assert support == {known} by {
        assert |support - {known}| == 0;
      }
    case Unknown =>
      assert |support - {first}| == |support| - 1;
      assert support - {first} != {};
      var second :| second in support - {first};
  }

  /** A contrast witness stands for a supported label, which ranks never make stale. */
  lemma WitnessedLabel(ctx: Context, evidence: seq<Evidence>, row: Evidence) returns (known: Label)
    requires row in evidence && IsContrastWitness(ctx, evidence, row)
    ensures known in LabelSupport(ctx, evidence) && known != Stale
  {
    hide ResolvesTo; hide ComparisonKey; hide GroupOf;
    known :| known in LABELS && IsWitness(ctx, evidence, row, known);
    assert Supported(ctx, evidence, known);
    NeverStale(ctx.attempt.experimentCellId.value, GroupOf(ctx, Rows(evidence), ComparisonKey(ctx, row).value), known);
  }

  /** The row names this exposure of the attempt and, by id or by memory, none of its eligible siblings. */
  ghost predicate NamesOnly(attempt: Attempt, exposureId: int, row: Evidence) {
    && RowNamesSubject(attempt, ExposureSubject, Some(exposureId), row)
    && forall e :: e in EligibleExposures(attempt) && CodesNameExposure(row.references.codes, e) ==>
         e.exposureId == exposureId
  }

  lemma SubjectRowNamesOnly(ctx: Context, row: Evidence)
    requires ctx.subject == ExposureSubject && SubjectRow(ctx, row)
    ensures ctx.exposureId.Some? && NamesOnly(ctx.attempt, ctx.exposureId.value, row)
  {
    forall e | e in EligibleExposures(ctx.attempt) && CodesNameExposure(row.references.codes, e)
      ensures e.exposureId == ctx.exposureId.value
    {
      if e.exposureId != ctx.exposureId.value {
        NoSiblingNamed(ctx.attempt, ctx.exposureId.value, row, e);
      }
    }
  }

  lemma LabelWitnessIsIsolated(ctx: Context, known: Label, evidence: seq<Evidence>, row: Evidence)
    requires ctx.subject == ExposureSubject && IsLabelWitness(ctx, known, evidence, row)
    ensures row in evidence && ctx.exposureId.Some? && AfterCompletion(ctx.attempt, row)
    ensures NamesOnly(ctx.attempt, ctx.exposureId.value, row)
  {
    hide DirectLabel; hide SourceOverlap; hide PositiveQuality; hide LocatedQuality; hide NamesOnly;
    assert SubjectRow(ctx, row);
    SubjectRowNamesOnly(ctx, row);
  }

  lemma PreparedSubject(db: Database, input: Input)
    requires Prepare(db, input).Ok?
    ensures Prepare(db, input).value.ctx.subject == SubjectOf(input)
  {
    hide Uuid; hide NormalizedIds; hide LinkedEvidence; hide TimestampInstant;
  }

  /** So is a row that shows the basis. */
  lemma BasisWitnessIsIsolated(db: Database, ctx: Context, basis: Basis, evidence: seq<Evidence>, row: Evidence)
    requires ctx.subject == ExposureSubject && basis != RandomizedContrast
    requires IsBasisWitness(db, ctx, basis, evidence, row)
    ensures row in evidence && ctx.exposureId.Some? && AfterCompletion(ctx.attempt, row)
    ensures NamesOnly(ctx.attempt, ctx.exposureId.value, row)
  {
    hide ShowsBasis;
    SubjectRowNamesOnly(ctx, row);
    hide NamesOnly;
  }

  lemma SupportingRowIsIsolated(db: Database, ctx: Context, impact: Impact, basis: Basis, evidence: seq<Evidence>,
                                row: Evidence)
    requires ctx.subject == ExposureSubject && basis != RandomizedContrast
    requires IsSupportingRow(db, ctx, impact, basis, evidence, row)
    ensures row in evidence && ctx.exposureId.Some? && AfterCompletion(ctx.attempt, row)
    ensures NamesOnly(ctx.attempt, ctx.exposureId.value, row)
  {
    hide IsBasisWitness; hide IsLabelWitness; hide NamesOnly; hide AfterCompletion;
    if IsBasisWitness(db, ctx, basis, evidence, row) {
      BasisWitnessIsIsolated(db, ctx, basis, evidence, row);
    } else {
      LabelWitnessIsIsolated(ctx, impact.known, evidence, row);
    }
  }

  /**
   * For an exposure assessment on any other basis, every supporting row, behind a known label or showing
   * the basis, names the assessed exposure and no eligible sibling, and lies between the retrieval's
   * completion and the assessment.
   */
  lemma ExposureLabelIsIsolated(db: Database, input: Input, row: Evidence)
    requires Canonical(db, input).Ok? && SubjectOf(input) == ExposureSubject && input.basis != RandomizedContrast
    requires Prepare(db, input).Ok?
    requires IsSupportingRow(db, Prepare(db, input).value.ctx, input.impact, input.basis,
                             Prepare(db, input).value.evidence, row)
    ensures var p := Prepare(db, input).value;
            && p.ctx.exposureId.Some? && p.ctx.attempt.completedAt.Some?
            && NamesOnly(p.ctx.attempt, p.ctx.exposureId.value, row)
            && p.ctx.attempt.completedAt.value <= row.observedAt <= p.created
  {
    PreparedSubject(db, input);
    AcceptedPasses(db, input);
    hide Prepare; hide Canonical; hide Refusal; hide IsSupportingRow;
    hide NamesOnly; hide SupportsLabel; hide BasisHolds;
    hide DimensionHolds; hide CausalGateHolds; hide ClaimOf; hide SubjectOf;
    var p := Prepare(db, input).value;
    GatesOpen(db, p, input.dimension, input.impact, input.basis, input.confidence, ClaimOf(input));
    SupportingRowIsIsolated(db, p.ctx, input.impact, input.basis, p.evidence, row);
  }

  lemma SupportedHasWitness(db: Database, ctx: Context, known: Label, basis: Basis, evidence: seq<Evidence>)
    returns (row: Evidence)
    requires SupportsLabel(db, ctx, Known(known), basis, evidence) && basis != RandomizedContrast
    ensures IsLabelWitness(ctx, known, evidence, row)
  {
    hide DirectLabel; hide SourceOverlap; hide PositiveQuality; hide SubjectRow; hide LabelSupport;
    var rows := SubjectRows(ctx, evidence);
    assert known in ObservationalSupport(ctx, rows);
    if LocatedQuality(ctx, rows) && known == Helpful {
      row :| row in rows && SourceOverlap(row);
    } else {
      row :| row in rows && DirectLabel(row) == Some(known);
    }
  }

  // ---- Normal forms -----------------------------------------------------------------------------------------

  /** Inputs that differ only in spelling: letter case, id order and repetition, zone, defaults. */
  predicate SameNormalForm(a: Input, b: Input) {
    && Uuid(a.assessmentId) == Uuid(b.assessmentId) && Uuid(a.attemptId) == Uuid(b.attemptId)
    && SubjectOf(a) == SubjectOf(b) && ClaimOf(a) == ClaimOf(b)
    && a.exposureId == b.exposureId && a.dimension == b.dimension && a.impact == b.impact && a.basis == b.basis
    && a.confidence == b.confidence && a.procedure == b.procedure && a.procedureVersion == b.procedureVersion
    && NormalizedIds(a.evidenceIds) == NormalizedIds(b.evidenceIds)
    && TimestampInstant(a.createdAt) == TimestampInstant(b.createdAt)
  }

  lemma NormalFormDecides(db: Database, a: Input, b: Input)
    requires SameNormalForm(a, b)
    ensures Canonical(db, a) == Canonical(db, b)
  {
    hide Refusal; hide Uuid; hide NormalizedIds; hide LinkedEvidence;
    hide IsoText; hide IsStableCode; hide TimestampInstant;
  }
}
