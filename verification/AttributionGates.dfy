/**
 * The other gates of `canonical` in the columns of the stored rows: basis, confidence, dimension, causal claim,
 * memory references and the subject. Each gate is proved to open exactly under these conditions.
 */
module AttributionGates {
  import opened Collections
  import opened AttributionRecords
  import opened AttributionSubject
  import opened AttributionRandomized
  import opened AttributionMatching
  import opened AttributionAdmission
  import opened AttributionMeaning

  // ---- The basis gate -----------------------------------------------------------------------------------------

  /** The row is of the kind this basis rests on. */
  ghost predicate Grounds(basis: Basis, row: Evidence) {
    match basis
    case ExplicitReference =>
      || (row.evidenceType == MemoryReference && row.status == Present)
      || row.evidenceType in {ExplicitHelpful, ExplicitIrrelevant, ExplicitStale, ExplicitHarmful, ExplicitCorrection}
    case ContentOverlap =>
      row.evidenceType == CommandOrConstraintReuse && row.status == Present && row.sourceClass in {Observed, Derived}
    case HumanReview =>
      row.sourceClass == Evaluator && (row.references.rubricId.Some? || row.references.adjudicationId.Some?)
    case SourceLocationOverlap => Locates(row)
    case BlindedReview => row.evidenceType == BlindedEvaluator && row.sourceClass == Evaluator
    case TemporalFollowup => row.evidenceType == RetrievalFollowup && row.status == Present
    case RandomizedContrast => false
  }

  /** The linked row shows the basis: it testifies in its kind, or its group shows some label. */
  ghost predicate Founds(db: Database, ctx: Context, basis: Basis, evidence: seq<Evidence>, row: Evidence) {
    && row in evidence
    && if basis == RandomizedContrast then exists known :: GroupShows(db, ctx, evidence, row, known)
       else Grounds(basis, row) && Testifies(ctx, row)
  }

  /** A preregistered experiment on the attempt and another cell, with nothing left out and something shown. */
  ghost predicate ExperimentFits(db: Database, ctx: Context, evidence: seq<Evidence>) {
    && ctx.attempt.experimentId.Some? && ctx.attempt.experimentCellId.Some?
    && (forall r :: r in evidence ==>
          r.sourceClass == Experiment && r.experimentId == ctx.attempt.experimentId &&
          Counts(db, ctx.attempt, evidence, r))
    && (exists r :: r in evidence && r.experimentCellId == ctx.attempt.experimentCellId)
    && (exists r :: r in evidence && r.experimentCellId != ctx.attempt.experimentCellId)
    && (exists r :: Founds(db, ctx, RandomizedContrast, evidence, r))
    && (forall r :: Founds(db, ctx, RandomizedContrast, evidence, r) ==> Preregistered in r.references.codes)
  }

  ghost predicate BasisFits(db: Database, ctx: Context, basis: Basis, evidence: seq<Evidence>) {
    if basis == RandomizedContrast then ExperimentFits(db, ctx, evidence)
    else exists r :: Founds(db, ctx, basis, evidence, r)
  }

  /** The evidence types of a dimension. */
  ghost function TypesOf(dimension: Dimension): set<EvidenceType> {
    match dimension
    case Quality =>
      {TaskAssertion, TestResult, TypecheckResult, LintResult, BuildResult, BlindedEvaluator, CorrectiveFollowup}
    case Efficiency =>
      {ElapsedMs, ToolCallCount, ExplorationCallCount, FilesReadCount, FilesReadBeforeTarget,
       RetrievalOverheadMs, RetrievalOverheadTokens}
    case Mechanism => {SourceLocationMatch, MemoryReference, CommandOrConstraintReuse, RetrievalFollowup}
    case Safety => {StaleGuidance, ContradictedGuidance, WrongActionFollowup, RetrievalNoise}
    case Feedback => {ExplicitHelpful, ExplicitIrrelevant, ExplicitStale, ExplicitHarmful, ExplicitCorrection}
  }

  lemma DimensionOfType(t: EvidenceType, dimension: Dimension)
    ensures TypeDimension(t) == dimension <==> t in TypesOf(dimension)
  {
    match dimension
    case Quality => case Efficiency => case Mechanism => case Safety => case Feedback =>
  }

  lemma ShowsMeansGrounds(basis: Basis, row: Evidence)
    ensures ShowsBasis(basis, row) <==> Grounds(basis, row)
  {
    OverlapLocates(row);
    hide SourceOverlap; hide Locates;
  }

  lemma ContrastWitnessFounds(db: Database, ctx: Context, evidence: seq<Evidence>, row: Evidence)
    ensures IsContrastWitness(ctx, AfterCellCompletion(db, ctx.attempt, evidence), row)
            <==> Founds(db, ctx, RandomizedContrast, evidence, row)
    ensures Founds(db, ctx, RandomizedContrast, evidence, row) ==>
              row in evidence && row in AfterCellCompletion(db, ctx.attempt, evidence)
  {
    hide AfterCellCompletion; hide IsWitness; hide GroupShows;
    EveryLabel();
    forall known
      ensures IsWitness(ctx, AfterCellCompletion(db, ctx.attempt, evidence), row, known)
              <==> GroupShows(db, ctx, evidence, row, known)
      ensures IsWitness(ctx, AfterCellCompletion(db, ctx.attempt, evidence), row, known) ==>
                row in evidence && row in AfterCellCompletion(db, ctx.attempt, evidence)
    {
      WitnessShows(db, ctx, evidence, row, known);
      WitnessIsLinked(db, ctx, evidence, row, known);
    }
  }

  lemma BasisWitnessFounds(db: Database, ctx: Context, basis: Basis, evidence: seq<Evidence>, row: Evidence)
    ensures IsBasisWitness(db, ctx, basis, evidence, row) <==> Founds(db, ctx, basis, evidence, row)
  {
    hide AfterCellCompletion; hide IsContrastWitness; hide ShowsBasis; hide Grounds; hide SubjectRow; hide Testifies;
    if basis == RandomizedContrast {
      ContrastWitnessFounds(db, ctx, evidence, row);
    } else {
      hide GroupShows;
      ShowsMeansGrounds(basis, row);
      SubjectRowTestifies(ctx, row);
    }
  }

  /** Nothing is dropped exactly when every linked row counts. */
  lemma AllCount(db: Database, attempt: Attempt, evidence: seq<Evidence>)
    requires evidence != []
    ensures |AfterCellCompletion(db, attempt, evidence)| == |evidence| <==>
            forall r :: r in evidence ==> Counts(db, attempt, evidence, r)
    ensures |AfterCellCompletion(db, attempt, evidence)| == |evidence| ==>
              AfterCellCompletion(db, attempt, evidence) == evidence
  {
    hide Counts; hide AfterItsAttempt; hide AllMatched; hide AfterCellCompletion;
    forall r ensures r in AfterCellCompletion(db, attempt, evidence) <==> Counts(db, attempt, evidence, r) {
      EligibleCounts(db, attempt, evidence, r);
    }
    if |AfterCellCompletion(db, attempt, evidence)| == |evidence| {
      NothingDropped(db, attempt, evidence);
    }
    if forall r :: r in evidence ==> r in AfterCellCompletion(db, attempt, evidence) {
      AllEligible(db, attempt, evidence);
    }
  }

  lemma AllEligible(db: Database, attempt: Attempt, evidence: seq<Evidence>)
    requires evidence != [] && forall r :: r in evidence ==> r in AfterCellCompletion(db, attempt, evidence)
    ensures AfterCellCompletion(db, attempt, evidence) == evidence
  {
    hide AfterItsAttempt; hide AllMatched;
    assert evidence[0] in evidence;
    forall i | 0 <= i < |evidence| ensures AfterItsAttempt(db, attempt, evidence[i]) {
      assert evidence[i] in evidence;
    }
    FilterAll(evidence, row => AfterItsAttempt(db, attempt, row));
  }

  lemma TwoCells(evidence: seq<Evidence>, cells: set<string>, own: string)
    requires cells == set r | r in evidence && r.experimentCellId.Some? :: r.experimentCellId.value
    requires forall r :: r in evidence ==> r.experimentCellId.Some?
    ensures |cells| >= 2 && own in cells <==>
            && (exists r :: r in evidence && r.experimentCellId == Some(own))
            && (exists r :: r in evidence && r.experimentCellId != Some(own))
  {
    if |cells| >= 2 && own in cells {
      assert |cells - {own}| >= 1;
      var cell := SomeElement(cells - {own});
      assert cell in cells;
    }
    if r, s :| r in evidence && r.experimentCellId == Some(own) && s in evidence && s.experimentCellId != Some(own) {
      var cell := s.experimentCellId.value;
      assert {own, cell} <= cells;
      SubsetSize({own, cell}, cells);
    }
  }

  lemma CountedHasCell(db: Database, attempt: Attempt, evidence: seq<Evidence>, row: Evidence)
    requires Counts(db, attempt, evidence, row)
    ensures row.experimentCellId.Some? && attempt.experimentId.Some? && attempt.experimentCellId.Some?
  {
    var id :| BelongsTo(db, attempt, row, id);
    hide CellHasIdentities; hide Replays;
  }

  /** `assertRandomizedContrast`. */
  lemma ExperimentGate(db: Database, ctx: Context, evidence: seq<Evidence>)
    requires evidence != []
    ensures ContrastHolds(db, ctx, evidence) <==> ExperimentFits(db, ctx, evidence)
  {
    hide AfterCellCompletion; hide IsContrastWitness; hide Founds; hide Counts;
    AllCount(db, ctx.attempt, evidence);
    var eligible := AfterCellCompletion(db, ctx.attempt, evidence);
    forall r
      ensures IsContrastWitness(ctx, eligible, r) <==> Founds(db, ctx, RandomizedContrast, evidence, r)
      ensures Founds(db, ctx, RandomizedContrast, evidence, r) ==> r in evidence && r in eligible
    {
      ContrastWitnessFounds(db, ctx, evidence, r);
    }
    if (forall r :: r in evidence ==> Counts(db, ctx.attempt, evidence, r)) && ctx.attempt.experimentCellId.Some? {
      forall r | r in evidence ensures r.experimentCellId.Some? {
        CountedHasCell(db, ctx.attempt, evidence, r);
      }
      var cells := set r | r in eligible && r.experimentCellId.Some? :: r.experimentCellId.value;
      TwoCells(evidence, cells, ctx.attempt.experimentCellId.value);
    }
  }

  lemma BasisGate(db: Database, ctx: Context, basis: Basis, evidence: seq<Evidence>)
    requires evidence != []
    ensures BasisHolds(db, ctx, basis, evidence) <==> BasisFits(db, ctx, basis, evidence)
  {
    hide IsBasisWitness; hide Founds; hide ContrastHolds; hide ExperimentFits;
    ExperimentGate(db, ctx, evidence);
    forall r
      ensures IsBasisWitness(db, ctx, basis, evidence, r) <==> Founds(db, ctx, basis, evidence, r)
      ensures Founds(db, ctx, basis, evidence, r) ==> r in evidence
    {
      BasisWitnessFounds(db, ctx, basis, evidence, r);
      FoundingIsLinked(db, ctx, basis, evidence, r);
    }
  }

  lemma FoundingIsLinked(db: Database, ctx: Context, basis: Basis, evidence: seq<Evidence>, row: Evidence)
    ensures Founds(db, ctx, basis, evidence, row) ==> row in evidence
  {
    hide GroupShows; hide Grounds; hide Testifies;
  }

  // ---- Confidence, dimension and causal claims ---------------------------------------------------------------------

  /** The row settles an outcome: it says a label, or someone other than the user ranks the quality. */
  ghost predicate Settles(row: Evidence) {
    || (exists known :: Says(row, known))
    || (row.dimension == Quality && row.status in {Pass, Mixed, Fail} && row.sourceClass != UserReported)
  }

  ghost predicate ConfidenceFits(db: Database, ctx: Context, basis: Basis, confidence: Confidence,
                                 evidence: seq<Evidence>) {
    confidence == High ==>
      match basis
      case RandomizedContrast => true
      case HumanReview | BlindedReview => exists r :: Founds(db, ctx, basis, evidence, r) && Settles(r)
      case ExplicitReference => exists r, known :: Founds(db, ctx, basis, evidence, r) && Says(r, known)
      case TemporalFollowup | SourceLocationOverlap | ContentOverlap => false
  }

  lemma ResolvedSettles(row: Evidence)
    ensures ResolvedOutcome(row) <==> Settles(row)
    ensures DirectLabel(row).Some? <==> exists known :: Says(row, known)
  {
    hide DirectLabel; hide Says; hide QualityRank;
    RankedOutcome(row);
    forall known ensures DirectLabel(row) == Some(known) <==> Says(row, known) {
      DirectLabelSays(row, known);
    }
    if DirectLabel(row).Some? {
      assert Says(row, DirectLabel(row).value);
    }
  }

  /** `assertHighConfidenceSupport`: what high confidence rests on. */
  lemma ConfidenceGate(db: Database, ctx: Context, basis: Basis, confidence: Confidence, evidence: seq<Evidence>)
    ensures ConfidenceHolds(db, ctx, basis, confidence, evidence) <==>
            ConfidenceFits(db, ctx, basis, confidence, evidence)
  {
    hide IsBasisWitness; hide Founds; hide ResolvedOutcome; hide Settles; hide DirectLabel; hide Says;
    forall r
      ensures IsBasisWitness(db, ctx, basis, evidence, r) <==> Founds(db, ctx, basis, evidence, r)
      ensures Founds(db, ctx, basis, evidence, r) ==> r in evidence
      ensures ResolvedOutcome(r) <==> Settles(r)
      ensures DirectLabel(r).Some? <==> exists known :: Says(r, known)
    {
      BasisWitnessFounds(db, ctx, basis, evidence, r);
      FoundingIsLinked(db, ctx, basis, evidence, r);
      ResolvedSettles(r);
    }
  }

  /** The linked row supports the assessment: it founds the basis or stands behind the asserted label. */
  ghost predicate Backs(db: Database, ctx: Context, impact: Impact, basis: Basis, evidence: seq<Evidence>,
                        row: Evidence) {
    || Founds(db, ctx, basis, evidence, row)
    || (impact.Known? && row in evidence &&
        if basis == RandomizedContrast then GroupShows(db, ctx, evidence, row, impact.known)
        else Testifies(ctx, row) &&
             (|| Says(row, impact.known)
              || (impact.known == Helpful && LocatedSuccess(ctx, evidence) && (Locates(row) || WentWell(row)))))
  }

  ghost predicate DimensionFits(db: Database, ctx: Context, dimension: Dimension, impact: Impact, basis: Basis,
                                evidence: seq<Evidence>) {
    exists r :: Backs(db, ctx, impact, basis, evidence, r) && r.evidenceType in TypesOf(dimension)
  }

  lemma LabelWitnessBacks(ctx: Context, known: Label, evidence: seq<Evidence>, row: Evidence)
    ensures IsLabelWitness(ctx, known, evidence, row) <==>
            && row in evidence && Testifies(ctx, row)
            && (|| Says(row, known)
                || (known == Helpful && LocatedSuccess(ctx, evidence) && (Locates(row) || WentWell(row))))
  {
    hide SubjectRows; hide DirectLabel; hide LocatedQuality; hide SourceOverlap; hide PositiveQuality;
    hide Testifies; hide Says; hide LocatedSuccess; hide Locates; hide WentWell;
    RowsTestify(ctx, evidence, row);
    LocatedMeansSuccess(ctx, evidence);
    DirectLabelSays(row, known);
    OverlapLocates(row);
    PositiveWentWell(row);
  }

  lemma SupportingRowBacks(db: Database, ctx: Context, impact: Impact, basis: Basis, evidence: seq<Evidence>,
                           row: Evidence)
    ensures IsSupportingRow(db, ctx, impact, basis, evidence, row) <==> Backs(db, ctx, impact, basis, evidence, row)
    ensures Backs(db, ctx, impact, basis, evidence, row) ==> row in evidence
  {
    hide IsBasisWitness; hide Founds; hide IsWitness; hide GroupShows; hide IsLabelWitness; hide AfterCellCompletion;
    hide Testifies; hide Says; hide LocatedSuccess; hide Locates; hide WentWell;
    BasisWitnessFounds(db, ctx, basis, evidence, row);
    FoundingIsLinked(db, ctx, basis, evidence, row);
    if impact.Known? {
      WitnessShows(db, ctx, evidence, row, impact.known);
      WitnessIsLinked(db, ctx, evidence, row, impact.known);
      LabelWitnessBacks(ctx, impact.known, evidence, row);
    }
  }

  /** `assertSupportingDimension`. */
  lemma DimensionGate(db: Database, ctx: Context, dimension: Dimension, impact: Impact, basis: Basis,
                      evidence: seq<Evidence>)
    ensures DimensionHolds(db, ctx, dimension, impact, basis, evidence) <==>
            DimensionFits(db, ctx, dimension, impact, basis, evidence)
  {
    hide IsSupportingRow; hide Backs; hide TypeDimension; hide TypesOf;
    forall r
      ensures IsSupportingRow(db, ctx, impact, basis, evidence, r) <==> Backs(db, ctx, impact, basis, evidence, r)
      ensures Backs(db, ctx, impact, basis, evidence, r) ==> r in evidence
      ensures TypeDimension(r.evidenceType) == dimension <==> r.evidenceType in TypesOf(dimension)
    {
      SupportingRowBacks(db, ctx, impact, basis, evidence, r);
      DimensionOfType(r.evidenceType, dimension);
    }
  }

  /** The row and the attempt it belongs to are pinned, its cells complete and its uncertainty reported. */
  ghost predicate Retained(db: Database, attempt: Attempt, row: Evidence) {
    && row.retentionPinned && {CellsComplete, UncertaintyReported} <= row.references.codes
    && exists id :: BelongsTo(db, attempt, row, id) && db.attempts[id].columns.retentionPinned
  }

  ghost predicate ClaimFits(db: Database, ctx: Context, claim: Claim, basis: Basis, evidence: seq<Evidence>) {
    claim == Causal ==>
      && basis == RandomizedContrast && ExperimentFits(db, ctx, evidence)
      && forall r :: Founds(db, ctx, RandomizedContrast, evidence, r) ==> Retained(db, ctx.attempt, r)
  }

  lemma CausalMeansRetained(db: Database, attempt: Attempt, row: Evidence)
    ensures CausalWitness(db, attempt, row) <==> Retained(db, attempt, row)
  {
    hide Matches; hide MatchedTo; hide BelongsTo;
    forall id
      ensures BelongsTo(db, attempt, row, id) ==> id in db.attempts
      ensures id in db.attempts && MatchedTo(db, attempt, row, id) <==> BelongsTo(db, attempt, row, id)
      ensures id in db.attempts && MatchedTo(db, attempt, row, id) ==> id in Matches(db, attempt, row)
    {
      MatchedMeansBelongs(db, attempt, row, id);
      if BelongsTo(db, attempt, row, id) {
        BelongingIsStored(db, attempt, row, id);
        MatchedIsAMatch(db, attempt, row, id);
      }
    }
  }

  /** `assertCausalGate`. */
  lemma ClaimGate(db: Database, ctx: Context, claim: Claim, basis: Basis, evidence: seq<Evidence>)
    requires evidence != []
    ensures CausalGateHolds(db, ctx, claim, basis, evidence) <==> ClaimFits(db, ctx, claim, basis, evidence)
  {
    hide AfterCellCompletion; hide IsContrastWitness; hide Founds; hide ContrastHolds; hide ExperimentFits;
    hide CausalWitness; hide Retained;
    ExperimentGate(db, ctx, evidence);
    forall r
      ensures IsContrastWitness(ctx, AfterCellCompletion(db, ctx.attempt, evidence), r)
              <==> Founds(db, ctx, RandomizedContrast, evidence, r)
      ensures Founds(db, ctx, RandomizedContrast, evidence, r) ==>
                r in AfterCellCompletion(db, ctx.attempt, evidence)
      ensures CausalWitness(db, ctx.attempt, r) <==> Retained(db, ctx.attempt, r)
    {
      ContrastWitnessFounds(db, ctx, evidence, r);
      CausalMeansRetained(db, ctx.attempt, r);
    }
  }

  // ---- Correlation and memory references --------------------------------------------------------------------------

  /** Both columns are set and equal. */
  ghost predicate Shared<T(!new)>(a: Option<T>, b: Option<T>) { a != None && a == b }

  /** The row comes from the attempt's session, stream, source session or experiment. */
  ghost predicate SameOrigin(attempt: Attempt, row: Evidence) {
    || Shared(attempt.sessionId, row.sessionId)
    || (Shared(attempt.source, row.source) && Shared(attempt.streamId, row.streamId))
    || (Shared(attempt.source, row.source) && Shared(attempt.sourceSessionId, row.sourceSessionId))
    || Shared(attempt.experimentId, row.experimentId)
  }

  lemma CorrelatedOrigin(attempt: Attempt, row: Evidence, exposureId: Option<int>)
    ensures Correlates(attempt, row, exposureId) <==>
            || SameOrigin(attempt, row)
            || NamesAttempt(attempt.attemptId) in row.references.codes
            || (exposureId.Some? && NamesExposure(exposureId.value) in row.references.codes)
  {
  }

  /** The row names the subject by an id of its own, not by a memory alone. */
  ghost predicate NamesById(ctx: Context, row: Evidence) {
    if NamesAttempt(ctx.attempt.attemptId) in row.references.codes then
      ctx.subject == AttemptSubject || (ctx.exposureId.Some? && OnlyDelivery(ctx.attempt, ctx.exposureId.value))
    else match ctx.subject
         case AttemptSubject =>
           exists e :: Delivered(ctx.attempt, e) && NamesExposure(e.exposureId) in row.references.codes
         case ExposureSubject => ctx.exposureId.Some? && NamesExposure(ctx.exposureId.value) in row.references.codes
  }

  /** An attempt of the same origin that had delivered the memory before the row was observed. */
  ghost predicate CouldMean(db: Database, row: Evidence, key: string, id: string) {
    && id in db.attempts && db.attempts[id].contractV1
    && SameOrigin(db.attempts[id].columns, row)
    && db.attempts[id].columns.completedAt.Some? && db.attempts[id].columns.completedAt.value <= row.observedAt
    && exists e :: Delivered(db.attempts[id].columns, e) && e.memoryImportKey == Some(key)
  }

  /** A row that names a delivered memory alone could mean one attempt at most. */
  ghost predicate MemoriesFit(db: Database, ctx: Context, evidence: seq<Evidence>) {
    forall row, e, first, second ::
      && row in evidence && !NamesById(ctx, row)
      && Delivered(ctx.attempt, e) && e.memoryImportKey.Some?
      && NamesMemory(e.memoryImportKey.value) in row.references.codes
      && CouldMean(db, row, e.memoryImportKey.value, first) && CouldMean(db, row, e.memoryImportKey.value, second)
      ==> first == second
  }

  lemma ExactMeansById(ctx: Context, row: Evidence)
    ensures HasExactReference(ctx.attempt, ctx.subject, ctx.exposureId, row) <==> NamesById(ctx, row)
  {
    hide EligibleExposures; hide Delivered; hide IsolatedExposure; hide OnlyDelivery;
    forall e ensures e in EligibleExposures(ctx.attempt) <==> Delivered(ctx.attempt, e) {
      EligibleMeansDelivered(ctx.attempt, e);
    }
    if ctx.exposureId.Some? {
      IsolatedMeansOnly(ctx.attempt, ctx.exposureId.value);
    }
  }

  lemma OriginByQuery(row: Evidence, attempt: Attempt)
    ensures SameOrigin(attempt, row) <==> exists c :: c in CORRELATIONS && CorrelatesBy(c, row, attempt)
  {
    assert CORRELATIONS[0] == BySession && CORRELATIONS[1] == ByStream;
    assert CORRELATIONS[2] == BySourceSession && CORRELATIONS[3] == ByExperiment;
    if SameOrigin(attempt, row) {
      if Shared(attempt.sessionId, row.sessionId) {
        assert CorrelatesBy(BySession, row, attempt);
      } else if Shared(attempt.experimentId, row.experimentId) {
        assert CorrelatesBy(ByExperiment, row, attempt);
      } else if Shared(attempt.streamId, row.streamId) {
        assert CorrelatesBy(ByStream, row, attempt);
      } else {
        assert CorrelatesBy(BySourceSession, row, attempt);
      }
    }
  }

  lemma CandidateCouldMean(db: Database, row: Evidence, key: string, id: string)
    ensures id in MemoryCandidates(db, row, key) <==> CouldMean(db, row, key, id)
  {
    hide CorrelatesBy; hide SameOrigin;
    if id in db.attempts {
      OriginByQuery(row, db.attempts[id].columns);
      if CouldMean(db, row, key, id) {
        var c :| c in CORRELATIONS && CorrelatesBy(c, row, db.attempts[id].columns);
        var e :| Delivered(db.attempts[id].columns, e) && e.memoryImportKey == Some(key);
        assert id in QueryHits(db, row, key, c);
      }
    }
  }

  lemma AmbiguousMeansTwo(db: Database, row: Evidence, key: string)
    ensures AmbiguousMemory(db, row, key) <==>
            exists first, second :: CouldMean(db, row, key, first) && CouldMean(db, row, key, second) && first != second
  {
    hide MemoryCandidates; hide CouldMean;
    var ids := MemoryCandidates(db, row, key);
    forall id ensures id in ids <==> CouldMean(db, row, key, id) {
      CandidateCouldMean(db, row, key, id);
    }
    if |ids| > 1 {
      var first := SomeElement(ids);
      assert |ids - {first}| == |ids| - 1;
      var second := SomeElement(ids - {first});
      assert first in ids && second in ids;
    }
    if first, second :| CouldMean(db, row, key, first) && CouldMean(db, row, key, second) && first != second {
      assert {first, second} <= ids;
      SubsetSize({first, second}, ids);
    }
  }

  /** `assertUnambiguousSubjectMemoryReferences`. */
  lemma MemoryGate(db: Database, ctx: Context, evidence: seq<Evidence>)
    ensures UnambiguousMemories(db, ctx.attempt, ctx.subject, ctx.exposureId, evidence) <==>
            MemoriesFit(db, ctx, evidence)
  {
    hide HasExactReference; hide NamesById; hide EligibleExposures; hide Delivered; hide AmbiguousMemory;
    hide CouldMean;
    forall row ensures HasExactReference(ctx.attempt, ctx.subject, ctx.exposureId, row) <==> NamesById(ctx, row) {
      ExactMeansById(ctx, row);
    }
    forall e ensures e in EligibleExposures(ctx.attempt) <==> Delivered(ctx.attempt, e) {
      EligibleMeansDelivered(ctx.attempt, e);
    }
    forall row, key
      ensures AmbiguousMemory(db, row, key) <==>
              exists first, second ::
                CouldMean(db, row, key, first) && CouldMean(db, row, key, second) && first != second
    {
      AmbiguousMeansTwo(db, row, key);
    }
  }

  // ---- The subject gates -----------------------------------------------------------------------------------------

  /** Some linked row concerns the attempt. */
  lemma NamedByRows(ctx: Context, evidence: seq<Evidence>)
    requires ctx.subject == AttemptSubject
    ensures NamesSubject(ctx.attempt, ctx.subject, ctx.exposureId, Codes(evidence)) <==>
            exists row :: row in evidence && Concerns(ctx, row)
  {
    hide Delivered; hide EligibleExposures;
    var codes, ids := Codes(evidence), ReferencedExposureIds(ctx.attempt, Codes(evidence));
    forall e ensures e in EligibleExposures(ctx.attempt) <==> Delivered(ctx.attempt, e) {
      EligibleMeansDelivered(ctx.attempt, e);
    }
    forall e ensures CodesNameExposure(codes, e) <==> exists row :: row in evidence && Mentions(row, e) {
      MentionedByRows(evidence, e);
    }
    hide Mentions; hide CodesNameExposure;
    assert forall code :: code in codes <==> exists row :: row in evidence && code in row.references.codes;
    if |ids| > 0 {
      var id := SomeElement(ids);
      var e :| e in EligibleExposures(ctx.attempt) && CodesNameExposure(codes, e) && e.exposureId == id;
      var row :| row in evidence && Mentions(row, e);
      assert Concerns(ctx, row);
    }
    if row, e :| row in evidence && Delivered(ctx.attempt, e) && Mentions(row, e) {
      assert e.exposureId in ids;
    }
  }

  lemma MentionedByRows(evidence: seq<Evidence>, e: Exposure)
    ensures CodesNameExposure(Codes(evidence), e) <==> exists row :: row in evidence && Mentions(row, e)
  {
    if CodesNameExposure(Codes(evidence), e) {
      var code :| code in Codes(evidence) &&
        (code == NamesExposure(e.exposureId) ||
         (e.memoryImportKey.Some? && code == NamesMemory(e.memoryImportKey.value)));
      var row :| row in evidence && code in row.references.codes;
      assert Mentions(row, e);
    }
  }

  /** The exposure was delivered, and the attempt or some row singles it out. */
  ghost predicate SingledOut(ctx: Context, evidence: seq<Evidence>) {
    && ctx.exposureId.Some?
    && (exists e :: Delivered(ctx.attempt, e) && e.exposureId == ctx.exposureId.value)
    && (|| OnlyDelivery(ctx.attempt, ctx.exposureId.value)
        || exists row :: row in evidence && MentionsOnly(ctx.attempt, row, ctx.exposureId.value))
  }

  lemma SupportedMeansSingled(ctx: Context, evidence: seq<Evidence>)
    requires ctx.exposureId.Some?
    ensures SupportsExposure(ctx.attempt, ctx.exposureId.value, evidence) <==> SingledOut(ctx, evidence)
  {
    hide EligibleExposures; hide Delivered; hide IsolatedExposure; hide OnlyDelivery; hide ReferencesSubject;
    hide MentionsOnly;
    var id := ctx.exposureId.value;
    IsolatedMeansOnly(ctx.attempt, id);
    forall e ensures e in EligibleExposures(ctx.attempt) <==> Delivered(ctx.attempt, e) {
      EligibleMeansDelivered(ctx.attempt, e);
    }
    forall row: Evidence
      ensures ReferencesSubject(ctx.attempt, ExposureSubject, Some(id), row.references.codes) <==>
              MentionsOnly(ctx.attempt, row, id)
    {
      OnlyReferenced(ctx.attempt, row, id);
    }
  }
}
