/**
 * `canonical` as a whole: it accepts exactly the inputs whose stored subject and rows open every gate, and otherwise
 * refuses with the first one that stays closed.
 */
module AttributionVerdict {
  import opened Collections
  import opened Identifiers
  import opened Text
  import opened Timestamps
  import opened AttributionRecords
  import opened AttributionSubject
  import opened AttributionRandomized
  import opened AttributionMatching
  import opened AttributionAdmission
  import opened AttributionMeaning
  import opened AttributionGates

  // ---- All gates -------------------------------------------------------------------------------------------------

  /** The gates behind the prepared subject, in the order in which the source reaches them. */
  const GATES := [
    NoCompletionBoundary, CreatedBeforeCompletion, CreatedBeforeEvidence, Uncorrelated, ExposureOnAttempt, NoHandoff,
    AmbiguousMemoryReference, AttemptNotNamed, NotIsolated,
    LabelUnsupported, BasisUnsupported, ConfidenceUnsupported, DimensionUnrepresented, CausalGateClosed]

  /** A known label is asserted on observational grounds. */
  ghost predicate Attributes(input: Input) { input.impact != Unknown && input.basis != RandomizedContrast }

  /** What the prepared subject and rows must be like for the gate to open. */
  ghost predicate Opens(gate: Error, db: Database, p: Prepared, input: Input) {
    var ctx := p.ctx;
    match gate
    case NoCompletionBoundary => ctx.attempt.completedAt.Some?
    case CreatedBeforeCompletion => ctx.attempt.completedAt.Some? ==> ctx.attempt.completedAt.value <= p.created
    case CreatedBeforeEvidence => forall row :: row in p.evidence ==> row.observedAt <= p.created
    case Uncorrelated =>
      forall row :: row in p.evidence ==>
        || SameOrigin(ctx.attempt, row)
        || NamesAttempt(ctx.attempt.attemptId) in row.references.codes
        || (ctx.exposureId.Some? && NamesExposure(ctx.exposureId.value) in row.references.codes)
    case ExposureOnAttempt => ctx.subject == AttemptSubject ==> ctx.exposureId == None
    case NoHandoff => ctx.subject == AttemptSubject ==> exists e :: Delivered(ctx.attempt, e)
    case AmbiguousMemoryReference => Attributes(input) ==> MemoriesFit(db, ctx, p.evidence)
    case AttemptNotNamed =>
      ctx.subject == AttemptSubject && Attributes(input) ==> exists row :: row in p.evidence && Concerns(ctx, row)
    case NotIsolated => ctx.subject == ExposureSubject ==> SingledOut(ctx, p.evidence)
    case LabelUnsupported => LabelFits(db, ctx, input.impact, input.basis, p.evidence)
    case BasisUnsupported => BasisFits(db, ctx, input.basis, p.evidence)
    case ConfidenceUnsupported => ConfidenceFits(db, ctx, input.basis, input.confidence, p.evidence)
    case DimensionUnrepresented => DimensionFits(db, ctx, input.dimension, input.impact, input.basis, p.evidence)
    case CausalGateClosed => input.claim == Some(Causal) ==> ClaimFits(db, ctx, Causal, input.basis, p.evidence)
    case _ => true
  }

  ghost predicate FirstClosed(n: nat, db: Database, p: Prepared, input: Input) {
    n < |GATES| && !Opens(GATES[n], db, p, input) && forall i :: 0 <= i < n ==> Opens(GATES[i], db, p, input)
  }

  ghost predicate AllOpen(db: Database, p: Prepared, input: Input) {
    forall i :: 0 <= i < |GATES| ==> Opens(GATES[i], db, p, input)
  }

  ghost function RefusalOf(db: Database, p: Prepared, input: Input): Option<Error> {
    Refusal(db, p, input.dimension, input.impact, input.basis, input.confidence, ClaimOf(input))
  }

  lemma NoneDelivered(attempt: Attempt)
    ensures EligibleExposures(attempt) == [] <==> !exists e :: Delivered(attempt, e)
  {
    hide EligibleExposures; hide Delivered;
    forall e ensures e in EligibleExposures(attempt) <==> Delivered(attempt, e) {
      EligibleMeansDelivered(attempt, e);
    }
    if EligibleExposures(attempt) != [] {
      assert EligibleExposures(attempt)[0] in EligibleExposures(attempt);
    }
  }

  lemma OriginOpens(db: Database, p: Prepared, input: Input)
    ensures Opens(Uncorrelated, db, p, input) <==>
            forall r :: r in p.evidence ==> Correlates(p.ctx.attempt, r, p.ctx.exposureId)
  {
    hide Correlates; hide SameOrigin;
    forall r | r in p.evidence
      ensures Correlates(p.ctx.attempt, r, p.ctx.exposureId) <==>
              || SameOrigin(p.ctx.attempt, r)
              || NamesAttempt(p.ctx.attempt.attemptId) in r.references.codes
              || (p.ctx.exposureId.Some? && NamesExposure(p.ctx.exposureId.value) in r.references.codes)
    {
      CorrelatedOrigin(p.ctx.attempt, r, p.ctx.exposureId);
    }
  }

  lemma HandoffOpens(db: Database, p: Prepared, input: Input)
    ensures Opens(NoHandoff, db, p, input) <==>
            (p.ctx.subject == AttemptSubject ==> EligibleExposures(p.ctx.attempt) != [])
    ensures Opens(NotIsolated, db, p, input) <==>
            (p.ctx.subject == ExposureSubject ==>
               p.ctx.exposureId.Some? && SupportsExposure(p.ctx.attempt, p.ctx.exposureId.value, p.evidence))
  {
    hide EligibleExposures; hide Delivered; hide SupportsExposure; hide OnlyDelivery; hide MentionsOnly;
    NoneDelivered(p.ctx.attempt);
    if p.ctx.exposureId.Some? {
      SupportedMeansSingled(p.ctx, p.evidence);
    }
  }

  lemma NamingOpens(db: Database, p: Prepared, input: Input)
    ensures Opens(AmbiguousMemoryReference, db, p, input) <==>
            (input.impact.Known? && input.basis != RandomizedContrast ==>
               UnambiguousMemories(db, p.ctx.attempt, p.ctx.subject, p.ctx.exposureId, p.evidence))
    ensures Opens(AttemptNotNamed, db, p, input) <==>
            (p.ctx.subject == AttemptSubject && input.impact.Known? && input.basis != RandomizedContrast ==>
               NamesSubject(p.ctx.attempt, p.ctx.subject, p.ctx.exposureId, Codes(p.evidence)))
  {
    hide UnambiguousMemories; hide MemoriesFit; hide NamesSubject; hide Concerns;
    MemoryGate(db, p.ctx, p.evidence);
    if p.ctx.subject == AttemptSubject {
      NamedByRows(p.ctx, p.evidence);
    }
  }

  lemma LabelOpens(db: Database, p: Prepared, input: Input)
    ensures Opens(LabelUnsupported, db, p, input) <==> SupportsLabel(db, p.ctx, input.impact, input.basis, p.evidence)
    ensures Opens(ConfidenceUnsupported, db, p, input) <==>
            ConfidenceHolds(db, p.ctx, input.basis, input.confidence, p.evidence)
    ensures Opens(DimensionUnrepresented, db, p, input) <==>
            DimensionHolds(db, p.ctx, input.dimension, input.impact, input.basis, p.evidence)
  {
    hide LabelFits; hide ConfidenceFits; hide DimensionFits;
    hide SupportsLabel; hide ConfidenceHolds; hide DimensionHolds;
    LabelGate(db, p.ctx, input.impact, input.basis, p.evidence);
    ConfidenceGate(db, p.ctx, input.basis, input.confidence, p.evidence);
    DimensionGate(db, p.ctx, input.dimension, input.impact, input.basis, p.evidence);
  }

  lemma BasisOpens(db: Database, p: Prepared, input: Input)
    requires p.evidence != []
    ensures Opens(BasisUnsupported, db, p, input) <==> BasisHolds(db, p.ctx, input.basis, p.evidence)
    ensures Opens(CausalGateClosed, db, p, input) <==>
            CausalGateHolds(db, p.ctx, ClaimOf(input), input.basis, p.evidence)
  {
    hide BasisFits; hide ExperimentFits; hide Founds; hide Retained; hide BasisHolds; hide CausalGateHolds;
    BasisGate(db, p.ctx, input.basis, p.evidence);
    ClaimGate(db, p.ctx, ClaimOf(input), input.basis, p.evidence);
  }

  lemma SubjectOpens(db: Database, p: Prepared, input: Input)
    ensures Opens(NoCompletionBoundary, db, p, input) <==> p.ctx.attempt.completedAt.Some?
    ensures Opens(CreatedBeforeCompletion, db, p, input) <==>
            (p.ctx.attempt.completedAt.Some? ==> p.created >= p.ctx.attempt.completedAt.value)
    ensures Opens(CreatedBeforeEvidence, db, p, input) <==> forall r :: r in p.evidence ==> r.observedAt <= p.created
    ensures Opens(ExposureOnAttempt, db, p, input) <==> (p.ctx.subject == AttemptSubject ==> p.ctx.exposureId.None?)
  {
  }

  lemma GatesInOrder()
    ensures |GATES| == 14
    ensures GATES[0] == NoCompletionBoundary && GATES[1] == CreatedBeforeCompletion
    ensures GATES[2] == CreatedBeforeEvidence && GATES[3] == Uncorrelated && GATES[4] == ExposureOnAttempt
    ensures GATES[5] == NoHandoff && GATES[6] == AmbiguousMemoryReference && GATES[7] == AttemptNotNamed
    ensures GATES[8] == NotIsolated && GATES[9] == LabelUnsupported && GATES[10] == BasisUnsupported
    ensures GATES[11] == ConfidenceUnsupported && GATES[12] == DimensionUnrepresented
    ensures GATES[13] == CausalGateClosed
  {
  }

  /** The chain of tests in `canonical` refuses with the first closed gate. */
  lemma ChainRefuses(db: Database, p: Prepared, input: Input)
    requires p.evidence != []
    ensures var open := (gate: Error) => Opens(gate, db, p, input);
            RefusalOf(db, p, input) ==
            if !open(NoCompletionBoundary) then Some(NoCompletionBoundary)
            else if !open(CreatedBeforeCompletion) then Some(CreatedBeforeCompletion)
            else if !open(CreatedBeforeEvidence) then Some(CreatedBeforeEvidence)
            else if !open(Uncorrelated) then Some(Uncorrelated)
            else if !open(ExposureOnAttempt) then Some(ExposureOnAttempt)
            else if !open(NoHandoff) then Some(NoHandoff)
            else if !open(AmbiguousMemoryReference) then Some(AmbiguousMemoryReference)
            else if !open(AttemptNotNamed) then Some(AttemptNotNamed)
            else if !open(NotIsolated) then Some(NotIsolated)
            else if !open(LabelUnsupported) then Some(LabelUnsupported)
            else if !open(BasisUnsupported) then Some(BasisUnsupported)
            else if !open(ConfidenceUnsupported) then Some(ConfidenceUnsupported)
            else if !open(DimensionUnrepresented) then Some(DimensionUnrepresented)
            else if !open(CausalGateClosed) then Some(CausalGateClosed)
            else None
  {
    hide Opens; hide Correlates; hide EligibleExposures; hide UnambiguousMemories; hide NamesSubject;
    hide SupportsExposure; hide SupportsLabel; hide BasisHolds; hide ConfidenceHolds; hide DimensionHolds;
    hide CausalGateHolds; hide Codes; hide ClaimOf;
    SubjectOpens(db, p, input);
    OriginOpens(db, p, input);
    HandoffOpens(db, p, input);
    NamingOpens(db, p, input);
    LabelOpens(db, p, input);
    BasisOpens(db, p, input);
  }

  /** The refusal is the first gate that does not open; there is none exactly when all of them do. */
  lemma RefusalIsFirstClosed(db: Database, p: Prepared, input: Input)
    requires p.evidence != []
    ensures RefusalOf(db, p, input).None? <==> AllOpen(db, p, input)
    ensures forall n: nat :: FirstClosed(n, db, p, input) ==> RefusalOf(db, p, input) == Some(GATES[n])
  {
    hide Opens; hide RefusalOf;
    GatesInOrder();
    ChainRefuses(db, p, input);
  }

  // ---- The verdict -------------------------------------------------------------------------------------------

  /** The stored subject and rows and the instant that an input names. */
  ghost predicate Describes(db: Database, input: Input, p: Prepared) {
    && Uuid(input.attemptId).Some? && Uuid(input.attemptId).value in db.attempts
    && db.attempts[Uuid(input.attemptId).value] == AttemptRow(p.ctx.attempt,
         db.attempts[Uuid(input.attemptId).value].contractV1, true)
    && p.ctx.subject == (match input.subject case None => AttemptSubject case Some(subject) => subject)
    && p.ctx.exposureId == input.exposureId && ExposureIdFits(input)
    && NormalizedIds(input.evidenceIds) == Some(p.evidenceIds) && |p.evidence| == |p.evidenceIds|
    && (forall i :: 0 <= i < |p.evidenceIds| ==>
          p.evidenceIds[i] in db.evidence && db.evidence[p.evidenceIds[i]] == p.evidence[i])
    && TimestampInstant(input.createdAt) == Some(p.created)
  }

  ghost predicate ExposureIdFits(input: Input) {
    input.exposureId.Some? ==> 0 < input.exposureId.value < 9_007_199_254_740_992
  }

  /** The stored row of an accepted input. */
  ghost predicate StoredAs(input: Input, p: Prepared, row: Row) {
    && Uuid(input.assessmentId) == Some(row.assessmentId) && Uuid(input.attemptId) == Some(row.attemptId)
    && row.subject == p.ctx.subject && row.exposureId == input.exposureId
    && row.dimension == input.dimension && row.impact == input.impact && row.basis == input.basis
    && row.confidence == input.confidence
    && row.procedure == input.procedure && IsStableCode(row.procedure)
    && row.procedureVersion == input.procedureVersion && IsStableCode(row.procedureVersion)
    && p.created >= -DAY && row.createdAt == IsoText(p.created)
    && row.claim == (match input.claim case None => Observational case Some(claim) => claim)
  }

  lemma {:induction false} AllLinked(db: Database, ids: seq<string>, rows: seq<Evidence>)
    ensures LinkedEvidence(db, ids) == Some(rows) <==>
            |rows| == |ids| && forall i :: 0 <= i < |ids| ==> ids[i] in db.evidence && db.evidence[ids[i]] == rows[i]
  {
    if ids != [] {
      if rows != [] {
        AllLinked(db, ids[1..], rows[1..]);
        assert rows == [rows[0]] + rows[1..];
      }
      assert LinkedEvidence(db, ids) == Some(rows) ==> rows != [];
    }
  }

  lemma PreparedDescribes(db: Database, input: Input, p: Prepared)
    ensures Prepare(db, input) == Ok(p) <==> Describes(db, input, p)
  {
    hide Uuid; hide NormalizedIds; hide LinkedEvidence; hide TimestampInstant;
    AllLinked(db, p.evidenceIds, p.evidence);
  }

  /** The checks of the input itself, in the order in which the source reaches them. */
  const CHECKS := [
    InvalidAttemptId, MissingAttempt, InvalidExposureId, InvalidEvidenceIds, MissingEvidence, InvalidTimestamp]

  ghost predicate Passes(check: Error, db: Database, input: Input) {
    match check
    case InvalidAttemptId => Uuid(input.attemptId).Some?
    case MissingAttempt =>
      exists id :: Uuid(input.attemptId) == Some(id) && id in db.attempts && db.attempts[id].valid
    case InvalidExposureId => ExposureIdFits(input)
    case InvalidEvidenceIds => NormalizedIds(input.evidenceIds).Some?
    case MissingEvidence =>
      NormalizedIds(input.evidenceIds).Some? ==>
        forall id :: id in NormalizedIds(input.evidenceIds).value ==> id in db.evidence
    case InvalidTimestamp => TimestampInstant(input.createdAt).Some?
    case _ => true
  }

  lemma {:induction false} LinkedWhenStored(db: Database, ids: seq<string>)
    ensures LinkedEvidence(db, ids).Some? <==> forall id :: id in ids ==> id in db.evidence
  {
    if ids != [] {
      LinkedWhenStored(db, ids[1..]);
      assert forall id :: id in ids <==> id == ids[0] || id in ids[1..];
    }
  }

  /** An input that fails a check is refused with the first one it fails. */
  lemma PrepareRefusesFirst(db: Database, input: Input, n: nat)
    requires n < |CHECKS| && !Passes(CHECKS[n], db, input)
    requires forall i :: 0 <= i < n ==> Passes(CHECKS[i], db, input)
    ensures Canonical(db, input) == Err(CHECKS[n])
  {
    hide Uuid; hide NormalizedIds; hide LinkedEvidence; hide TimestampInstant; hide Refusal; hide IsStableCode;
    assert CHECKS[0] == InvalidAttemptId && CHECKS[1] == MissingAttempt && CHECKS[2] == InvalidExposureId;
    assert CHECKS[3] == InvalidEvidenceIds && CHECKS[4] == MissingEvidence && CHECKS[5] == InvalidTimestamp;
    if NormalizedIds(input.evidenceIds).Some? {
      LinkedWhenStored(db, NormalizedIds(input.evidenceIds).value);
    }
  }

  lemma SomeRowDescribed(db: Database, input: Input, p: Prepared)
    requires Describes(db, input, p)
    ensures p.evidence != []
  {
    assert Lower(input.evidenceIds[0]) in LowerSet(input.evidenceIds) by {
      assert input.evidenceIds[0] in input.evidenceIds;
    }
    SortedElements(input.evidenceIds);
  }

  /**
   * `canonical` in columns: exactly the inputs whose stored subject and rows open every gate are accepted, and the
   * row is theirs.
   */
  lemma AcceptedIff(db: Database, input: Input, row: Row)
    ensures Canonical(db, input) == Ok(row) <==>
            exists p :: Describes(db, input, p) && AllOpen(db, p, input) && StoredAs(input, p, row)
  {
    hide Describes; hide AllOpen; hide Uuid; hide Refusal; hide IsStableCode; hide IsoText; hide Prepare;
    forall p ensures Prepare(db, input) == Ok(p) <==> Describes(db, input, p) {
      PreparedDescribes(db, input, p);
    }
    forall p | Describes(db, input, p)
      ensures RefusalOf(db, p, input).None? <==> AllOpen(db, p, input)
      ensures p.ctx.subject == SubjectOf(input)
    {
      SomeRowDescribed(db, input, p);
      RefusalIsFirstClosed(db, p, input);
      DescribedSubject(db, input, p);
    }
  }

  lemma DescribedSubject(db: Database, input: Input, p: Prepared)
    requires Describes(db, input, p)
    ensures p.ctx.subject == SubjectOf(input)
  {
    hide Uuid; hide NormalizedIds; hide TimestampInstant;
  }

  /** Described inputs are refused with the first closed gate, then for their own identifiers. */
  lemma RefusedFirst(db: Database, input: Input, p: Prepared)
    requires Describes(db, input, p)
    ensures forall n: nat :: FirstClosed(n, db, p, input) ==> Canonical(db, input) == Err(GATES[n])
    ensures AllOpen(db, p, input) && Uuid(input.assessmentId).None? ==> Canonical(db, input) == Err(InvalidAssessmentId)
    ensures AllOpen(db, p, input) && Uuid(input.assessmentId).Some? &&
            !(IsStableCode(input.procedure) && IsStableCode(input.procedureVersion)) ==>
              Canonical(db, input) == Err(InvalidProcedure)
  {
    hide Describes; hide AllOpen; hide Uuid; hide Refusal; hide IsStableCode; hide IsoText; hide Prepare;
    hide FirstClosed;
    PreparedDescribes(db, input, p);
    SomeRowDescribed(db, input, p);
    RefusalIsFirstClosed(db, p, input);
  }

  /** What an accepted known label on observational grounds means: the rows tell it, and they tell no other. */
  lemma AcceptedLabelIsTold(db: Database, input: Input, p: Prepared, known: Label)
    requires Canonical(db, input).Ok? && Describes(db, input, p)
    requires input.impact == Known(known) && input.basis != RandomizedContrast
    ensures input.basis != TemporalFollowup
    ensures forall l :: Told(p.ctx, p.evidence, l) <==> l == known
  {
    hide Describes; hide Canonical; hide Told; hide GATES;
    var row := Canonical(db, input).value;
    AcceptedIff(db, input, row);
    var q :| Describes(db, input, q) && AllOpen(db, q, input) && StoredAs(input, q, row);
    PreparedDescribes(db, input, p);
    PreparedDescribes(db, input, q);
    LabelIsOpen(db, q, input);
    forall l ensures Told(p.ctx, p.evidence, l) <==> l == known {
      assert Shows(db, p.ctx, input.basis, p.evidence, l) <==> l == known;
    }
  }

  lemma LabelIsOpen(db: Database, p: Prepared, input: Input)
    requires AllOpen(db, p, input)
    ensures LabelFits(db, p.ctx, input.impact, input.basis, p.evidence)
  {
    hide LabelFits;
    GatesInOrder();
    assert Opens(GATES[9], db, p, input);
  }

  /** A known label on such a basis does have a row behind it: one that says it, or one of a located success. */
  lemma ExposureLabelHasWitness(db: Database, input: Input, p: Prepared, known: Label) returns (row: Evidence)
    requires Canonical(db, input).Ok? && Describes(db, input, p)
    requires input.impact == Known(known) && input.basis != RandomizedContrast
    ensures IsLabelWitness(p.ctx, known, p.evidence, row)
    ensures row in p.evidence && Testifies(p.ctx, row)
    ensures || Says(row, known)
            || (known == Helpful && LocatedSuccess(p.ctx, p.evidence) && (Locates(row) || WentWell(row)))
  {
    AcceptedLabelIsTold(db, input, p, known);
    assert Told(p.ctx, p.evidence, known);
    hide Testifies; hide Says; hide Locates; hide WentWell; hide IsLabelWitness; hide Canonical; hide Describes;
    if r :| r in p.evidence && Testifies(p.ctx, r) && Says(r, known) {
      row := r;
    } else {
      row :| row in p.evidence && Testifies(p.ctx, row) && Locates(row);
    }
    LabelWitnessBacks(p.ctx, known, p.evidence, row);
  }
}
