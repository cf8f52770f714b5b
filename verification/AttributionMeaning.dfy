/**
 * What the linked rows say, in their own columns: whom each row speaks about, which label it stands for by itself,
 * and which label compared rows show. The label gate is proved to ask exactly this.
 */
module AttributionMeaning {
  import opened Collections
  import opened AttributionRecords
  import opened AttributionSubject
  import opened AttributionRandomized
  import opened AttributionMatching
  import opened AttributionAdmission

  // ---- Whom a row speaks about -------------------------------------------------------------------------

  /** An exposure of the attempt that crossed the consumer boundary. */
  ghost predicate Delivered(attempt: Attempt, e: Exposure) {
    && e in attempt.exposures && attempt.deliveryStatus == HandedOff
    && e.disposition == Selected && e.handoffStatus == HandedOff
  }

  /** The row's codes name the exposure, by its id or by its memory. */
  ghost predicate Mentions(row: Evidence, e: Exposure) {
    || NamesExposure(e.exposureId) in row.references.codes
    || exists key :: NamesMemory(key) in row.references.codes && e.memoryImportKey == Some(key)
  }

  /** Of the delivered exposures the row mentions this one and no other. */
  ghost predicate MentionsOnly(attempt: Attempt, row: Evidence, id: int) {
    && (exists e :: Delivered(attempt, e) && Mentions(row, e))
    && forall e :: Delivered(attempt, e) && Mentions(row, e) ==> e.exposureId == id
  }

  /** The attempt selected one exposure, and it is the only one delivered. */
  ghost predicate OnlyDelivery(attempt: Attempt, id: int) {
    && attempt.selectedCount == 1
    && exists i: nat ::
         && OnlyPlace(attempt.exposures, (e: Exposure) => Delivered(attempt, e), i)
         && attempt.exposures[i].exposureId == id
  }

  /** The row speaks about the assessed attempt or exposure. */
  ghost predicate Concerns(ctx: Context, row: Evidence) {
    match ctx.subject
    case AttemptSubject =>
      || NamesAttempt(ctx.attempt.attemptId) in row.references.codes
      || exists e :: Delivered(ctx.attempt, e) && Mentions(row, e)
    case ExposureSubject =>
      && ctx.exposureId.Some?
      && (|| MentionsOnly(ctx.attempt, row, ctx.exposureId.value)
          || (OnlyDelivery(ctx.attempt, ctx.exposureId.value) &&
              NamesAttempt(ctx.attempt.attemptId) in row.references.codes))
  }

  /** It does, and was observed no earlier than the retrieval completed. */
  ghost predicate Testifies(ctx: Context, row: Evidence) {
    Concerns(ctx, row) && ctx.attempt.completedAt.Some? && ctx.attempt.completedAt.value <= row.observedAt
  }

  lemma EligibleMeansDelivered(attempt: Attempt, e: Exposure)
    ensures e in EligibleExposures(attempt) <==> Delivered(attempt, e)
  {
  }

  lemma NamingMeansMention(row: Evidence, e: Exposure)
    ensures CodesNameExposure(row.references.codes, e) <==> Mentions(row, e)
  {
  }

  lemma ReferencedMeansMentioned(attempt: Attempt, row: Evidence, id: int)
    ensures id in ReferencedExposureIds(attempt, row.references.codes) <==>
            exists e :: Delivered(attempt, e) && Mentions(row, e) && e.exposureId == id
  {
    hide EligibleExposures; hide CodesNameExposure; hide Delivered; hide Mentions;
    forall e
      ensures e in EligibleExposures(attempt) <==> Delivered(attempt, e)
      ensures CodesNameExposure(row.references.codes, e) <==> Mentions(row, e)
    {
      EligibleMeansDelivered(attempt, e);
      NamingMeansMention(row, e);
    }
  }

  lemma SomeElement<T>(s: set<T>) returns (x: T)
    requires |s| > 0
    ensures x in s
  {
    x :| x in s;
  }

  lemma SomeReferenced(attempt: Attempt, row: Evidence)
    ensures |ReferencedExposureIds(attempt, row.references.codes)| > 0 <==>
            exists e :: Delivered(attempt, e) && Mentions(row, e)
  {
    hide ReferencedExposureIds; hide Delivered; hide Mentions;
    var ids := ReferencedExposureIds(attempt, row.references.codes);
    if |ids| > 0 {
      var id := SomeElement(ids);
      ReferencedMeansMentioned(attempt, row, id);
    }
    if e :| Delivered(attempt, e) && Mentions(row, e) {
      ReferencedMeansMentioned(attempt, row, e.exposureId);
    }
  }

  lemma Singleton<T>(s: set<T>, x: T)
    requires x in s && forall y :: y in s ==> y == x
    ensures |s| == 1
  {
    assert s == {x};
  }

  lemma OnlyReferenced(attempt: Attempt, row: Evidence, id: int)
    ensures ReferencesSubject(attempt, ExposureSubject, Some(id), row.references.codes) <==>
            MentionsOnly(attempt, row, id)
  {
    hide ReferencedExposureIds; hide Delivered; hide Mentions;
    var ids := ReferencedExposureIds(attempt, row.references.codes);
    forall other
      ensures other in ids <==> exists e :: Delivered(attempt, e) && Mentions(row, e) && e.exposureId == other
    {
      ReferencedMeansMentioned(attempt, row, other);
    }
    if |ids| == 1 && id in ids {
      forall other | other in ids ensures other == id {
        OnlyElement(ids, id, other);
      }
      forall e | Delivered(attempt, e) && Mentions(row, e) ensures e.exposureId == id {
        assert e.exposureId in ids;
      }
    }
    if MentionsOnly(attempt, row, id) {
      var e :| Delivered(attempt, e) && Mentions(row, e);
      assert e.exposureId == id && id in ids;
      forall other | other in ids ensures other == id {
        var f :| Delivered(attempt, f) && Mentions(row, f) && f.exposureId == other;
      }
      Singleton(ids, id);
    }
  }

  lemma SamePlace(attempt: Attempt, crossed: Exposure -> bool, i: nat)
    requires forall e :: e in attempt.exposures ==> (crossed(e) <==> Delivered(attempt, e))
    ensures OnlyPlace(attempt.exposures, crossed, i) <==>
            OnlyPlace(attempt.exposures, (e: Exposure) => Delivered(attempt, e), i)
  {
    hide Delivered;
    assert forall j :: 0 <= j < |attempt.exposures| ==> attempt.exposures[j] in attempt.exposures;
  }

  lemma IsolatedMeansOnly(attempt: Attempt, id: int)
    ensures IsolatedExposure(attempt) == Some(id) <==> OnlyDelivery(attempt, id)
  {
    var crossed := (e: Exposure) => e.disposition == Selected && e.handoffStatus == HandedOff;
    FilterOne(attempt.exposures, crossed);
    if attempt.deliveryStatus == HandedOff {
      assert EligibleExposures(attempt) == Filter(attempt.exposures, crossed);
      hide Filter;
      forall i: nat
        ensures OnlyPlace(attempt.exposures, crossed, i) <==>
                OnlyPlace(attempt.exposures, (e: Exposure) => Delivered(attempt, e), i)
      {
        SamePlace(attempt, crossed, i);
      }
      if i: nat :| OnlyPlace(attempt.exposures, crossed, i) {
        assert attempt.exposures[i] in EligibleExposures(attempt);
        SoleElement(EligibleExposures(attempt), attempt.exposures[i]);
      }
      if OnlyDelivery(attempt, id) {
        var i: nat :| OnlyPlace(attempt.exposures, (e: Exposure) => Delivered(attempt, e), i)
                      && attempt.exposures[i].exposureId == id;
        assert OnlyPlace(attempt.exposures, crossed, i);
        assert attempt.exposures[i] in EligibleExposures(attempt);
        SoleElement(EligibleExposures(attempt), attempt.exposures[i]);
      }
    }
  }

  lemma NamingMeansConcern(ctx: Context, row: Evidence)
    ensures RowNamesSubject(ctx.attempt, ctx.subject, ctx.exposureId, row) <==> Concerns(ctx, row)
  {
    hide ReferencedExposureIds; hide IsolatedExposure; hide OnlyDelivery; hide Delivered; hide Mentions;
    SomeReferenced(ctx.attempt, row);
    if ctx.exposureId.Some? {
      OnlyReferenced(ctx.attempt, row, ctx.exposureId.value);
      IsolatedMeansOnly(ctx.attempt, ctx.exposureId.value);
    }
    hide MentionsOnly;
  }

  lemma SubjectRowTestifies(ctx: Context, row: Evidence)
    ensures SubjectRow(ctx, row) <==> Testifies(ctx, row)
  {
    hide RowNamesSubject; hide Concerns;
    NamingMeansConcern(ctx, row);
  }

  // ---- What a row says -----------------------------------------------------------------------------------

  /** A user's own feedback of this kind, given by an action that passed a gate. */
  ghost predicate UserSays(row: Evidence, kind: EvidenceType) {
    && row.evidenceType == kind && row.sourceClass == UserReported
    && row.references.feedbackActionId.Some? && row.references.feedbackGate.Some?
  }

  ghost predicate EvaluatorSays(row: Evidence, kinds: set<EvidenceType>, rubricSuffices: bool) {
    && row.evidenceType in kinds && row.sourceClass == Evaluator
    && (row.references.adjudicationId.Some? || (rubricSuffices && row.references.rubricId.Some?))
  }

  ghost predicate CheckoutShows(row: Evidence, kinds: set<EvidenceType>) {
    row.evidenceType in kinds && row.sourceClass in {Observed, Derived} && row.references.checkoutId.Some?
  }

  /** The row by itself stands for the label. */
  ghost predicate Says(row: Evidence, known: Label) {
    && row.status == Present
    && match known
       case Helpful => UserSays(row, ExplicitHelpful)
       case Irrelevant => UserSays(row, ExplicitIrrelevant) || EvaluatorSays(row, {RetrievalNoise}, true)
       case Stale =>
         || UserSays(row, ExplicitStale)
         || EvaluatorSays(row, {StaleGuidance, ContradictedGuidance}, false)
         || CheckoutShows(row, {StaleGuidance, ContradictedGuidance})
       case Harmful =>
         || UserSays(row, ExplicitHarmful)
         || EvaluatorSays(row, {WrongActionFollowup}, true)
         || CheckoutShows(row, {WrongActionFollowup})
  }

  /** The row found the guidance at a source location, path by path. */
  ghost predicate Locates(row: Evidence) {
    && row.evidenceType == SourceLocationMatch && row.status == Present && row.sourceClass in {Observed, Derived}
    && exists n: int :: n > 0 && |row.references.matchedPaths| == n && row.value == Some(IntegerValue(n, CountUnit))
  }

  /** The row reports a good outcome on grounds that fit its source. */
  ghost predicate WentWell(row: Evidence) {
    && row.dimension == Quality && row.status in {Pass, Mixed}
    && match row.sourceClass
       case Evaluator => row.references.rubricId.Some? || row.references.adjudicationId.Some?
       case Observed | Derived | Experiment =>
         || row.references.checkId.Some? || row.references.checkoutId.Some?
         || (row.references.assertionId.Some? && row.references.rubricId.Some?)
       case UserReported => false
  }

  lemma DirectLabelSays(row: Evidence, known: Label)
    ensures DirectLabel(row) == Some(known) <==> Says(row, known)
  {
  }

  lemma OverlapLocates(row: Evidence)
    ensures SourceOverlap(row) <==> Locates(row)
  {
  }

  lemma PositiveWentWell(row: Evidence)
    ensures PositiveQuality(row) <==> WentWell(row)
  {
  }

  /** A row says one thing at most. */
  lemma SaysOneThing(row: Evidence, first: Label, second: Label)
    requires Says(row, first) && Says(row, second)
    ensures first == second
  {
    DirectLabelSays(row, first);
    DirectLabelSays(row, second);
  }

  // ---- The label on observational bases ------------------------------------------------------------------

  /** Located use and a good outcome together speak for an exposure. */
  ghost predicate LocatedSuccess(ctx: Context, evidence: seq<Evidence>) {
    && ctx.subject == ExposureSubject
    && (exists r :: r in evidence && Testifies(ctx, r) && Locates(r))
    && (exists r :: r in evidence && Testifies(ctx, r) && WentWell(r))
  }

  /** The linked rows speak for the label. */
  ghost predicate Told(ctx: Context, evidence: seq<Evidence>, known: Label) {
    || (exists r :: r in evidence && Testifies(ctx, r) && Says(r, known))
    || (known == Helpful && LocatedSuccess(ctx, evidence))
  }

  ghost predicate OnlyTold(ctx: Context, evidence: seq<Evidence>, known: Label) {
    forall l :: Told(ctx, evidence, l) <==> l == known
  }

  lemma RowsTestify(ctx: Context, evidence: seq<Evidence>, row: Evidence)
    ensures row in SubjectRows(ctx, evidence) <==> row in evidence && Testifies(ctx, row)
  {
    SubjectRowTestifies(ctx, row);
    hide SubjectRow; hide Testifies;
  }

  lemma LocatedMeansSuccess(ctx: Context, evidence: seq<Evidence>)
    ensures LocatedQuality(ctx, SubjectRows(ctx, evidence)) <==> LocatedSuccess(ctx, evidence)
  {
    hide SubjectRows; hide SourceOverlap; hide PositiveQuality; hide Testifies; hide Locates; hide WentWell;
    var rows := SubjectRows(ctx, evidence);
    forall r ensures r in rows <==> r in evidence && Testifies(ctx, r) {
      RowsTestify(ctx, evidence, r);
    }
    forall r ensures SourceOverlap(r) <==> Locates(r) {
      OverlapLocates(r);
    }
    forall r ensures PositiveQuality(r) <==> WentWell(r) {
      PositiveWentWell(r);
    }
  }

  lemma SupportIsTold(ctx: Context, evidence: seq<Evidence>, known: Label)
    ensures known in ObservationalSupport(ctx, SubjectRows(ctx, evidence)) <==> Told(ctx, evidence, known)
  {
    hide SubjectRows; hide DirectLabel; hide LocatedQuality; hide LocatedSuccess; hide Testifies; hide Says;
    LocatedMeansSuccess(ctx, evidence);
    var rows := SubjectRows(ctx, evidence);
    forall r ensures r in rows <==> r in evidence && Testifies(ctx, r) {
      RowsTestify(ctx, evidence, r);
    }
    forall r ensures DirectLabel(r) == Some(known) <==> Says(r, known) {
      DirectLabelSays(r, known);
    }
  }

  // ---- The label on randomized contrasts ------------------------------------------------------------------

  ghost predicate HasIdentifiers(row: Evidence) {
    || row.references.checkId.Some? || row.references.assertionId.Some?
    || row.references.checkoutId.Some? || row.references.fixtureId.Some?
  }

  /** The row can be compared: it concerns the subject or, for an attempt, carries an identifier. */
  ghost predicate Comparable(ctx: Context, row: Evidence) {
    Concerns(ctx, row) || (ctx.subject == AttemptSubject && HasIdentifiers(row))
  }

  /** Two rows are compared with each other: one type, one set of identifiers and one rubric with them. */
  ghost predicate Compared(ctx: Context, r: Evidence, s: Evidence) {
    && Comparable(ctx, r) && Comparable(ctx, s) && r.evidenceType == s.evidenceType
    && (HasIdentifiers(r) || HasIdentifiers(s) ==>
          && r.references.checkId == s.references.checkId && r.references.assertionId == s.references.assertionId
          && r.references.checkoutId == s.references.checkoutId && r.references.fixtureId == s.references.fixtureId
          && r.references.rubricId == s.references.rubricId)
  }

  lemma KeysAgree(ctx: Context, r: Evidence, s: Evidence)
    ensures ComparisonKey(ctx, r).Some? && ComparisonKey(ctx, r) == ComparisonKey(ctx, s) <==> Compared(ctx, r, s)
  {
    hide RowNamesSubject; hide MentionsOnly; hide OnlyDelivery; hide Delivered; hide Mentions;
    NamingMeansConcern(ctx, r);
    NamingMeansConcern(ctx, s);
  }

  /** Every linked row belongs to an attempt, and this one follows the completion of its own. */
  ghost predicate Counts(db: Database, attempt: Attempt, evidence: seq<Evidence>, row: Evidence) {
    && row in evidence
    && (forall r :: r in evidence ==> exists id :: BelongsTo(db, attempt, r, id))
    && exists id :: BelongsTo(db, attempt, row, id) && db.attempts[id].columns.completedAt.value <= row.observedAt
  }

  ghost function Group(db: Database, ctx: Context, evidence: seq<Evidence>, row: Evidence): set<Evidence> {
    set r | r in evidence && Counts(db, ctx.attempt, evidence, r) && Compared(ctx, row, r)
  }

  /** The row counts, and the rows compared with it show the label. */
  ghost predicate GroupShows(db: Database, ctx: Context, evidence: seq<Evidence>, row: Evidence, known: Label) {
    && Counts(db, ctx.attempt, evidence, row) && Comparable(ctx, row)
    && ctx.attempt.experimentCellId.Some?
    && exists outcome ::
         Reads(ctx.attempt.experimentCellId.value, Group(db, ctx, evidence, row), outcome, known)
  }

  lemma EligibleCounts(db: Database, attempt: Attempt, evidence: seq<Evidence>, row: Evidence)
    ensures row in AfterCellCompletion(db, attempt, evidence) <==> Counts(db, attempt, evidence, row)
  {
    hide AllMatched; hide AfterItsAttempt; hide BelongsTo;
    AllBelong(db, attempt, evidence);
    FollowsInColumns(db, attempt, row);
    forall id | BelongsTo(db, attempt, row, id) ensures id in db.attempts && db.attempts[id].columns.completedAt.Some? {
      BelongingIsStored(db, attempt, row, id);
    }
  }

  lemma GroupsAgree(db: Database, ctx: Context, evidence: seq<Evidence>, row: Evidence)
    requires ComparisonKey(ctx, row).Some?
    ensures GroupOf(ctx, Rows(AfterCellCompletion(db, ctx.attempt, evidence)), ComparisonKey(ctx, row).value)
            == Group(db, ctx, evidence, row)
  {
    hide AfterCellCompletion; hide ComparisonKey; hide Compared; hide Counts;
    var eligible := AfterCellCompletion(db, ctx.attempt, evidence);
    forall r
      ensures r in eligible <==> Counts(db, ctx.attempt, evidence, r)
      ensures Counts(db, ctx.attempt, evidence, r) ==> r in evidence
      ensures ComparisonKey(ctx, r) == ComparisonKey(ctx, row) <==> Compared(ctx, row, r)
    {
      EligibleCounts(db, ctx.attempt, evidence, r);
      CountedIsLinked(db, ctx.attempt, evidence, r);
      KeysAgree(ctx, row, r);
    }
  }

  lemma CountedIsLinked(db: Database, attempt: Attempt, evidence: seq<Evidence>, row: Evidence)
    ensures Counts(db, attempt, evidence, row) ==> row in evidence
  {
    hide BelongsTo;
  }

  lemma WitnessShows(db: Database, ctx: Context, evidence: seq<Evidence>, row: Evidence, known: Label)
    ensures IsWitness(ctx, AfterCellCompletion(db, ctx.attempt, evidence), row, known) <==>
            GroupShows(db, ctx, evidence, row, known)
  {
    hide AfterCellCompletion; hide ComparisonKey; hide Counts; hide ResolvesTo; hide Reads; hide Group;
    hide GroupOf; hide Concerns; hide HasIdentifiers;
    EligibleCounts(db, ctx.attempt, evidence, row);
    KeysAgree(ctx, row, row);
    if ComparisonKey(ctx, row).Some? && ctx.attempt.experimentCellId.Some? {
      GroupsAgree(db, ctx, evidence, row);
      ResolvesByReadings(ctx.attempt.experimentCellId.value, Group(db, ctx, evidence, row), known);
    }
  }

  // ---- The label gate --------------------------------------------------------------------------------------

  /** The linked rows show the label, on this basis. */
  ghost predicate Shows(db: Database, ctx: Context, basis: Basis, evidence: seq<Evidence>, known: Label) {
    if basis == RandomizedContrast then exists r :: r in evidence && GroupShows(db, ctx, evidence, r, known)
    else Told(ctx, evidence, known)
  }

  ghost predicate ShowsOnly(db: Database, ctx: Context, basis: Basis, evidence: seq<Evidence>, known: Label) {
    forall l :: Shows(db, ctx, basis, evidence, l) <==> l == known
  }

  ghost predicate LabelFits(db: Database, ctx: Context, impact: Impact, basis: Basis, evidence: seq<Evidence>) {
    match impact
    case Known(known) => basis != TemporalFollowup && ShowsOnly(db, ctx, basis, evidence, known)
    case Unknown => forall known :: !ShowsOnly(db, ctx, basis, evidence, known)
  }

  lemma SupportShows(db: Database, ctx: Context, basis: Basis, evidence: seq<Evidence>, known: Label)
    ensures known in Support(db, ctx, basis, evidence) <==> Shows(db, ctx, basis, evidence, known)
  {
    hide AfterCellCompletion; hide SubjectRows; hide ObservationalSupport; hide Told; hide IsWitness; hide GroupShows;
    if basis == RandomizedContrast {
      forall r
        ensures IsWitness(ctx, AfterCellCompletion(db, ctx.attempt, evidence), r, known)
                <==> GroupShows(db, ctx, evidence, r, known)
        ensures IsWitness(ctx, AfterCellCompletion(db, ctx.attempt, evidence), r, known)
                ==> r in evidence && r in AfterCellCompletion(db, ctx.attempt, evidence)
      {
        WitnessShows(db, ctx, evidence, r, known);
        WitnessIsLinked(db, ctx, evidence, r, known);
      }
    } else {
      SupportIsTold(ctx, evidence, known);
    }
  }

  lemma WitnessIsLinked(db: Database, ctx: Context, evidence: seq<Evidence>, row: Evidence, known: Label)
    ensures IsWitness(ctx, AfterCellCompletion(db, ctx.attempt, evidence), row, known) ==>
              row in evidence && row in AfterCellCompletion(db, ctx.attempt, evidence)
  {
    hide ComparisonKey; hide ResolvesTo; hide AllMatched; hide AfterItsAttempt; hide GroupOf;
  }

  /** `supportsLabel`: a known label is shown and no other is; "unknown" means that not exactly one is shown. */
  lemma LabelGate(db: Database, ctx: Context, impact: Impact, basis: Basis, evidence: seq<Evidence>)
    ensures SupportsLabel(db, ctx, impact, basis, evidence) <==> LabelFits(db, ctx, impact, basis, evidence)
  {
    hide Support; hide Shows;
    var support := Support(db, ctx, basis, evidence);
    forall l ensures l in support <==> Shows(db, ctx, basis, evidence, l) {
      SupportShows(db, ctx, basis, evidence, l);
    }
    forall known ensures |support| == 1 && known in support <==> ShowsOnly(db, ctx, basis, evidence, known) {
      if |support| == 1 && known in support {
        forall l | l in support ensures l == known {
          OnlyElement(support, known, l);
        }
      }
      if ShowsOnly(db, ctx, basis, evidence, known) {
        assert known in support;
        Singleton(support, known);
      }
    }
    if |support| == 1 {
      var known := SomeElement(support);
      assert ShowsOnly(db, ctx, basis, evidence, known);
    }
  }

  /** Where testifying rows all say one label, and none locates the guidance, that label is shown alone. */
  lemma OneKindShows(db: Database, ctx: Context, basis: Basis, evidence: seq<Evidence>, known: Label)
    requires basis != RandomizedContrast
    requires exists r :: r in evidence && Testifies(ctx, r) && Says(r, known)
    requires forall r :: r in evidence && Testifies(ctx, r) ==> Says(r, known) && !Locates(r)
    ensures ShowsOnly(db, ctx, basis, evidence, known)
  {
    hide Says; hide Testifies; hide Locates; hide WentWell;
    forall l | Told(ctx, evidence, l) ensures l == known {
      var r :| r in evidence && Testifies(ctx, r) && Says(r, l);
      SaysOneThing(r, l, known);
    }
  }

  /** Rows of one kind alone support the label they say, and no other impact. */
  lemma OneKindDecides(db: Database, ctx: Context, impact: Impact, basis: Basis, evidence: seq<Evidence>, known: Label)
    requires basis != RandomizedContrast && basis != TemporalFollowup
    requires exists r :: r in evidence && Testifies(ctx, r) && Says(r, known)
    requires forall r :: r in evidence && Testifies(ctx, r) ==> Says(r, known) && !Locates(r)
    ensures SupportsLabel(db, ctx, impact, basis, evidence) <==> impact == Known(known)
  {
    OneKindShows(db, ctx, basis, evidence, known);
    LabelGate(db, ctx, impact, basis, evidence);
    hide SupportsLabel; hide Shows;
    assert Shows(db, ctx, basis, evidence, known);
  }
}
