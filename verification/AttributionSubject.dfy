/** Which evidence rows name the assessed attempt or exposure, and when they may witness for it. */
module AttributionSubject {
  import opened Collections
  import opened AttributionRecords

  /** The exposures that crossed the consumer boundary. */
  function EligibleExposures(attempt: Attempt): seq<Exposure> {
    if attempt.deliveryStatus != HandedOff then []
    else Filter(attempt.exposures, (e: Exposure) => e.disposition == Selected && e.handoffStatus == HandedOff)
  }

  function IsolatedExposure(attempt: Attempt): Option<int> {
    var eligible := EligibleExposures(attempt);
    if attempt.selectedCount == 1 && |eligible| == 1 then Some(eligible[0].exposureId) else None
  }

  /** The union of the codes of the given rows. */
  function Codes(rows: seq<Evidence>): set<ReferenceCode> {
    set row, code | row in rows && code in row.references.codes :: code
  }

  predicate CodesNameExposure(codes: set<ReferenceCode>, exposure: Exposure) {
    NamesExposure(exposure.exposureId) in codes ||
    (exposure.memoryImportKey.Some? && NamesMemory(exposure.memoryImportKey.value) in codes)
  }

  function ReferencedExposureIds(attempt: Attempt, codes: set<ReferenceCode>): set<int> {
    set e | e in EligibleExposures(attempt) && CodesNameExposure(codes, e) :: e.exposureId
  }

  predicate ReferencesSubject(attempt: Attempt, subject: Subject, exposureId: Option<int>, codes: set<ReferenceCode>) {
    var referenced := ReferencedExposureIds(attempt, codes);
    match subject
    case AttemptSubject => NamesAttempt(attempt.attemptId) in codes || |referenced| > 0
    case ExposureSubject => exposureId.Some? && |referenced| == 1 && exposureId.value in referenced
  }

  /** `referencesAssessmentSubject`, on the codes of the rows it is given. */
  predicate NamesSubject(attempt: Attempt, subject: Subject, exposureId: Option<int>, codes: set<ReferenceCode>) {
    || ReferencesSubject(attempt, subject, exposureId, codes)
    || (subject == ExposureSubject && exposureId.Some? && IsolatedExposure(attempt) == exposureId &&
        NamesAttempt(attempt.attemptId) in codes)
  }

  predicate RowNamesSubject(attempt: Attempt, subject: Subject, exposureId: Option<int>, row: Evidence) {
    NamesSubject(attempt, subject, exposureId, row.references.codes)
  }

  predicate AfterCompletion(attempt: Attempt, row: Evidence) {
    attempt.completedAt.Some? && row.observedAt >= attempt.completedAt.value
  }

  predicate SupportsExposure(attempt: Attempt, exposureId: int, evidence: seq<Evidence>) {
    && (exists e :: e in EligibleExposures(attempt) && e.exposureId == exposureId)
    && (|| IsolatedExposure(attempt) == Some(exposureId)
        || exists row :: row in evidence &&
             ReferencesSubject(attempt, ExposureSubject, Some(exposureId), row.references.codes))
  }

  /** `correlates`. */
  predicate Correlates(attempt: Attempt, row: Evidence, exposureId: Option<int>) {
    var codes := row.references.codes;
    || NamesAttempt(attempt.attemptId) in codes
    || (exposureId.Some? && NamesExposure(exposureId.value) in codes)
    || (attempt.sessionId.Some? && row.sessionId == attempt.sessionId)
    || (attempt.source.Some? && attempt.streamId.Some? &&
        row.source == attempt.source && row.streamId == attempt.streamId)
    || (attempt.source.Some? && attempt.sourceSessionId.Some? &&
        row.source == attempt.source && row.sourceSessionId == attempt.sourceSessionId)
    || (attempt.experimentId.Some? && row.experimentId == attempt.experimentId)
  }

  // ---- Isolation ------------------------------------------------------------------------------

  lemma OnlyElement<T>(s: set<T>, x: T, y: T)
    requires |s| == 1 && x in s && y in s
    ensures x == y
  {
    var rest := s - {x};
    assert |rest| == 0;
    assert y !in rest;
  }

  lemma ReferencedWitness(attempt: Attempt, codes: set<ReferenceCode>, id: int) returns (e: Exposure)
    requires id in ReferencedExposureIds(attempt, codes)
    ensures e in EligibleExposures(attempt) && e.exposureId == id && CodesNameExposure(codes, e)
  {
    hide EligibleExposures; hide CodesNameExposure;
    e :| e in EligibleExposures(attempt) && CodesNameExposure(codes, e) && e.exposureId == id;
  }

  lemma SoleElement<T>(s: seq<T>, x: T)
    requires |s| == 1 && x in s
    ensures s[0] == x
  {
  }

  /** An exposure isolated by its attempt is the only one a row can reference. */
  lemma IsolatedHasNoRival(attempt: Attempt, codes: set<ReferenceCode>, id: int)
    requires IsolatedExposure(attempt).Some? && id in ReferencedExposureIds(attempt, codes)
    ensures IsolatedExposure(attempt) == Some(id)
  {
    hide EligibleExposures; hide ReferencedExposureIds;
    var e := ReferencedWitness(attempt, codes, id);
    SoleElement(EligibleExposures(attempt), e);
  }

  /** Whatever a row's codes are, it can witness for at most one exposure of an attempt. */
  lemma OneExposurePerRow(attempt: Attempt, first: int, second: int, row: Evidence)
    requires RowNamesSubject(attempt, ExposureSubject, Some(first), row)
    requires RowNamesSubject(attempt, ExposureSubject, Some(second), row)
    ensures first == second
  {
    hide IsolatedExposure; hide ReferencedExposureIds;
    var codes := row.references.codes;
    var referenced := ReferencedExposureIds(attempt, codes);
    if IsolatedExposure(attempt).Some? {
      if first in referenced {
        IsolatedHasNoRival(attempt, codes, first);
      }
      if second in referenced {
        IsolatedHasNoRival(attempt, codes, second);
      }
    } else {
      OnlyElement(referenced, first, second);
    }
  }

  lemma NamedIsReferenced(attempt: Attempt, codes: set<ReferenceCode>, e: Exposure)
    requires e in EligibleExposures(attempt) && CodesNameExposure(codes, e)
    ensures e.exposureId in ReferencedExposureIds(attempt, codes)
  {
    hide EligibleExposures; hide CodesNameExposure;
  }

  /** A row that names an exposure names no eligible sibling, by id or by memory. */
  lemma NoSiblingNamed(attempt: Attempt, exposureId: int, row: Evidence, sibling: Exposure)
    requires RowNamesSubject(attempt, ExposureSubject, Some(exposureId), row)
    requires sibling in EligibleExposures(attempt) && sibling.exposureId != exposureId
    ensures !CodesNameExposure(row.references.codes, sibling)
  {
    hide IsolatedExposure; hide ReferencedExposureIds; hide EligibleExposures; hide CodesNameExposure;
    var codes := row.references.codes;
    var referenced := ReferencedExposureIds(attempt, codes);
    if CodesNameExposure(codes, sibling) {
      NamedIsReferenced(attempt, codes, sibling);
      if |referenced| == 1 && exposureId in referenced {
        OnlyElement(referenced, exposureId, sibling.exposureId);
      } else {
        IsolatedHasNoRival(attempt, codes, sibling.exposureId);
      }
    }
  }

  // ---- Memory references ------------------------------------------------------------------------

  predicate HasExactReference(attempt: Attempt, subject: Subject, exposureId: Option<int>, row: Evidence) {
    var codes := row.references.codes;
    if NamesAttempt(attempt.attemptId) in codes then
      subject == AttemptSubject || (exposureId.Some? && IsolatedExposure(attempt) == exposureId)
    else if subject == AttemptSubject then
      exists e :: e in EligibleExposures(attempt) && NamesExposure(e.exposureId) in codes
    else
      exposureId.Some? && NamesExposure(exposureId.value) in codes
  }

  /** The attempts one correlation query selects for a row and a memory. */
  predicate DeliveredMemoryBefore(row: AttemptRow, key: string, observedAt: int) {
    && row.contractV1
    && row.columns.deliveryStatus == HandedOff
    && row.columns.completedAt.Some? && row.columns.completedAt.value <= observedAt
    && exists e :: e in row.columns.exposures && e.memoryImportKey == Some(key) &&
         e.disposition == Selected && e.handoffStatus == HandedOff
  }

  datatype Correlation = BySession | ByStream | BySourceSession | ByExperiment

  const CORRELATIONS := [BySession, ByStream, BySourceSession, ByExperiment]

  predicate CorrelatesBy(c: Correlation, row: Evidence, attempt: Attempt) {
    match c
    case BySession => row.sessionId.Some? && attempt.sessionId == row.sessionId
    case ByStream => row.source.Some? && row.streamId.Some? &&
      attempt.source == row.source && attempt.streamId == row.streamId
    case BySourceSession => row.source.Some? && row.sourceSessionId.Some? &&
      attempt.source == row.source && attempt.sourceSessionId == row.sourceSessionId
    case ByExperiment => row.experimentId.Some? && attempt.experimentId == row.experimentId
  }

  function QueryHits(db: Database, row: Evidence, key: string, c: Correlation): set<string> {
    set id | id in db.attempts && DeliveredMemoryBefore(db.attempts[id], key, row.observedAt) &&
             CorrelatesBy(c, row, db.attempts[id].columns)
  }

  /** Every attempt the row could mean when it names the memory. */
  function MemoryCandidates(db: Database, row: Evidence, key: string): set<string> {
    set c, id | c in CORRELATIONS && id in QueryHits(db, row, key, c) :: id
  }

  predicate AmbiguousMemory(db: Database, row: Evidence, key: string) {
    |MemoryCandidates(db, row, key)| > 1
  }

  /**
   * `memoryReferenceAttemptIds` reads at most two hits per query and stops at the second attempt;
   * that is enough to tell one candidate from several.
   */
  method MemoryReferenceAttemptIds(db: Database, row: Evidence, key: string) returns (matching: set<string>)
    ensures matching <= MemoryCandidates(db, row, key)
    ensures |matching| > 1 <==> AmbiguousMemory(db, row, key)
    ensures |matching| <= 1 ==> matching == MemoryCandidates(db, row, key)
  {
    hide QueryHits; hide MemoryCandidates;
    matching := {};
    var i := 0;
    while i < |CORRELATIONS| && |matching| <= 1
      invariant 0 <= i <= |CORRELATIONS|
      invariant matching <= MemoryCandidates(db, row, key)
      invariant |matching| <= 1 ==>
        forall k :: 0 <= k < i ==> QueryHits(db, row, key, CORRELATIONS[k]) <= matching
    {
      var hits := QueryHits(db, row, key, CORRELATIONS[i]);
      HitsAreCandidates(db, row, key, i);
      var limited := AtMostTwo(hits);
      SubsetSize(limited, matching + limited);
      SubsetSize(matching, matching + limited);
      matching := matching + limited;
      i := i + 1;
    }
    SubsetSize(matching, MemoryCandidates(db, row, key));
    if |matching| <= 1 {
      NoOtherCandidates(db, row, key, matching);
    }
  }

  lemma HitsAreCandidates(db: Database, row: Evidence, key: string, i: nat)
    requires i < |CORRELATIONS|
    ensures QueryHits(db, row, key, CORRELATIONS[i]) <= MemoryCandidates(db, row, key)
  {
    hide QueryHits;
    assert CORRELATIONS[i] in CORRELATIONS;
  }

  lemma NoOtherCandidates(db: Database, row: Evidence, key: string, matching: set<string>)
    requires matching <= MemoryCandidates(db, row, key)
    requires forall k :: 0 <= k < |CORRELATIONS| ==> QueryHits(db, row, key, CORRELATIONS[k]) <= matching
    ensures matching == MemoryCandidates(db, row, key)
  {
    hide QueryHits;
    forall id | id in MemoryCandidates(db, row, key) ensures id in matching {
      var c :| c in CORRELATIONS && id in QueryHits(db, row, key, c);
      var k :| 0 <= k < |CORRELATIONS| && CORRELATIONS[k] == c;
    }
  }

  lemma SubsetSize<T>(a: set<T>, b: set<T>)
    requires a <= b
    ensures |a| <= |b|
  {
    assert b == a + (b - a);
  }

  /** `LIMIT 2`: two of the hits, whichever come first, or all of them. */
  method AtMostTwo(hits: set<string>) returns (limited: set<string>)
    ensures limited <= hits
    ensures |limited| <= 1 ==> limited == hits
  {
    if |hits| <= 1 {
      return hits;
    }
    var x :| x in hits;
    assert |hits - {x}| == |hits| - 1;
    var y :| y in hits - {x};
    limited := {x, y};
  }

  /** `assertUnambiguousSubjectMemoryReferences`. */
  predicate UnambiguousMemories(db: Database, attempt: Attempt, subject: Subject, exposureId: Option<int>,
                                evidence: seq<Evidence>) {
    forall row, e ::
      row in evidence && e in EligibleExposures(attempt) &&
      !HasExactReference(attempt, subject, exposureId, row) &&
      e.memoryImportKey.Some? && NamesMemory(e.memoryImportKey.value) in row.references.codes
      ==> !AmbiguousMemory(db, row, e.memoryImportKey.value)
  }
}
