/** Matching each experiment row to the one attempt of its cell whose completion it must follow. */
module AttributionMatching {
  import opened Collections
  import opened AttributionRecords

  /** The attempts stored under an experiment cell, valid or not. */
  function CellIds(db: Database, experiment: string, cell: string): set<string> {
    set id | id in db.attempts && db.attempts[id].columns.experimentId == Some(experiment) &&
             db.attempts[id].columns.experimentCellId == Some(cell)
  }

  /** `randomizedCellAttempts` answers null as soon as one stored attempt does not validate. */
  predicate CellReadable(db: Database, experiment: string, cell: string) {
    forall id :: id in CellIds(db, experiment, cell) ==> db.attempts[id].valid
  }

  predicate CarriesIdentity(attempt: Attempt) {
    attempt.evaluationCheckoutId.Some? || attempt.evaluationFixtureId.Some?
  }

  /** Replay identities take precedence when both the row and its cell carry them. */
  predicate Candidate(db: Database, experiment: string, cell: string, row: Evidence, id: string)
    requires id in CellIds(db, experiment, cell)
  {
    var checkout, fixture := row.references.checkoutId, row.references.fixtureId;
    var correlated := checkout.Some? || fixture.Some?;
    var correlationPossible :=
      exists other :: other in CellIds(db, experiment, cell) && CarriesIdentity(db.attempts[other].columns);
    correlated && correlationPossible ==>
      (checkout.None? || db.attempts[id].columns.evaluationCheckoutId == checkout) &&
      (fixture.None? || db.attempts[id].columns.evaluationFixtureId == fixture)
  }

  /** The attempts a row could belong to; none when the row or the attempt has no cell. */
  function Matches(db: Database, attempt: Attempt, row: Evidence): (ids: set<string>)
    ensures ids <= db.attempts.Keys
  {
    if attempt.experimentId.None? || row.experimentCellId.None? then {}
    else
      var experiment, cell := attempt.experimentId.value, row.experimentCellId.value;
      set id | id in CellIds(db, experiment, cell) && Candidate(db, experiment, cell, row, id)
  }

  /**
   * The row belongs to exactly this attempt of its cell, which completed; a row of the assessed
   * attempt's own cell belongs to the assessed attempt.
   */
  predicate MatchedTo(db: Database, attempt: Attempt, row: Evidence, id: string) {
    && attempt.experimentId.Some? && attempt.experimentCellId.Some? && row.experimentCellId.Some?
    && CellReadable(db, attempt.experimentId.value, row.experimentCellId.value)
    && Matches(db, attempt, row) == {id}
    && (row.experimentCellId == attempt.experimentCellId ==> id == attempt.attemptId)
    && db.attempts[id].columns.completedAt.Some?
  }

  predicate Matched(db: Database, attempt: Attempt, row: Evidence) {
    exists id :: id in Matches(db, attempt, row) && MatchedTo(db, attempt, row, id)
  }

  predicate AllMatched(db: Database, attempt: Attempt, evidence: seq<Evidence>) {
    evidence != [] && forall row :: row in evidence ==> Matched(db, attempt, row)
  }

  // ---- Matching in columns -----------------------------------------------------------------------------------

  /** A stored attempt of the assessed experiment in the row's cell. */
  ghost predicate InCellOf(db: Database, attempt: Attempt, row: Evidence, id: string) {
    && attempt.experimentId.Some? && row.experimentCellId.Some?
    && id in db.attempts
    && db.attempts[id].columns.experimentId == attempt.experimentId
    && db.attempts[id].columns.experimentCellId == row.experimentCellId
  }

  /** The attempt has the checkout and the fixture that the row names, as far as it names any. */
  ghost predicate Replays(db: Database, row: Evidence, id: string)
    requires id in db.attempts
  {
    && (row.references.checkoutId.Some? ==> db.attempts[id].columns.evaluationCheckoutId == row.references.checkoutId)
    && (row.references.fixtureId.Some? ==> db.attempts[id].columns.evaluationFixtureId == row.references.fixtureId)
  }

  /** Some attempt of the row's cell has a checkout or a fixture. */
  ghost predicate CellHasIdentities(db: Database, attempt: Attempt, row: Evidence) {
    exists other ::
      && InCellOf(db, attempt, row, other)
      && (|| db.attempts[other].columns.evaluationCheckoutId != None
          || db.attempts[other].columns.evaluationFixtureId != None)
  }

  /**
   * The one attempt a row belongs to: completed, in the row's cell, all of whose attempts are valid; the assessed one
   * if that is its cell; the only one there that replays the row or, in a cell without identities, the only one there.
   */
  ghost predicate BelongsTo(db: Database, attempt: Attempt, row: Evidence, id: string) {
    && attempt.experimentCellId.Some?
    && InCellOf(db, attempt, row, id) && db.attempts[id].columns.completedAt.Some?
    && (forall other :: InCellOf(db, attempt, row, other) ==> db.attempts[other].valid)
    && (row.experimentCellId == attempt.experimentCellId ==> id == attempt.attemptId)
    && if CellHasIdentities(db, attempt, row) then
         && Replays(db, row, id)
         && forall other :: InCellOf(db, attempt, row, other) && Replays(db, row, other) ==> other == id
       else
         forall other :: InCellOf(db, attempt, row, other) ==> other == id
  }

  lemma CellColumns(db: Database, attempt: Attempt, row: Evidence, id: string)
    requires attempt.experimentId.Some? && row.experimentCellId.Some?
    ensures id in CellIds(db, attempt.experimentId.value, row.experimentCellId.value) <==>
            InCellOf(db, attempt, row, id)
  {
  }

  lemma NoCell(db: Database, attempt: Attempt, row: Evidence, id: string)
    requires attempt.experimentId.None? || row.experimentCellId.None?
    ensures !InCellOf(db, attempt, row, id)
  {
  }

  lemma MatchesInColumns(db: Database, attempt: Attempt, row: Evidence, id: string)
    ensures id in Matches(db, attempt, row) <==>
            InCellOf(db, attempt, row, id) && (CellHasIdentities(db, attempt, row) ==> Replays(db, row, id))
  {
    hide CellIds; hide InCellOf;
    if attempt.experimentId.Some? && row.experimentCellId.Some? {
      var ids := CellIds(db, attempt.experimentId.value, row.experimentCellId.value);
      forall other ensures other in ids <==> InCellOf(db, attempt, row, other) {
        CellColumns(db, attempt, row, other);
      }
      CellsAreStored(db, attempt, row);
      if CellHasIdentities(db, attempt, row) {
        var other :| InCellOf(db, attempt, row, other) &&
          (db.attempts[other].columns.evaluationCheckoutId != None ||
           db.attempts[other].columns.evaluationFixtureId != None);
        assert other in ids && CarriesIdentity(db.attempts[other].columns);
      }
    } else {
      NoCell(db, attempt, row, id);
    }
  }

  lemma CellValid(db: Database, attempt: Attempt, row: Evidence)
    requires attempt.experimentId.Some? && row.experimentCellId.Some?
    ensures CellReadable(db, attempt.experimentId.value, row.experimentCellId.value) <==>
            forall other :: InCellOf(db, attempt, row, other) ==> db.attempts[other].valid
  {
    hide CellIds; hide InCellOf;
    forall other
      ensures other in CellIds(db, attempt.experimentId.value, row.experimentCellId.value)
              <==> InCellOf(db, attempt, row, other)
    {
      CellColumns(db, attempt, row, other);
    }
    assert forall other :: InCellOf(db, attempt, row, other) ==> other in db.attempts by {
      CellsAreStored(db, attempt, row);
    }
  }

  lemma CellsAreStored(db: Database, attempt: Attempt, row: Evidence)
    ensures forall other :: InCellOf(db, attempt, row, other) ==>
              other in db.attempts && attempt.experimentId.Some? && row.experimentCellId.Some?
  {
  }

  /** The only match is the only attempt of the cell that replays the row, or the only one there is. */
  lemma OnlyMatch(db: Database, attempt: Attempt, row: Evidence, id: string)
    ensures Matches(db, attempt, row) == {id} <==>
            && InCellOf(db, attempt, row, id)
            && if CellHasIdentities(db, attempt, row) then
                 && Replays(db, row, id)
                 && forall other :: InCellOf(db, attempt, row, other) && Replays(db, row, other) ==> other == id
               else
                 forall other :: InCellOf(db, attempt, row, other) ==> other == id
  {
    hide Matches; hide InCellOf; hide CellHasIdentities; hide Replays;
    CellsAreStored(db, attempt, row);
    forall other
      ensures other in Matches(db, attempt, row) <==>
              InCellOf(db, attempt, row, other) && (CellHasIdentities(db, attempt, row) ==> Replays(db, row, other))
    {
      MatchesInColumns(db, attempt, row, other);
    }
    assert Matches(db, attempt, row) == {id} ==> id in Matches(db, attempt, row);
  }

  /** Being matched is belonging: the row's one completed attempt is found, and nothing else ever is. */
  lemma MatchedMeansBelongs(db: Database, attempt: Attempt, row: Evidence, id: string)
    ensures id in db.attempts && MatchedTo(db, attempt, row, id) <==> BelongsTo(db, attempt, row, id)
  {
    OnlyMatch(db, attempt, row, id);
    hide Matches; hide CellReadable; hide InCellOf; hide CellHasIdentities; hide Replays;
    CellsAreStored(db, attempt, row);
    if attempt.experimentId.Some? && row.experimentCellId.Some? {
      CellValid(db, attempt, row);
    }
  }

  lemma MatchedBelongsSomewhere(db: Database, attempt: Attempt, row: Evidence)
    ensures Matched(db, attempt, row) <==> exists id :: BelongsTo(db, attempt, row, id)
  {
    hide MatchedTo; hide BelongsTo; hide Matches;
    if Matched(db, attempt, row) {
      var id :| id in Matches(db, attempt, row) && MatchedTo(db, attempt, row, id);
      MatchedMeansBelongs(db, attempt, row, id);
    }
    if id :| BelongsTo(db, attempt, row, id) {
      MatchedMeansBelongs(db, attempt, row, id);
      MatchedIsAMatch(db, attempt, row, id);
    }
  }

  lemma MatchedIsAMatch(db: Database, attempt: Attempt, row: Evidence, id: string)
    requires id in db.attempts && MatchedTo(db, attempt, row, id)
    ensures id in Matches(db, attempt, row)
  {
    hide Matches; hide CellReadable;
  }

  lemma AllBelong(db: Database, attempt: Attempt, evidence: seq<Evidence>)
    ensures AllMatched(db, attempt, evidence) <==>
            evidence != [] && forall row :: row in evidence ==> exists id :: BelongsTo(db, attempt, row, id)
  {
    hide Matched; hide BelongsTo;
    forall row ensures Matched(db, attempt, row) <==> exists id :: BelongsTo(db, attempt, row, id) {
      MatchedBelongsSomewhere(db, attempt, row);
    }
  }

  lemma FollowsInColumns(db: Database, attempt: Attempt, row: Evidence)
    ensures AfterItsAttempt(db, attempt, row) <==>
            exists id :: BelongsTo(db, attempt, row, id) && row.observedAt >= db.attempts[id].columns.completedAt.value
  {
    hide MatchedTo; hide Matches; hide BelongsTo;
    forall id
      ensures BelongsTo(db, attempt, row, id) ==> id in db.attempts && db.attempts[id].columns.completedAt.Some?
    {
      if BelongsTo(db, attempt, row, id) {
        BelongingIsStored(db, attempt, row, id);
      }
    }
    forall id ensures id in db.attempts && MatchedTo(db, attempt, row, id) <==> BelongsTo(db, attempt, row, id) {
      MatchedMeansBelongs(db, attempt, row, id);
    }
    forall id | id in db.attempts && MatchedTo(db, attempt, row, id) ensures id in Matches(db, attempt, row) {
      MatchedIsAMatch(db, attempt, row, id);
    }
  }

  lemma BelongsToOne(db: Database, attempt: Attempt, row: Evidence, first: string, second: string)
    requires BelongsTo(db, attempt, row, first) && BelongsTo(db, attempt, row, second)
    ensures first == second
  {
    hide InCellOf; hide Replays; hide CellHasIdentities;
    CellsAreStored(db, attempt, row);
  }

  lemma BelongingIsStored(db: Database, attempt: Attempt, row: Evidence, id: string)
    requires BelongsTo(db, attempt, row, id)
    ensures id in db.attempts && db.attempts[id].columns.completedAt.Some?
  {
    hide CellHasIdentities; hide Replays;
  }

  // ---- Completion boundaries ---------------------------------------------------------------------------------

  datatype Boundary = Boundary(instant: int, attempt: Attempt)

  predicate OneRowPerId(evidence: seq<Evidence>) {
    forall r, s :: r in evidence && s in evidence && r.evidenceId == s.evidenceId ==> r == s
  }

  /** Every row gets the completion of its attempt, or no row does. */
  ghost predicate BoundariesOf(db: Database, attempt: Attempt, evidence: seq<Evidence>,
                               boundaries: Option<map<string, Boundary>>) {
    && (boundaries.Some? <==>
          evidence != [] && forall row :: row in evidence ==> exists id :: BelongsTo(db, attempt, row, id))
    && (boundaries.Some? ==>
          && (forall id :: id in boundaries.value <==> exists row :: row in evidence && row.evidenceId == id)
          && (forall row :: row in evidence ==> HasBoundary(db, attempt, row, boundaries.value[row.evidenceId])))
  }

  ghost predicate HasBoundary(db: Database, attempt: Attempt, row: Evidence, boundary: Boundary) {
    exists id ::
      && BelongsTo(db, attempt, row, id)
      && boundary == Boundary(db.attempts[id].columns.completedAt.value, db.attempts[id].columns)
  }

  method CellMatches(db: Database, attempt: Attempt, row: Evidence) returns (found: Option<string>)
    requires attempt.experimentId.Some? && attempt.experimentCellId.Some? && row.experimentCellId.Some?
    requires CellReadable(db, attempt.experimentId.value, row.experimentCellId.value)
    ensures found.Some? <==> Matched(db, attempt, row)
    ensures found.Some? ==> found.value in db.attempts && MatchedTo(db, attempt, row, found.value)
  {
    var matches := Matches(db, attempt, row);
    if |matches| != 1 {
      return None;
    }
    var id :| id in matches;
    assert matches == {id} by {
      assert |matches - {id}| == 0;
    }
    if row.experimentCellId == attempt.experimentCellId && id != attempt.attemptId {
      return None;
    }
    if db.attempts[id].columns.completedAt.None? {
      return None;
    }
    return Some(id);
  }

  /** The first loop: every row has a cell, and the cell can be read. */
  method CellsReadable(db: Database, attempt: Attempt, evidence: seq<Evidence>) returns (readable: bool)
    requires attempt.experimentId.Some?
    ensures readable <==> forall r :: r in evidence ==> InReadableCell(db, attempt, r)
  {
    hide InReadableCell;
    for i := 0 to |evidence|
      invariant forall k :: 0 <= k < i ==> InReadableCell(db, attempt, evidence[k])
    {
      if !InReadableCell(db, attempt, evidence[i]) {
        assert evidence[i] in evidence;
        return false;
      }
    }
    readable := true;
  }

  predicate InReadableCell(db: Database, attempt: Attempt, row: Evidence)
    requires attempt.experimentId.Some?
  {
    row.experimentCellId.Some? && CellReadable(db, attempt.experimentId.value, row.experimentCellId.value)
  }

  /** The rows matched so far, each with its boundary, under their ids. */
  ghost predicate BoundariesSoFar(db: Database, attempt: Attempt, rows: seq<Evidence>, found: map<string, Boundary>) {
    && (forall id :: id in found <==> exists r :: r in rows && r.evidenceId == id)
    && (forall r :: r in rows ==> r.evidenceId in found && HasBoundary(db, attempt, r, found[r.evidenceId]))
    && (forall r :: r in rows ==> Matched(db, attempt, r))
  }

  lemma OneMoreBoundary(db: Database, attempt: Attempt, rows: seq<Evidence>, row: Evidence,
                        found: map<string, Boundary>, boundary: Boundary)
    requires BoundariesSoFar(db, attempt, rows, found)
    requires HasBoundary(db, attempt, row, boundary) && Matched(db, attempt, row)
    requires forall r :: r in rows && r.evidenceId == row.evidenceId ==> r == row
    ensures BoundariesSoFar(db, attempt, rows + [row], found[row.evidenceId := boundary])
  {
    hide HasBoundary; hide Matched;
    var more, after := rows + [row], found[row.evidenceId := boundary];
    assert forall r :: r in more <==> r in rows || r == row;
    forall id ensures id in after <==> exists r :: r in more && r.evidenceId == id {
      if id == row.evidenceId {
        assert row in more;
      }
    }
  }

  lemma FoundHasBoundary(db: Database, attempt: Attempt, row: Evidence, id: string)
    requires id in db.attempts && MatchedTo(db, attempt, row, id)
    ensures db.attempts[id].columns.completedAt.Some?
    ensures HasBoundary(db, attempt, row, Boundary(db.attempts[id].columns.completedAt.value, db.attempts[id].columns))
  {
    MatchedMeansBelongs(db, attempt, row, id);
    BelongingIsStored(db, attempt, row, id);
    hide MatchedTo; hide BelongsTo;
  }

  lemma UnreadableIsUnmatched(db: Database, attempt: Attempt, row: Evidence)
    requires attempt.experimentId.None? || attempt.experimentCellId.None? || !InReadableCell(db, attempt, row)
    ensures !Matched(db, attempt, row)
  {
    hide CellReadable;
  }

  /**
   * `randomizedEvidenceCompletionBoundaries`: first every cell must be readable, then the rows are
   * matched one by one and the first failure gives up on all of them.
   */
  method EvidenceCompletionBoundaries(db: Database, attempt: Attempt, evidence: seq<Evidence>)
    returns (boundaries: Option<map<string, Boundary>>)
    requires OneRowPerId(evidence)
    ensures BoundariesOf(db, attempt, evidence, boundaries)
  {
    hide BelongsTo;
    AllBelong(db, attempt, evidence);
    hide Matched; hide MatchedTo; hide HasBoundary; hide CellReadable; hide InReadableCell; hide BoundariesSoFar;
    if attempt.experimentId.None? || attempt.experimentCellId.None? || evidence == [] {
      if evidence != [] {
        UnreadableIsUnmatched(db, attempt, evidence[0]);
        assert evidence[0] in evidence;
      }
      return None;
    }
    var readable := CellsReadable(db, attempt, evidence);
    if !readable {
      ghost var row :| row in evidence && !InReadableCell(db, attempt, row);
      UnreadableIsUnmatched(db, attempt, row);
      return None;
    }
    var found: map<string, Boundary> := map[];
    NoBoundaryYet(db, attempt);
    for i := 0 to |evidence|
      invariant BoundariesSoFar(db, attempt, evidence[..i], found)
    {
      var row := evidence[i];
      assert row in evidence && InReadableCell(db, attempt, row);
      CellOfReadable(db, attempt, row);
      var id := CellMatches(db, attempt, row);
      if id.None? {
        return None;
      }
      var columns := db.attempts[id.value].columns;
      FoundHasBoundary(db, attempt, row, id.value);
      OneMoreBoundary(db, attempt, evidence[..i], row, found, Boundary(columns.completedAt.value, columns));
      found := found[row.evidenceId := Boundary(columns.completedAt.value, columns)];
      assert evidence[..i + 1] == evidence[..i] + [row];
    }
    assert evidence[..|evidence|] == evidence;
    boundaries := Some(found);
    AllBoundaries(db, attempt, evidence, found);
  }

  lemma NoBoundaryYet(db: Database, attempt: Attempt)
    ensures BoundariesSoFar(db, attempt, [], map[])
  {
  }

  lemma CellOfReadable(db: Database, attempt: Attempt, row: Evidence)
    requires attempt.experimentId.Some? && InReadableCell(db, attempt, row)
    ensures row.experimentCellId.Some? && CellReadable(db, attempt.experimentId.value, row.experimentCellId.value)
  {
  }

  lemma AllBoundaries(db: Database, attempt: Attempt, evidence: seq<Evidence>, found: map<string, Boundary>)
    requires evidence != [] && BoundariesSoFar(db, attempt, evidence, found)
    ensures AllMatched(db, attempt, evidence)
    ensures BoundariesOf(db, attempt, evidence, Some(found))
  {
    hide Matched; hide HasBoundary; hide BelongsTo;
    assert AllMatched(db, attempt, evidence);
    AllBelong(db, attempt, evidence);
  }

  predicate AfterItsAttempt(db: Database, attempt: Attempt, row: Evidence) {
    exists id :: id in Matches(db, attempt, row) && MatchedTo(db, attempt, row, id) &&
      row.observedAt >= db.attempts[id].columns.completedAt.value
  }

  /** What `randomizedEvidenceAfterCellCompletion` means. */
  function AfterCellCompletion(db: Database, attempt: Attempt, evidence: seq<Evidence>): seq<Evidence> {
    if !AllMatched(db, attempt, evidence) then []
    else Filter(evidence, row => AfterItsAttempt(db, attempt, row))
  }

  /** A row has a boundary no later than its observation exactly when it follows its one attempt. */
  lemma BoundaryDecides(db: Database, attempt: Attempt, row: Evidence, boundary: Boundary)
    requires HasBoundary(db, attempt, row, boundary)
    ensures AfterItsAttempt(db, attempt, row) <==> row.observedAt >= boundary.instant
  {
    FollowsInColumns(db, attempt, row);
    var id :| BelongsTo(db, attempt, row, id)
              && boundary == Boundary(db.attempts[id].columns.completedAt.value, db.attempts[id].columns);
    forall other | BelongsTo(db, attempt, row, other) ensures other == id {
      BelongsToOne(db, attempt, row, id, other);
    }
    hide BelongsTo;
  }

  /** Filtering by the boundaries map, as the source does, keeps exactly the rows that follow their attempts. */
  lemma BoundariesDecide(db: Database, attempt: Attempt, evidence: seq<Evidence>,
                         boundaries: Option<map<string, Boundary>>)
    requires BoundariesOf(db, attempt, evidence, boundaries)
    ensures AfterCellCompletion(db, attempt, evidence) ==
            if boundaries.None? then []
            else Filter(evidence, row => Passes(boundaries.value, row))
  {
    hide HasBoundary; hide AfterItsAttempt; hide AllMatched; hide BelongsTo;
    AllBelong(db, attempt, evidence);
    if boundaries.Some? {
      forall i | 0 <= i < |evidence|
        ensures AfterItsAttempt(db, attempt, evidence[i]) == Passes(boundaries.value, evidence[i])
      {
        assert evidence[i] in evidence;
        BoundaryDecides(db, attempt, evidence[i], boundaries.value[evidence[i].evidenceId]);
      }
      FilterSame(evidence, row => AfterItsAttempt(db, attempt, row), row => Passes(boundaries.value, row));
    }
  }

  predicate Passes(boundaries: map<string, Boundary>, row: Evidence) {
    row.evidenceId in boundaries && row.observedAt >= boundaries[row.evidenceId].instant
  }

  /** `randomizedEvidenceAfterCellCompletion` on the boundaries that the loops find. */
  method EvidenceAfterCellCompletion(db: Database, attempt: Attempt, evidence: seq<Evidence>)
    returns (rows: seq<Evidence>)
    requires OneRowPerId(evidence)
    ensures rows == AfterCellCompletion(db, attempt, evidence)
  {
    hide BoundariesOf; hide AfterCellCompletion; hide Passes; hide OneRowPerId;
    var boundaries := EvidenceCompletionBoundaries(db, attempt, evidence);
    BoundariesDecide(db, attempt, evidence, boundaries);
    if boundaries.None? {
      return [];
    }
    var found := boundaries.value;
    rows := Filter(evidence, row => Passes(found, row));
  }

  /** If no row is dropped, every row follows the completion of the one attempt it belongs to. */
  lemma NothingDropped(db: Database, attempt: Attempt, evidence: seq<Evidence>)
    requires evidence != [] && |AfterCellCompletion(db, attempt, evidence)| == |evidence|
    ensures AfterCellCompletion(db, attempt, evidence) == evidence
    ensures AllMatched(db, attempt, evidence)
    ensures forall row :: row in evidence ==> AfterItsAttempt(db, attempt, row)
  {
    FilterKeepsAll(evidence, (row: Evidence) => AfterItsAttempt(db, attempt, row));
  }
}
