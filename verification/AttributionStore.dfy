/**
 * The idempotent store of accepted assessments: `recordAttributionAssessment` writes a row once, and
 * every read admits it again from the current attempts and evidence.
 */
module AttributionStore {
  import opened Collections
  import opened Text
  import opened Identifiers
  import opened Timestamps
  import opened AttributionRecords
  import opened AttributionRandomized
  import opened AttributionAdmission

  /** The assessment rows, and the linked evidence ids in insertion order. */
  datatype Tables = Tables(rows: map<string, Row>, links: map<string, seq<string>>)

  datatype Assessment = Assessment(row: Row, evidenceIds: seq<string>)

  const EMPTY := Tables(map[], map[])

  /** Links are written with their row, and rows carry their own key. */
  ghost predicate ValidTables(t: Tables) {
    t.rows.Keys == t.links.Keys && forall id :: id in t.rows ==> t.rows[id].assessmentId == id
  }

  /** `ORDER BY evidence_id`. */
  function EvidenceIds(t: Tables, id: string): seq<string> {
    if id in t.links then SortUnique(t.links[id]) else []
  }

  /** The input `read` rebuilds from a stored row. */
  function InputOf(row: Row, ids: seq<string>): Input {
    Input(row.assessmentId, Some(row.subject), row.attemptId, row.exposureId, row.dimension, row.impact, row.basis,
          row.confidence, row.procedure, row.procedureVersion, row.createdAt, ids, Some(row.claim))
  }

  /** `read`: None for a row that is missing, no longer admitted, or not its own normal form. */
  function Read(db: Database, t: Tables, id: string): Option<Assessment> {
    if id !in t.rows then None
    else
      var ids := EvidenceIds(t, id);
      if Canonical(db, InputOf(t.rows[id], ids)) == Ok(t.rows[id]) then Some(Assessment(t.rows[id], ids)) else None
  }

  type Outcome = Result<(Assessment, bool), Error>

  function Finish(db: Database, t: Tables, id: string, inserted: bool): Outcome {
    match Read(db, t, id)
    case None => Err(NotPersistedSafely)
    case Some(assessment) => Ok((assessment, inserted))
  }

  /** `recordAttributionAssessment` as a step on the tables. */
  function RecordStep(db: Database, t: Tables, input: Input): (Tables, Outcome) {
    match Canonical(db, input)
    case Err(e) => (t, Err(e))
    case Ok(row) =>
      var id, ids := row.assessmentId, NormalizedIds(input.evidenceIds);
      if ids.None? then (t, Err(InvalidEvidenceIds))
      else if id in t.rows then
        if t.rows[id] != row || EvidenceIds(t, id) != ids.value then (t, Err(RetryConflict))
        else (t, Finish(db, t, id, false))
      else
        var after := Tables(t.rows[id := row], t.links[id := ids.value]);
        (after, Finish(db, after, id, true))
  }

  class AssessmentStore {
    var rows: map<string, Row>
    var links: map<string, seq<string>>

    constructor ()
      ensures Contents() == EMPTY
    {
      rows, links := map[], map[];
    }

    function Contents(): Tables
      reads this
    {
      Tables(rows, links)
    }

    /** The transaction and the read-back; the link rows are inserted one by one. */
    method Record(db: Database, input: Input) returns (outcome: Outcome)
      requires ValidTables(Contents())
      modifies this
      ensures (Contents(), outcome) == RecordStep(db, old(Contents()), input)
      ensures ValidTables(Contents())
    {
      hide Canonical; hide NormalizedIds; hide Read; hide SortUnique;
      var canonical := Canonical(db, input);
      if canonical.Err? {
        return Err(canonical.error);
      }
      var row := canonical.value;
      var id := row.assessmentId;
      var ids := NormalizedIds(input.evidenceIds);
      if ids.None? {
        return Err(InvalidEvidenceIds);
      }
      if id in rows {
        if rows[id] != row || EvidenceIds(Contents(), id) != ids.value {
          return Err(RetryConflict);
        }
        return Finish(db, Contents(), id, false);
      }
      rows := rows[id := row];
      links := links[id := []];
      for i := 0 to |ids.value|
        invariant rows == old(rows)[id := row]
        invariant links == old(links)[id := ids.value[..i]]
      {
        assert ids.value[..i + 1] == ids.value[..i] + [ids.value[i]];
        links := links[id := links[id] + [ids.value[i]]];
      }
      assert ids.value[..|ids.value|] == ids.value;
      outcome := Finish(db, Contents(), id, true);
    }
  }

  /** Rows and links of one assessment, as a call would store them. */
  ghost predicate Holds(t: Tables, row: Row, ids: set<string>) {
    && row.assessmentId in t.rows && t.rows[row.assessmentId] == row
    && row.assessmentId in t.links && ids == set id | id in t.links[row.assessmentId]
  }

  lemma LinkedSet(db: Database, input: Input)
    requires Canonical(db, input).Ok?
    ensures NormalizedIds(input.evidenceIds).Some? && StrictlySorted(NormalizedIds(input.evidenceIds).value)
    ensures (set id | id in NormalizedIds(input.evidenceIds).value) == LowerSet(input.evidenceIds)
  {
    AcceptedParts(db, input);
    hide Canonical; hide SortUnique; hide Uuids;
    SortedElements(input.evidenceIds);
  }

  /** Sorted and without repetition, links agree with ids exactly when they are the same set. */
  lemma SameLinks(links: seq<string>, ids: seq<string>)
    requires StrictlySorted(ids)
    ensures SortUnique(links) == ids <==> (set id | id in links) == (set id | id in ids)
  {
    var before, after := set id | id in links, set id | id in ids;
    if before == after {
      forall id ensures id in SortUnique(links) <==> id in ids {
        assert (id in links <==> id in before) && (id in ids <==> id in after);
      }
      SortedIsCanonical(SortUnique(links), ids);
    }
  }

  /**
   * What a call does to the tables: a refused input and a known id change nothing; a new id gets its row and its
   * links, and nothing else changes. The call conflicts exactly when its id holds another row or other links.
   */
  lemma RecordDecides(db: Database, t: Tables, input: Input)
    requires ValidTables(t)
    ensures Canonical(db, input).Err? ==> RecordStep(db, t, input) == (t, Err(Canonical(db, input).error))
    ensures Canonical(db, input).Ok? ==>
              var (after, outcome) := RecordStep(db, t, input);
              Stores(t, after, Canonical(db, input).value, LowerSet(input.evidenceIds), outcome == Err(RetryConflict))
  {
    hide Read; hide SortUnique; hide Uuids; hide Stores;
    if Canonical(db, input).Ok? {
      LinkedSet(db, input);
      hide Canonical; hide NormalizedIds; hide LowerSet; hide RecordStep;
      StepDecides(db, t, input, Canonical(db, input).value, NormalizedIds(input.evidenceIds).value);
    }
  }

  ghost predicate Stores(t: Tables, after: Tables, row: Row, ids: set<string>, conflict: bool) {
    && (conflict <==> row.assessmentId in t.rows && !Holds(t, row, ids))
    && (conflict || Holds(after, row, ids))
    && (row.assessmentId in t.rows ==> after == t)
    && after.rows.Keys == t.rows.Keys + {row.assessmentId}
    && forall id :: id in t.rows ==>
         id in after.rows && after.rows[id] == t.rows[id] && id in t.links && id in after.links &&
         after.links[id] == t.links[id]
  }

  lemma StepDecides(db: Database, t: Tables, input: Input, row: Row, ids: seq<string>)
    requires ValidTables(t) && StrictlySorted(ids)
    requires Canonical(db, input) == Ok(row) && NormalizedIds(input.evidenceIds) == Some(ids)
    ensures var (after, outcome) := RecordStep(db, t, input);
            Stores(t, after, row, (set id | id in ids), outcome == Err(RetryConflict))
  {
    hide Canonical; hide NormalizedIds; hide Read; hide SortUnique; hide StrictlySorted;
    var id := row.assessmentId;
    if id in t.rows {
      SameLinks(t.links[id], ids);
    }
  }

  // ---- Fixpoint -----------------------------------------------------------------------------------------

  /** The input rebuilt from an accepted row has the normal form of the input that was accepted. */
  lemma RebuiltInput(db: Database, input: Input, row: Row)
    requires Canonical(db, input) == Ok(row)
    requires InRange(TimestampInstant(input.createdAt).value)
    ensures NormalizedIds(input.evidenceIds).Some?
    ensures SameNormalForm(input, InputOf(row, NormalizedIds(input.evidenceIds).value))
  {
    hide Refusal; hide NormalizedIds; hide LinkedEvidence; hide IsoText; hide TimestampInstant; hide IsUuid;
    UuidFixpoint(input.assessmentId);
    UuidFixpoint(input.attemptId);
    NormalizedIdsFixpoint(input.evidenceIds);
    InRangeReadsBack(TimestampInstant(input.createdAt).value);
  }

  lemma AcceptedParts(db: Database, input: Input)
    requires Canonical(db, input).Ok?
    ensures NormalizedIds(input.evidenceIds).Some? && TimestampInstant(input.createdAt).Some?
    ensures Canonical(db, input).value.createdAt == IsoText(TimestampInstant(input.createdAt).value)
    ensures Uuid(input.assessmentId) == Some(Canonical(db, input).value.assessmentId)
    ensures StrictlySorted(NormalizedIds(input.evidenceIds).value)
  {
    hide Refusal; hide LinkedEvidence; hide IsoText; hide TimestampInstant; hide IsUuid; hide Uuids; hide SortUnique;
  }

  /** An out-of-range creation time makes the stored row unreadable. */
  lemma LateRowIsRefused(db: Database, input: Input, row: Row, ids: seq<string>)
    requires Canonical(db, input) == Ok(row)
    requires !InRange(TimestampInstant(input.createdAt).value)
    ensures Canonical(db, InputOf(row, ids)) != Ok(row)
  {
    AcceptedParts(db, input);
    OutOfRangeIsRefused(TimestampInstant(input.createdAt).value);
    hide Canonical; hide NormalizedIds; hide IsoText; hide TimestampInstant; hide Uuid; hide InRange;
    if Canonical(db, InputOf(row, ids)).Ok? {
      AcceptedParts(db, InputOf(row, ids));
    }
  }

  /** Stored under its own links, an accepted row is admitted again exactly when its year is in range. */
  lemma StoredRowReads(db: Database, t: Tables, input: Input, row: Row)
    requires Canonical(db, input) == Ok(row)
    requires row.assessmentId in t.rows && t.rows[row.assessmentId] == row
    requires Some(EvidenceIds(t, row.assessmentId)) == NormalizedIds(input.evidenceIds)
    ensures TimestampInstant(input.createdAt).Some?
    ensures Read(db, t, row.assessmentId)
            == if InRange(TimestampInstant(input.createdAt).value)
               then Some(Assessment(row, NormalizedIds(input.evidenceIds).value)) else None
  {
    AcceptedParts(db, input);
    var ids := EvidenceIds(t, row.assessmentId);
    if InRange(TimestampInstant(input.createdAt).value) {
      RebuiltInput(db, input, row);
      NormalFormDecides(db, input, InputOf(row, ids));
    } else {
      LateRowIsRefused(db, input, row, ids);
    }
    hide Canonical; hide NormalizedIds; hide TimestampInstant; hide SortUnique; hide InRange;
  }

  /**
   * Recording an accepted input under a new id stores exactly its row. The call succeeds, and the row
   * reads back equal, if and only if the creation instant lies in years 0000-9999; otherwise the row
   * stays in the table, unreadable, and the call fails.
   */
  lemma RecordedReadsBack(db: Database, t: Tables, input: Input)
    requires ValidTables(t) && Canonical(db, input).Ok?
    requires Canonical(db, input).value.assessmentId !in t.rows
    ensures NormalizedIds(input.evidenceIds).Some? && TimestampInstant(input.createdAt).Some?
    ensures var row := Canonical(db, input).value;
            var assessment := Assessment(row, NormalizedIds(input.evidenceIds).value);
            var (after, outcome) := RecordStep(db, t, input);
            && after.rows == t.rows[row.assessmentId := row]
            && (if InRange(TimestampInstant(input.createdAt).value)
                then outcome == Ok((assessment, true)) && Read(db, after, row.assessmentId) == Some(assessment)
                else outcome == Err(NotPersistedSafely) && Read(db, after, row.assessmentId) == None)
  {
    AcceptedParts(db, input);
    var row, ids := Canonical(db, input).value, NormalizedIds(input.evidenceIds).value;
    var after := RecordStep(db, t, input).0;
    hide Canonical; hide NormalizedIds; hide TimestampInstant; hide InRange; hide Read;
    SortedIsCanonical(SortUnique(ids), ids);
    StoredRowReads(db, after, input, row);
  }

  /** What a call that did not conflict leaves under its id. */
  lemma StepStores(db: Database, t: Tables, input: Input, row: Row, ids: seq<string>)
    requires ValidTables(t) && Canonical(db, input) == Ok(row) && NormalizedIds(input.evidenceIds) == Some(ids)
    requires StrictlySorted(ids) && RecordStep(db, t, input).1 != Err(RetryConflict)
    ensures var after := RecordStep(db, t, input).0;
            && row.assessmentId in after.rows && after.rows[row.assessmentId] == row
            && EvidenceIds(after, row.assessmentId) == ids
  {
    hide Canonical; hide NormalizedIds; hide Read; hide SortUnique; hide StrictlySorted;
    SortedIsCanonical(SortUnique(ids), ids);
  }

  /** After an accepted call that did not conflict, its row and its ids are in the tables. */
  lemma AcceptedIsStored(db: Database, t: Tables, input: Input)
    requires ValidTables(t) && Canonical(db, input).Ok? && RecordStep(db, t, input).1 != Err(RetryConflict)
    ensures var row, after := Canonical(db, input).value, RecordStep(db, t, input).0;
            && row.assessmentId in after.rows && after.rows[row.assessmentId] == row
            && NormalizedIds(input.evidenceIds) == Some(EvidenceIds(after, row.assessmentId))
  {
    hide *;
    AcceptedParts(db, input);
    StepStores(db, t, input, Canonical(db, input).value, NormalizedIds(input.evidenceIds).value);
  }

  /**
   * After an accepted call that did not conflict, any input with the same normal form changes no table
   * and reports inserted = false (or the same failure, outside years 0000-9999).
   */
  lemma ReplayInsertsNothing(db: Database, t: Tables, input: Input, again: Input)
    requires ValidTables(t) && Canonical(db, input).Ok? && SameNormalForm(input, again)
    requires RecordStep(db, t, input).1 != Err(RetryConflict)
    ensures TimestampInstant(input.createdAt).Some? && NormalizedIds(input.evidenceIds).Some?
    ensures var after := RecordStep(db, t, input).0;
            RecordStep(db, after, again)
            == (after, if InRange(TimestampInstant(input.createdAt).value)
                       then Ok((Assessment(Canonical(db, input).value, NormalizedIds(input.evidenceIds).value), false))
                       else Err(NotPersistedSafely))
  {
    hide *;
    AcceptedParts(db, input);
    NormalFormDecides(db, input, again);
    AcceptedIsStored(db, t, input);
    var row, after := Canonical(db, input).value, RecordStep(db, t, input).0;
    SameIds(input, again);
    StoredRowReads(db, after, input, row);
    StoredIsAnswered(db, after, again, row);
  }

  lemma SameIds(a: Input, b: Input)
    requires SameNormalForm(a, b)
    ensures NormalizedIds(a.evidenceIds) == NormalizedIds(b.evidenceIds)
  {
    hide NormalizedIds; hide Uuid; hide TimestampInstant;
  }

  /** An input whose row and ids are stored already changes nothing and is answered by reading. */
  lemma StoredIsAnswered(db: Database, t: Tables, input: Input, row: Row)
    requires Canonical(db, input) == Ok(row) && row.assessmentId in t.rows && t.rows[row.assessmentId] == row
    requires NormalizedIds(input.evidenceIds) == Some(EvidenceIds(t, row.assessmentId))
    ensures RecordStep(db, t, input) ==
            (t, match Read(db, t, row.assessmentId) case None => Err(NotPersistedSafely) case Some(a) => Ok((a, false)))
  {
    hide Canonical; hide NormalizedIds; hide Read; hide EvidenceIds;
  }

  /** Re-cased ids, reordered or repeated evidence ids and another zone for the same instant are one input. */
  lemma RespelledInputs(a: Input, b: Input)
    requires Lower(a.assessmentId) == Lower(b.assessmentId) && Lower(a.attemptId) == Lower(b.attemptId)
    requires NormalizedIds(a.evidenceIds).Some? && NormalizedIds(b.evidenceIds).Some?
    requires LowerSet(a.evidenceIds) == LowerSet(b.evidenceIds)
    requires TimestampInstant(a.createdAt) == TimestampInstant(b.createdAt)
    requires b == a.(assessmentId := b.assessmentId, attemptId := b.attemptId, evidenceIds := b.evidenceIds,
                     createdAt := b.createdAt)
    ensures SameNormalForm(a, b)
  {
    RecasedUuid(a.assessmentId, b.assessmentId);
    RecasedUuid(a.attemptId, b.attemptId);
    SameIdsSameNormalForm(a.evidenceIds, b.evidenceIds);
  }

  /** No call ever changes or removes a stored row or its links. */
  lemma RowsAreWriteOnce(db: Database, t: Tables, input: Input, id: string)
    requires ValidTables(t) && id in t.rows
    ensures var after := RecordStep(db, t, input).0;
            && ValidTables(after) && id in after.rows
            && after.rows[id] == t.rows[id] && EvidenceIds(after, id) == EvidenceIds(t, id)
  {
    hide Canonical; hide NormalizedIds; hide Read; hide SortUnique;
  }

  // ---- Runs -----------------------------------------------------------------------------------------------

  function Run(db: Database, inputs: seq<Input>): Tables {
    if inputs == [] then EMPTY
    else RecordStep(db, Run(db, inputs[..|inputs| - 1]), inputs[|inputs| - 1]).0
  }

  /** The stored row was accepted from this input. */
  ghost predicate CameFrom(db: Database, t: Tables, id: string, input: Input) {
    && id in t.rows
    && Canonical(db, input) == Ok(t.rows[id])
    && NormalizedIds(input.evidenceIds) == Some(EvidenceIds(t, id))
  }

  /** The row reads back as the normal form of the input, unless its year is out of range. */
  ghost predicate ReadsBackAs(db: Database, t: Tables, id: string, input: Input)
    requires id in t.rows
  {
    && TimestampInstant(input.createdAt).Some? && NormalizedIds(input.evidenceIds).Some?
    && Read(db, t, id) == if InRange(TimestampInstant(input.createdAt).value)
                          then Some(Assessment(t.rows[id], NormalizedIds(input.evidenceIds).value)) else None
  }

  lemma StepRowCameFrom(db: Database, t: Tables, last: Input, id: string)
    requires ValidTables(t) && id !in t.rows && id in RecordStep(db, t, last).0.rows
    ensures CameFrom(db, RecordStep(db, t, last).0, id, last)
  {
    AcceptedParts(db, last);
    var ids := NormalizedIds(last.evidenceIds).value;
    hide Canonical; hide NormalizedIds; hide Read;
    SortedIsCanonical(SortUnique(ids), ids);
  }

  lemma {:induction false} RunRowsCameFromInputs(db: Database, inputs: seq<Input>, id: string)
    requires id in Run(db, inputs).rows
    ensures exists input :: input in inputs && CameFrom(db, Run(db, inputs), id, input)
  {
    var init, last := inputs[..|inputs| - 1], inputs[|inputs| - 1];
    var before := Run(db, init);
    RunIsValid(db, init);
    if id in before.rows {
      RunRowsCameFromInputs(db, init, id);
      var input :| input in init && CameFrom(db, before, id, input);
      hide Canonical; hide NormalizedIds; hide Read; hide SortUnique;
      RowsAreWriteOnce(db, before, last, id);
      assert input in inputs;
    } else {
      hide Canonical; hide NormalizedIds; hide Read; hide SortUnique;
      StepRowCameFrom(db, before, last, id);
      assert last in inputs;
    }
  }

  lemma {:induction false} RunIsValid(db: Database, inputs: seq<Input>)
    ensures ValidTables(Run(db, inputs))
  {
    hide Canonical; hide NormalizedIds; hide Read;
    if inputs != [] {
      RunIsValid(db, inputs[..|inputs| - 1]);
    }
  }

  /**
   * Over every run of calls from empty tables, with attempts and evidence unchanged, each stored row
   * was accepted from one of the inputs and reads back as that input's normal form, except when its
   * creation instant left years 0000-9999.
   */
  lemma EveryStoredRowReadsBack(db: Database, inputs: seq<Input>, id: string)
    requires id in Run(db, inputs).rows
    ensures exists input :: input in inputs && CameFrom(db, Run(db, inputs), id, input) &&
                            ReadsBackAs(db, Run(db, inputs), id, input)
  {
    RunRowsCameFromInputs(db, inputs, id);
    RunIsValid(db, inputs);
    var t := Run(db, inputs);
    var input :| input in inputs && CameFrom(db, t, id, input);
    hide Canonical; hide NormalizedIds; hide TimestampInstant; hide InRange; hide Read; hide Run; hide SortUnique;
    StoredRowReads(db, t, input, t.rows[id]);
  }

  /**
   * Whatever the tables hold, a causal assessment that is read satisfies the causal gate against the
   * attempts and evidence of the moment it is read.
   */
  lemma CausalReadsAreSound(db: Database, t: Tables, id: string)
    requires Read(db, t, id).Some? && Read(db, t, id).value.row.claim == Causal
    ensures var a := Read(db, t, id).value;
            var input := InputOf(a.row, a.evidenceIds);
            && a.row.basis == RandomizedContrast
            && Prepare(db, input).Ok?
            && var p := Prepare(db, input).value;
               && SoundContrast(db, p.ctx, p.evidence)
               && forall r :: r in p.evidence && IsContrastWitness(p.ctx, p.evidence, r) ==>
                    CausalWitness(db, p.ctx.attempt, r)
  {
    var a := Read(db, t, id).value;
    hide Canonical; hide Prepare; hide SoundContrast; hide IsContrastWitness; hide CausalWitness;
    CausalAdmission(db, InputOf(a.row, a.evidenceIds));
  }

  /** Ordering stored rows by `created_at` text is ordering them by creation time. */
  lemma StoredOrderIsTimeOrder(db: Database, a: Input, b: Input)
    requires Canonical(db, a).Ok? && Canonical(db, b).Ok?
    requires TimestampInstant(a.createdAt).Some? && TimestampInstant(b.createdAt).Some?
    requires InRange(TimestampInstant(a.createdAt).value) && InRange(TimestampInstant(b.createdAt).value)
    ensures Less(Canonical(db, a).value.createdAt, Canonical(db, b).value.createdAt)
            <==> TimestampInstant(a.createdAt).value < TimestampInstant(b.createdAt).value
  {
    AcceptedParts(db, a);
    AcceptedParts(db, b);
    hide Canonical; hide IsoText; hide Less; hide TimestampInstant;
    TextOrderIsTimeOrder(TimestampInstant(a.createdAt).value, TimestampInstant(b.createdAt).value);
  }
}
