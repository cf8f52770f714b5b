/**
 * The converse of the causal gate on the experiment it was designed for: two cells, one pinned attempt and
 * one complete, preregistered experiment row in each. Such a design is accepted as causal, with the one
 * label its ranks show.
 */
module AttributionDesign {
  import opened Collections
  import opened Text
  import opened Identifiers
  import opened Timestamps
  import opened AttributionRecords
  import opened AttributionSubject
  import opened AttributionRandomized
  import opened AttributionMatching
  import opened AttributionAdmission
  import Store = AttributionStore

  /** One side of the experiment: its attempt, its cell, its row and that row's outcome. */
  datatype Side = Side(attemptId: string, cell: string, rowId: string, status: Status)

  datatype Design = Design(
    own: Side, other: Side, experiment: string, check: string, exposureId: int, completed: int, observed: int,
    assessmentId: string, procedure: string, procedureVersion: string, createdAt: string)

  function Cell(d: Design, side: Side): Attempt {
    Attempt(side.attemptId, HandedOff, 1, Some(d.completed), None, None, None, None,
            Some(d.experiment), Some(side.cell), None, None, true,
            [Exposure(d.exposureId, None, Selected, HandedOff)])
  }

  function Outcome(d: Design, side: Side): Evidence {
    Evidence(side.rowId, Quality, TestResult, SourceClass.Experiment, d.observed, side.status, None,
             None, None, None, None, Some(d.experiment), Some(side.cell),
             References(Some(d.check), None, None, None, None, None, None, None, [],
                        {Preregistered, CellsComplete, UncertaintyReported}), true)
  }

  function Tables(d: Design): Database {
    Database(map[d.own.attemptId := AttemptRow(Cell(d, d.own), true, true),
                 d.other.attemptId := AttemptRow(Cell(d, d.other), true, true)],
             map[d.own.rowId := Outcome(d, d.own), d.other.rowId := Outcome(d, d.other)])
  }

  function Claiming(d: Design, impact: Impact): Input {
    Input(d.assessmentId, None, d.own.attemptId, None, Quality, impact, RandomizedContrast, High,
          d.procedure, d.procedureVersion, d.createdAt, [d.own.rowId, d.other.rowId], Some(Causal))
  }

  predicate NormalUuid(id: string) { Uuid(id) == Some(id) }

  predicate ValidDesign(d: Design) {
    && NormalUuid(d.own.attemptId) && NormalUuid(d.other.attemptId) && d.own.attemptId != d.other.attemptId
    && NormalUuid(d.own.rowId) && NormalUuid(d.other.rowId) && Less(d.own.rowId, d.other.rowId)
    && NormalUuid(d.assessmentId) && IsStableCode(d.procedure) && IsStableCode(d.procedureVersion)
    && d.own.cell != d.other.cell
    && d.own.status in {Pass, Mixed, Fail} && d.other.status in {Pass, Mixed, Fail}
    && TimestampInstant(d.createdAt).Some?
    && d.completed <= d.observed <= TimestampInstant(d.createdAt).value
  }

  function ContextOf(d: Design): Context { Context(Cell(d, d.own), AttemptSubject, None) }

  function RowsOf(d: Design): seq<Evidence> { [Outcome(d, d.own), Outcome(d, d.other)] }

  /** The label the two outcomes show. */
  function Shown(d: Design): Label
    requires ValidDesign(d)
  {
    RankRelation(QualityRank(Outcome(d, d.own)).value, QualityRank(Outcome(d, d.other)).value)
  }

  lemma ShownIsRead(d: Design, known: Label)
    requires ValidDesign(d)
    ensures known == Shown(d) <==> (d.own.status, d.other.status, known) in READINGS
  {
    hide NormalUuid; hide Less; hide TimestampInstant; hide IsStableCode; hide RankRelation; hide QualityRank;
    RankedOutcome(Outcome(d, d.own));
    RankedOutcome(Outcome(d, d.other));
    ReadingOfRanks(Outcome(d, d.own), Outcome(d, d.other), known);
  }

  lemma RowIdsAreNormal(d: Design)
    requires ValidDesign(d)
    ensures d.own.rowId != d.other.rowId
    ensures NormalizedIds([d.own.rowId, d.other.rowId]) == Some([d.own.rowId, d.other.rowId])
  {
    var ids := [d.own.rowId, d.other.rowId];
    LessIrreflexive(d.own.rowId);
    hide IsUuid; hide Less;
    assert Uuids(ids).Some? && Uuids(ids).value == ids;
    SortedIsCanonical(SortUnique(ids), ids);
  }

  lemma DesignIsPrepared(d: Design, impact: Impact)
    requires ValidDesign(d)
    ensures Prepare(Tables(d), Claiming(d, impact)) ==
            Ok(Prepared(ContextOf(d), [d.own.rowId, d.other.rowId], RowsOf(d), TimestampInstant(d.createdAt).value))
  {
    RowIdsAreNormal(d);
    LinkedRows(d);
    hide IsUuid; hide Uuid; hide Less; hide TimestampInstant; hide NormalizedIds; hide LinkedEvidence;
  }

  lemma LinkedRows(d: Design)
    requires d.own.rowId != d.other.rowId
    ensures LinkedEvidence(Tables(d), [d.own.rowId, d.other.rowId]) == Some(RowsOf(d))
  {
    var db, ids := Tables(d), [d.own.rowId, d.other.rowId];
    AllLinked(db, ids);
    assert LinkedEvidence(db, ids).value == RowsOf(d);
  }

  lemma {:induction false} AllLinked(db: Database, ids: seq<string>)
    requires forall i :: 0 <= i < |ids| ==> db.GetEvidence(ids[i]).Some?
    ensures LinkedEvidence(db, ids).Some?
  {
    if ids != [] {
      AllLinked(db, ids[1..]);
    }
  }

  // ---- Matching ----------------------------------------------------------------------------------------------

  lemma SideMatches(d: Design, side: Side)
    requires ValidDesign(d) && (side == d.own || side == d.other)
    ensures var row := Outcome(d, side);
            && Matches(Tables(d), Cell(d, d.own), row) == {side.attemptId}
            && MatchedTo(Tables(d), Cell(d, d.own), row, side.attemptId)
            && AfterItsAttempt(Tables(d), Cell(d, d.own), row)
            && Matched(Tables(d), Cell(d, d.own), row)
            && CausalWitness(Tables(d), Cell(d, d.own), row)
  {
    hide NormalUuid; hide Less; hide TimestampInstant; hide IsStableCode;
    var db, row := Tables(d), Outcome(d, side);
    assert CellIds(db, d.experiment, side.cell) == {side.attemptId};
    assert Matches(db, Cell(d, d.own), row) == {side.attemptId};
  }

  lemma NothingIsDropped(d: Design)
    requires ValidDesign(d)
    ensures AfterCellCompletion(Tables(d), Cell(d, d.own), RowsOf(d)) == RowsOf(d)
  {
    SideMatches(d, d.own);
    SideMatches(d, d.other);
    hide ValidDesign; hide Tables; hide Cell; hide Outcome; hide Matched; hide AfterItsAttempt;
    var db, attempt, rows := Tables(d), Cell(d, d.own), RowsOf(d);
    assert AllMatched(db, attempt, rows);
    FilterAll(rows, row => AfterItsAttempt(db, attempt, row));
  }

  // ---- The label ---------------------------------------------------------------------------------------------

  lemma OneGroup(d: Design)
    requires ValidDesign(d)
    ensures var key := ComparisonKey(ContextOf(d), Outcome(d, d.own));
            && key.Some? && key == ComparisonKey(ContextOf(d), Outcome(d, d.other))
            && GroupOf(ContextOf(d), Rows(RowsOf(d)), key.value) == {Outcome(d, d.own), Outcome(d, d.other)}
  {
    hide ValidDesign; hide RowNamesSubject;
  }

  lemma GroupResolves(d: Design)
    requires ValidDesign(d)
    ensures ResolvesTo(d.own.cell, {Outcome(d, d.own), Outcome(d, d.other)}, Shown(d))
  {
    hide NormalUuid; hide Less; hide TimestampInstant; hide IsStableCode;
    var r, s := Outcome(d, d.own), Outcome(d, d.other);
    assert AttemptSide(d.own.cell, r) && !AttemptSide(d.own.cell, s);
  }

  lemma DesignShape(d: Design)
    requires ValidDesign(d)
    ensures var ctx, rows := ContextOf(d), RowsOf(d);
            && rows != [] && ctx.attempt == Cell(d, d.own) && d.own.cell != d.other.cell
            && ctx.attempt.experimentId.Some? && ctx.attempt.experimentCellId == Some(d.own.cell)
            && forall r :: r in rows ==>
                 && r.sourceClass == SourceClass.Experiment && r.experimentId == ctx.attempt.experimentId
                 && r.experimentCellId.Some? && Preregistered in r.references.codes
  {
    hide NormalUuid; hide Less; hide TimestampInstant; hide IsStableCode;
  }

  /** Rows that all lie in one resolving group support its label and no other, and all of them witness it. */
  lemma SingleGroup(ctx: Context, rows: seq<Evidence>, key: Key, known: Label)
    requires rows != [] && ctx.attempt.experimentCellId.Some?
    requires forall r :: r in rows ==> ComparisonKey(ctx, r) == Some(key)
    requires ResolvesTo(ctx.attempt.experimentCellId.value, GroupOf(ctx, Rows(rows), key), known)
    ensures LabelSupport(ctx, rows) == {known}
    ensures forall r :: r in rows ==> IsWitness(ctx, rows, r, known) && IsContrastWitness(ctx, rows, r)
  {
    var cell, group := ctx.attempt.experimentCellId.value, GroupOf(ctx, Rows(rows), key);
    EveryLabel();
    hide ResolvesTo; hide ComparisonKey; hide GroupOf;
    assert IsWitness(ctx, rows, rows[0], known) && rows[0] in rows;
    forall other | Supported(ctx, rows, other) ensures other == known {
      ResolutionIsUnique(cell, group, other, known);
    }
  }

  lemma DesignSupport(d: Design)
    requires ValidDesign(d)
    ensures LabelSupport(ContextOf(d), RowsOf(d)) == {Shown(d)}
    ensures forall r :: r in RowsOf(d) ==> IsContrastWitness(ContextOf(d), RowsOf(d), r)
  {
    OneGroup(d);
    GroupResolves(d);
    DesignShape(d);
    var rows := RowsOf(d);
    assert forall r :: r in rows ==> r == Outcome(d, d.own) || r == Outcome(d, d.other);
    hide *;
    SingleGroup(ContextOf(d), rows, ComparisonKey(ContextOf(d), Outcome(d, d.own)).value, Shown(d));
  }

  // ---- The gates ---------------------------------------------------------------------------------------------

  /** Two rows that nothing drops, from two cells, one of them the attempt's, are a contrast once one resolves. */
  lemma TwoRowContrast(db: Database, ctx: Context, rows: seq<Evidence>, own: string, other: string)
    requires rows != [] && AfterCellCompletion(db, ctx.attempt, rows) == rows && own != other
    requires ctx.attempt.experimentId.Some? && ctx.attempt.experimentCellId == Some(own)
    requires (set r | r in rows && r.experimentCellId.Some? :: r.experimentCellId.value) == {own, other}
    requires |{own, other}| == 2
    requires forall r :: r in rows ==>
               && r.sourceClass == SourceClass.Experiment && r.experimentId == ctx.attempt.experimentId
               && r.experimentCellId.Some? && Preregistered in r.references.codes
    requires IsContrastWitness(ctx, rows, rows[0])
    ensures ContrastHolds(db, ctx, rows)
  {
    hide AfterCellCompletion; hide IsContrastWitness;
    assert rows[0] in rows;
  }

  lemma DesignContrastHolds(d: Design)
    requires ValidDesign(d)
    ensures ContrastHolds(Tables(d), ContextOf(d), RowsOf(d))
  {
    hide *;
    var rows := RowsOf(d);
    DesignShape(d);
    NothingIsDropped(d);
    DesignSupport(d);
    TwoCells(d, rows);
    TwoRowContrast(Tables(d), ContextOf(d), rows, d.own.cell, d.other.cell);
  }

  lemma TwoCells(d: Design, rows: seq<Evidence>)
    requires d.own.cell != d.other.cell && rows == RowsOf(d)
    ensures (set r | r in rows && r.experimentCellId.Some? :: r.experimentCellId.value) == {d.own.cell, d.other.cell}
    ensures |{d.own.cell, d.other.cell}| == 2
  {
    var cells := set r | r in rows && r.experimentCellId.Some? :: r.experimentCellId.value;
    assert rows[0] in rows && rows[1] in rows;
    assert d.own.cell in cells && d.other.cell in cells;
    assert |{d.own.cell, d.other.cell} - {d.own.cell}| == 1 by {
      assert {d.own.cell, d.other.cell} - {d.own.cell} == {d.other.cell};
    }
  }

  /** What the gates after the label ask of rows that all witness the contrast. */
  lemma WitnessesOpenGates(db: Database, ctx: Context, impact: Impact, rows: seq<Evidence>)
    requires rows != [] && AfterCellCompletion(db, ctx.attempt, rows) == rows && ContrastHolds(db, ctx, rows)
    requires forall r :: r in rows ==> IsContrastWitness(ctx, rows, r) && CausalWitness(db, ctx.attempt, r)
    requires TypeDimension(rows[0].evidenceType) == Quality
    ensures BasisHolds(db, ctx, RandomizedContrast, rows)
    ensures ConfidenceHolds(db, ctx, RandomizedContrast, High, rows)
    ensures DimensionHolds(db, ctx, Quality, impact, RandomizedContrast, rows)
    ensures CausalGateHolds(db, ctx, Causal, RandomizedContrast, rows)
  {
    hide AfterCellCompletion; hide ContrastHolds; hide IsContrastWitness; hide CausalWitness;
    hide IsWitness; hide IsLabelWitness;
    assert rows[0] in rows;
    assert IsSupportingRow(db, ctx, impact, RandomizedContrast, rows, rows[0]);
  }

  lemma SupportDecides(db: Database, ctx: Context, impact: Impact, rows: seq<Evidence>, shown: Label)
    requires AfterCellCompletion(db, ctx.attempt, rows) == rows && LabelSupport(ctx, rows) == {shown}
    ensures SupportsLabel(db, ctx, impact, RandomizedContrast, rows) <==> impact == Known(shown)
  {
    hide AfterCellCompletion; hide LabelSupport; hide ObservationalSupport;
    var support := Support(db, ctx, RandomizedContrast, rows);
    assert support == {shown} && |support| == 1;
  }

  lemma DesignGates(d: Design, impact: Impact)
    requires ValidDesign(d)
    ensures var db, ctx, rows := Tables(d), ContextOf(d), RowsOf(d);
            && (SupportsLabel(db, ctx, impact, RandomizedContrast, rows) <==> impact == Known(Shown(d)))
            && BasisHolds(db, ctx, RandomizedContrast, rows)
            && ConfidenceHolds(db, ctx, RandomizedContrast, High, rows)
            && DimensionHolds(db, ctx, Quality, impact, RandomizedContrast, rows)
            && CausalGateHolds(db, ctx, Causal, RandomizedContrast, rows)
  {
    var db, ctx, rows := Tables(d), ContextOf(d), RowsOf(d);
    assert TypeDimension(rows[0].evidenceType) == Quality;
    NothingIsDropped(d);
    DesignSupport(d);
    DesignContrastHolds(d);
    hide *;
    RowsWitness(d);
    SupportDecides(db, ctx, impact, rows, Shown(d));
    WitnessesOpenGates(db, ctx, impact, rows);
  }

  lemma RowsWitness(d: Design)
    requires ValidDesign(d)
    ensures ContextOf(d).attempt == Cell(d, d.own)
    ensures forall r :: r in RowsOf(d) ==> CausalWitness(Tables(d), Cell(d, d.own), r)
  {
    hide *;
    SideMatches(d, d.own);
    SideMatches(d, d.other);
    TwoRows(d);
  }

  lemma TwoRows(d: Design)
    ensures ContextOf(d).attempt == Cell(d, d.own)
    ensures forall r :: r in RowsOf(d) ==> r == Outcome(d, d.own) || r == Outcome(d, d.other)
  {
    hide Outcome; hide Cell;
  }

  lemma DesignIsInOrder(d: Design)
    requires ValidDesign(d)
    ensures EligibleExposures(Cell(d, d.own)) != []
    ensures forall r :: r in RowsOf(d) ==>
              r.observedAt <= TimestampInstant(d.createdAt).value && Correlates(Cell(d, d.own), r, None)
  {
    hide TimestampInstant; hide Less; hide NormalUuid; hide IsStableCode;
    var exposure := Exposure(d.exposureId, None, Selected, HandedOff);
    assert exposure in Cell(d, d.own).exposures;
    assert exposure in EligibleExposures(Cell(d, d.own));
  }

  /** With every other gate open, the label decides alone. */
  lemma LabelDecides(db: Database, p: Prepared, impact: Impact)
    requires p.ctx.subject == AttemptSubject && p.ctx.exposureId.None?
    requires p.ctx.attempt.completedAt.Some? && p.created >= p.ctx.attempt.completedAt.value
    requires EligibleExposures(p.ctx.attempt) != []
    requires forall r :: r in p.evidence ==> r.observedAt <= p.created && Correlates(p.ctx.attempt, r, None)
    requires BasisHolds(db, p.ctx, RandomizedContrast, p.evidence)
    requires ConfidenceHolds(db, p.ctx, RandomizedContrast, High, p.evidence)
    requires DimensionHolds(db, p.ctx, Quality, impact, RandomizedContrast, p.evidence)
    requires CausalGateHolds(db, p.ctx, Causal, RandomizedContrast, p.evidence)
    ensures Refusal(db, p, Quality, impact, RandomizedContrast, High, Causal) ==
            if SupportsLabel(db, p.ctx, impact, RandomizedContrast, p.evidence) then None else Some(LabelUnsupported)
  {
    hide SupportsLabel; hide BasisHolds; hide ConfidenceHolds; hide DimensionHolds; hide CausalGateHolds;
    hide Correlates; hide EligibleExposures; hide UnambiguousMemories; hide NamesSubject; hide SupportsExposure;
  }

  /**
   * The design is accepted as a causal assessment of high confidence if and only if the asserted label is
   * the reading of its two outcomes; every other label, "unknown" included, is refused as unsupported.
   */
  lemma DesignIsAccepted(d: Design, impact: Impact)
    requires ValidDesign(d)
    ensures var verdict := Canonical(Tables(d), Claiming(d, impact));
            && (verdict.Ok? <==> impact.Known? && (d.own.status, d.other.status, impact.known) in READINGS)
            && (verdict.Ok? ==> verdict.value.claim == Causal && verdict.value.impact == impact)
            && (verdict.Err? ==> verdict.error == LabelUnsupported)
  {
    DesignIsPrepared(d, impact);
    DesignGates(d, impact);
    DesignIsInOrder(d);
    if impact.Known? {
      ShownIsRead(d, impact.known);
    }
    var p := Prepared(ContextOf(d), [d.own.rowId, d.other.rowId], RowsOf(d), TimestampInstant(d.createdAt).value);
    hide TimestampInstant; hide Less; hide IsUuid; hide Uuid; hide IsStableCode;
    hide Prepare; hide IsoText; hide Refusal;
    hide SupportsLabel; hide BasisHolds; hide ConfidenceHolds; hide DimensionHolds; hide CausalGateHolds;
    hide Correlates; hide EligibleExposures; hide Shown; hide Tables; hide RowsOf;
    LabelDecides(Tables(d), p, impact);
  }

  // ---- The gate can open ---------------------------------------------------------------------------------------

  function SampleUuid(c: char): string {
    seq(36, i requires 0 <= i < 36 =>
      if i in {8, 13, 18, 23} then '-' else if i == 14 then '4' else if i == 19 then '8' else c)
  }

  lemma SampleIsNormal(c: char)
    requires IsLowerHex(c)
    ensures NormalUuid(SampleUuid(c))
  {
    var s := SampleUuid(c);
    assert forall i :: 0 <= i < |s| ==> LowerChar(s[i]) == s[i];
    assert Lower(s) == s;
  }

  function SampleDesign(procedure: string, on: string, off: string, ids: seq<string>, createdAt: string): Design
    requires |ids| == 5
  {
    Design(Side(ids[0], on, ids[1], Pass), Side(ids[2], off, ids[3], Fail),
           on, on, 1, 0, 0, ids[4], procedure, procedure, createdAt)
  }

  lemma SmallerFirst(a: string, b: string)
    requires a != "" && b != "" && a[0] < b[0]
    ensures Less(a, b) && a != b
  {
  }

  lemma SampleIds() returns (ids: seq<string>)
    ensures |ids| == 5 && (forall i :: 0 <= i < 5 ==> NormalUuid(ids[i]))
    ensures ids[0] != ids[2] && Less(ids[1], ids[3])
  {
    hide NormalUuid; hide Less;
    SampleIsNormal('a');
    SampleIsNormal('b');
    var a, b := SampleUuid('a'), SampleUuid('b');
    SmallerFirst(a, b);
    ids := [a, a, b, b, a];
  }

  lemma SampleIsValid(procedure: string, on: string, off: string, ids: seq<string>, createdAt: string)
    requires IsStableCode(procedure) && on != off
    requires TimestampInstant(createdAt).Some? && TimestampInstant(createdAt).value >= 0
    requires |ids| == 5 && (forall i :: 0 <= i < 5 ==> NormalUuid(ids[i]))
    requires ids[0] != ids[2] && Less(ids[1], ids[3])
    ensures ValidDesign(SampleDesign(procedure, on, off, ids, createdAt))
    ensures Shown(SampleDesign(procedure, on, off, ids, createdAt)) == Helpful
  {
    hide NormalUuid; hide TimestampInstant; hide Less; hide IsStableCode;
  }

  /** A valid design for any creation time, as long as it is accepted and not before year 0000. */
  lemma DesignAt(createdAt: string) returns (d: Design)
    requires TimestampInstant(createdAt).Some? && TimestampInstant(createdAt).value >= 0
    ensures ValidDesign(d) && Shown(d) == Helpful && d.createdAt == createdAt
  {
    var procedure, on, off := ['m'], ['a'], ['b'];
    assert IsStableCode(procedure) && on[0] != off[0];
    var ids := SampleIds();
    hide TimestampInstant; hide IsStableCode; hide ValidDesign; hide Shown; hide NormalUuid; hide Less;
    SampleIsValid(procedure, on, off, ids, createdAt);
    d := SampleDesign(procedure, on, off, ids, createdAt);
  }

  /** The causal gate is not merely closed: some assessment passes it. */
  lemma SomeCausalIsAccepted()
    ensures exists db, input :: Canonical(db, input).Ok? && ClaimOf(input) == Causal
  {
    var createdAt := IsoText(0);
    InRangeReadsBack(0);
    hide *;
    var d := DesignAt(createdAt);
    AcceptedClaim(d);
  }

  lemma AcceptedClaim(d: Design)
    requires ValidDesign(d)
    ensures Canonical(Tables(d), Claiming(d, Known(Shown(d)))).Ok?
    ensures ClaimOf(Claiming(d, Known(Shown(d)))) == Causal
  {
    ShownIsRead(d, Shown(d));
    hide Canonical; hide ValidDesign; hide Tables; hide Shown;
    DesignIsAccepted(d, Known(Shown(d)));
  }

  /** Accepted, inserted, and lost: a design created in the last hour of 9999, an hour west of UTC. */
  lemma LateDesignIsLost(d: Design, createdAt: string)
    requires ValidDesign(d) && createdAt == LATE_DECEMBER && d.createdAt == createdAt
    ensures var db, input := Tables(d), Claiming(d, Known(Shown(d)));
            && Canonical(db, input).Ok?
            && var (after, outcome) := Store.RecordStep(db, Store.EMPTY, input);
               && outcome == Err(NotPersistedSafely)
               && Canonical(db, input).value.assessmentId in after.rows
               && Store.Read(db, after, Canonical(db, input).value.assessmentId) == None
  {
    var db, input := Tables(d), Claiming(d, Known(Shown(d)));
    AcceptedClaim(d);
    LateDecemberIsNotAFixpoint(createdAt);
    assert input.createdAt == createdAt;
    hide *;
    LateIsLost(db, input);
  }

  /** From empty tables, any accepted input outside years 0000-9999 leaves its row behind and fails. */
  lemma LateIsLost(db: Database, input: Input)
    requires Canonical(db, input).Ok? && TimestampInstant(input.createdAt).Some?
    requires !InRange(TimestampInstant(input.createdAt).value)
    ensures var (after, outcome) := Store.RecordStep(db, Store.EMPTY, input);
            && outcome == Err(NotPersistedSafely)
            && Canonical(db, input).value.assessmentId in after.rows
            && Store.Read(db, after, Canonical(db, input).value.assessmentId) == None
  {
    hide Canonical; hide TimestampInstant; hide InRange; hide Store.RecordStep; hide Store.Read; hide NormalizedIds;
    Store.RecordedReadsBack(db, Store.EMPTY, input);
  }

  /** Such a design exists, so the failing branch of the store is reached. */
  lemma SomeAcceptedIsLost(createdAt: string)
    requires createdAt == LATE_DECEMBER
    ensures exists db, input ::
      Canonical(db, input).Ok? && Store.RecordStep(db, Store.EMPTY, input).1 == Err(NotPersistedSafely)
  {
    LateDecemberIsNotAFixpoint(createdAt);
    hide *;
    var d := DesignAt(createdAt);
    LateDesignIsLost(d, createdAt);
  }
}
