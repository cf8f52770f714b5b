/** The recall columns of the attempts table, the step that fills them, and the health totals. */
module RecallLedger {
  import opened Collections
  import opened FlatJson
  import opened AutomaticRecall

  /** An attempt: whether the ledger's query selects it, its fixed counts, and its two recall columns. */
  datatype Attempt = Attempt(
    eligible: bool, selectedCount: nat, outputTokens: Option<nat>, json: Option<string>, key: Option<string>)

  type Table = map<string, Attempt>

  datatype Reason = AttemptNotFound | InvalidInput | IdempotencyConflict

  datatype Outcome = Accepted(changed: bool) | Refused(reason: Reason)

  /** One call of `recordAutomaticRecall`; the value is the object the caller passes. */
  datatype Call = Call(attemptId: string, evaluationKey: string, value: map<string, Value>)

  /** `matchesAttemptCounts`. */
  predicate MatchesCounts(m: Measurement, a: Attempt) {
    && m.candidateItems == a.selectedCount && a.outputTokens.Some?
    && (if a.selectedCount == 0 then m.beforeTokens == 0
        else a.outputTokens.value <= m.beforeTokens <= a.outputTokens.value + 8)
  }

  function ExistingOutcome(a: Attempt, key: string, json: string): Option<Outcome> {
    if a.json.None? then None
    else
      var same :=
        match DecodeMarker(a.json)
        case Some(duplicate) => duplicate == key
        case None => a.json == Some(json) && a.key == Some(key);
      Some(if same then Accepted(false) else Refused(IdempotencyConflict))
  }

  predicate KeyTaken(t: Table, key: string) {
    exists id :: id in t && t[id].key == Some(key)
  }

  /** The immediate transaction of `persistAutomaticRecall`, after the checks of `recordAutomaticRecall`. */
  function RecordStep(t: Table, c: Call): (Table, Outcome) {
    var m := MeasurementOf(c.value);
    if m.None? || !IsEvaluationKey(c.evaluationKey) then (t, Refused(InvalidInput))
    else if c.attemptId !in t || !t[c.attemptId].eligible then (t, Refused(AttemptNotFound))
    else
      var a := t[c.attemptId];
      var json := EncodeMeasurement(m.value);
      if !MatchesCounts(m.value, a) then (t, Refused(InvalidInput))
      else
        match ExistingOutcome(a, c.evaluationKey, json)
        case Some(outcome) => (t, outcome)
        case None =>
          if KeyTaken(t, c.evaluationKey) then
            (t[c.attemptId := a.(json := Some(EncodeMarker(c.evaluationKey)))], Accepted(false))
          else
            (t[c.attemptId := a.(json := Some(json), key := Some(c.evaluationKey))], Accepted(true))
  }

  class Ledger {
    var attempts: Table

    constructor (attempts: Table)
      ensures this.attempts == attempts
    {
      this.attempts := attempts;
    }

    method RecordAutomaticRecall(c: Call) returns (outcome: Outcome)
      modifies this
      ensures (attempts, outcome) == RecordStep(old(attempts), c)
    {
      var m := MeasurementOf(c.value);
      if m.None? || !IsEvaluationKey(c.evaluationKey) {
        return Refused(InvalidInput);
      }
      if c.attemptId !in attempts || !attempts[c.attemptId].eligible {
        return Refused(AttemptNotFound);
      }
      var a := attempts[c.attemptId];
      if !MatchesCounts(m.value, a) {
        return Refused(InvalidInput);
      }
      var json := EncodeMeasurement(m.value);
      var existing := ExistingOutcome(a, c.evaluationKey, json);
      if existing.Some? {
        return existing.value;
      }
      if KeyTaken(attempts, c.evaluationKey) {
        attempts := attempts[c.attemptId := a.(json := Some(EncodeMarker(c.evaluationKey)))];
        return Accepted(false);
      }
      attempts := attempts[c.attemptId := a.(json := Some(json), key := Some(c.evaluationKey))];
      outcome := Accepted(true);
    }
  }

  // ---- Every run -------------------------------------------------------------------------------------

  /** A keyed row holds a valid measurement of its own attempt, exactly as the encoder writes it. */
  ghost predicate Keyed(a: Attempt) {
    && a.json.Some? && a.key.Some? && IsEvaluationKey(a.key.value)
    && DecodeMeasurement(a.json).Some? && DecodeMarker(a.json).None?
    && MatchesCounts(DecodeMeasurement(a.json).value, a)
    && a.json.value == EncodeMeasurement(DecodeMeasurement(a.json).value)
  }

  /** An unkeyed row that is not empty is a marker for a key that some other row holds. */
  ghost predicate Marked(t: Table, a: Attempt) {
    DecodeMeasurement(a.json).None? && DecodeMarker(a.json).Some? && KeyTaken(t, DecodeMarker(a.json).value)
  }

  ghost predicate Sound(t: Table) {
    && (forall id :: id in t && t[id].key.Some? ==> Keyed(t[id]))
    && (forall id :: id in t && t[id].key.None? && t[id].json.Some? ==> Marked(t, t[id]))
    && (forall i, j :: i in t && j in t && i != j && t[i].key.Some? ==> t[i].key != t[j].key)
  }

  ghost predicate EmptyColumns(t: Table) {
    forall id :: id in t ==> t[id].json.None? && t[id].key.None?
  }

  function Run(t: Table, calls: seq<Call>): Table {
    if calls == [] then t else Run(RecordStep(t, calls[0]).0, calls[1..])
  }

  lemma StaysTaken(t: Table, id: string, a: Attempt, key: string)
    requires KeyTaken(t, key) && id in t && t[id].key.None?
    ensures KeyTaken(t[id := a], key)
  {
    var after := t[id := a];
    var holder :| holder in t && t[holder].key == Some(key);
    assert after[holder].key == Some(key);
  }

  /** A first measurement under a key that nobody holds. */
  lemma AcceptKeeps(t: Table, id: string, a: Attempt)
    requires Sound(t) && id in t && t[id].json.None? && t[id].key.None?
    requires a.key.Some? && Keyed(a) && !KeyTaken(t, a.key.value)
    ensures Sound(t[id := a])
  {
    hide Keyed; hide DecodeMeasurement; hide DecodeMarker;
    var after := t[id := a];
    forall j | j in after && after[j].key.None? && after[j].json.Some? ensures Marked(after, after[j]) {
      assert j != id && Marked(t, t[j]);
      StaysTaken(t, id, a, DecodeMarker(t[j].json).value);
    }
  }

  /** A marker for a key that somebody holds. */
  lemma MarkKeeps(t: Table, id: string, a: Attempt, key: string)
    requires Sound(t) && id in t && t[id].json.None? && t[id].key.None? && KeyTaken(t, key)
    requires a.key.None? && DecodeMeasurement(a.json).None? && DecodeMarker(a.json) == Some(key)
    ensures Sound(t[id := a])
  {
    hide Keyed; hide DecodeMeasurement; hide DecodeMarker;
    var after := t[id := a];
    StaysTaken(t, id, a, key);
    forall j | j in after && j != id && after[j].key.None? && after[j].json.Some? ensures Marked(after, after[j]) {
      assert Marked(t, t[j]);
      StaysTaken(t, id, a, DecodeMarker(t[j].json).value);
    }
  }

  /** An empty row has no key. */
  lemma EmptyRowHasNoKey(t: Table, id: string)
    requires Sound(t) && id in t && t[id].json.None?
    ensures t[id].key.None?
  {
    hide DecodeMeasurement; hide DecodeMarker;
  }

  lemma StepIsSound(t: Table, c: Call)
    requires Sound(t)
    ensures Sound(RecordStep(t, c).0)
  {
    hide MeasurementOf; hide EncodeMeasurement; hide DecodeMeasurement; hide DecodeMarker; hide EncodeMarker;
    hide IsEvaluationKey; hide Sound; hide KeyTaken; hide MatchesCounts;
    var after := RecordStep(t, c).0;
    if after != t {
      var id := c.attemptId;
      var m := MeasurementOf(c.value).value;
      MeasurementRoundTrip(m);
      MarkerRoundTrip(c.evaluationKey);
      NeverBoth(after[id].json);
      EmptyRowHasNoKey(t, id);
      MatchIgnoresColumns(m, t[id], after[id]);
      if KeyTaken(t, c.evaluationKey) {
        MarkKeeps(t, id, after[id], c.evaluationKey);
      } else {
        AcceptKeeps(t, id, after[id]);
      }
    }
  }

  /** A call changes its own row only, and that only while its JSON is empty. */
  lemma StepTouches(t: Table, c: Call)
    ensures var after := RecordStep(t, c).0;
            after == t || (c.attemptId in t && t[c.attemptId].json.None? &&
              exists json, key :: after == t[c.attemptId := t[c.attemptId].(json := Some(json), key := key)])
  {
    hide MeasurementOf; hide EncodeMeasurement; hide DecodeMarker; hide EncodeMarker; hide MatchesCounts; hide KeyTaken;
    hide IsEvaluationKey;
    var after := RecordStep(t, c).0;
    if after != t {
      var a := after[c.attemptId];
      assert after == t[c.attemptId := t[c.attemptId].(json := Some(a.json.value), key := a.key)];
    }
  }

  /** What one call may do to a row: nothing, or fill its empty JSON once, counts kept. */
  lemma StepWritesOnce(t: Table, c: Call, id: string)
    requires id in t
    ensures var after := RecordStep(t, c).0;
            && after.Keys == t.Keys
            && after[id].(json := None, key := None) == t[id].(json := None, key := None)
            && (t[id].json.Some? ==> after[id] == t[id])
  {
    StepTouches(t, c);
    hide RecordStep;
  }

  lemma EmptyIsSound(t: Table)
    requires EmptyColumns(t)
    ensures Sound(t)
  {
  }

  /**
   * Over every run: the invariant holds, attempts and their counts stay, and a filled row never
   * changes again.
   */
  lemma {:induction false} RunIsSound(t: Table, calls: seq<Call>)
    requires Sound(t)
    ensures Sound(Run(t, calls)) && Run(t, calls).Keys == t.Keys
    ensures forall id :: id in t ==>
              && Run(t, calls)[id].(json := None, key := None) == t[id].(json := None, key := None)
              && (t[id].json.Some? ==> Run(t, calls)[id] == t[id])
  {
    hide Sound; hide RecordStep;
    if calls != [] {
      var next := RecordStep(t, calls[0]).0;
      StepIsSound(t, calls[0]);
      forall id | id in t
        ensures next.Keys == t.Keys && next[id].(json := None, key := None) == t[id].(json := None, key := None)
        ensures t[id].json.Some? ==> next[id] == t[id]
      {
        StepWritesOnce(t, calls[0], id);
      }
      assert next.Keys == t.Keys by {
        SameAttempts(t, calls[0]);
      }
      RunIsSound(next, calls[1..]);
    }
  }

  lemma SameAttempts(t: Table, c: Call)
    ensures RecordStep(t, c).0.Keys == t.Keys
  {
    hide MeasurementOf; hide EncodeMeasurement; hide DecodeMarker; hide EncodeMarker;
  }

  /** From empty columns, every reachable table is sound. */
  lemma ReachableIsSound(t: Table, calls: seq<Call>)
    requires EmptyColumns(t)
    ensures Sound(Run(t, calls))
  {
    EmptyIsSound(t);
    RunIsSound(t, calls);
  }

  /**
   * Replaying an accepted call, at once or after any further calls, is accepted with changed = false
   * and changes nothing.
   */
  lemma ReplayChangesNothing(t: Table, c: Call, later: seq<Call>)
    requires Sound(t) && RecordStep(t, c).1.Accepted?
    ensures var now := Run(RecordStep(t, c).0, later);
            RecordStep(now, c) == (now, Accepted(false))
  {
    var next := RecordStep(t, c).0;
    StepIsSound(t, c);
    RunIsSound(next, later);
    var now := Run(next, later);
    AcceptedFillsRow(t, c);
    hide Run; hide Sound; hide MeasurementOf; hide EncodeMeasurement;
    hide DecodeMarker; hide EncodeMarker; hide IsEvaluationKey;
    assert now[c.attemptId] == next[c.attemptId];
  }

  lemma MatchIgnoresColumns(m: Measurement, a: Attempt, b: Attempt)
    requires a.(json := None, key := None) == b.(json := None, key := None)
    ensures MatchesCounts(m, a) == MatchesCounts(m, b)
  {
  }

  /** An accepted call leaves its row answering the same call with "unchanged". */
  lemma AcceptedFillsRow(t: Table, c: Call)
    requires Sound(t) && RecordStep(t, c).1.Accepted?
    ensures MeasurementOf(c.value).Some? && IsEvaluationKey(c.evaluationKey)
    ensures c.attemptId in RecordStep(t, c).0
    ensures var a := RecordStep(t, c).0[c.attemptId];
            && a.eligible && a.json.Some? && MatchesCounts(MeasurementOf(c.value).value, a)
            && ExistingOutcome(a, c.evaluationKey, EncodeMeasurement(MeasurementOf(c.value).value))
               == Some(Accepted(false))
  {
    hide MeasurementOf; hide EncodeMeasurement; hide DecodeMeasurement; hide DecodeMarker; hide EncodeMarker;
    hide IsEvaluationKey; hide Sound; hide MatchesCounts; hide ValidMeasurement;
    var m := MeasurementOf(c.value).value;
    MeasurementRoundTrip(m);
    MarkerRoundTrip(c.evaluationKey);
    NeverBoth(Some(EncodeMeasurement(m)));
    MatchIgnoresColumns(m, t[c.attemptId], RecordStep(t, c).0[c.attemptId]);
  }

  // ---- What a call does ------------------------------------------------------------------------------------

  /** The row is this attempt's to fill: eligible, and its counts are those of the measurement. */
  ghost predicate Fillable(t: Table, id: string, m: Measurement) {
    && id in t && t[id].eligible
    && t[id].selectedCount == m.candidateItems && t[id].outputTokens.Some?
    && (t[id].selectedCount == 0 ==> m.beforeTokens == 0)
    && (t[id].selectedCount > 0 ==> 0 <= m.beforeTokens - t[id].outputTokens.value <= 8)
  }

  /** The call passes every check of its input and of the attempt it names. */
  ghost predicate Passes(t: Table, c: Call, m: Measurement) {
    MeasurementOf(c.value) == Some(m) && IsEvaluationKey(c.evaluationKey) && Fillable(t, c.attemptId, m)
  }

  /** The row already says what the call says: this measurement under this key, or a duplicate of this key. */
  ghost predicate SaysSame(a: Attempt, key: string, m: Measurement) {
    (DecodeMeasurement(a.json) == Some(m) && a.key == Some(key)) || DecodeMarker(a.json) == Some(key)
  }

  ghost predicate Fills(t: Table, c: Call, m: Measurement) { Passes(t, c, m) && t[c.attemptId].json == None }

  ghost predicate Repeats(t: Table, c: Call, m: Measurement) {
    Passes(t, c, m) && t[c.attemptId].json != None && SaysSame(t[c.attemptId], c.evaluationKey, m)
  }

  ghost predicate Contradicts(t: Table, c: Call, m: Measurement) {
    Passes(t, c, m) && t[c.attemptId].json != None && !SaysSame(t[c.attemptId], c.evaluationKey, m)
  }

  ghost predicate NobodyHolds(t: Table, key: string) { forall id :: id in t ==> t[id].key != Some(key) }

  lemma CountsMeanFillable(t: Table, id: string, m: Measurement)
    requires id in t
    ensures t[id].eligible && MatchesCounts(m, t[id]) <==> Fillable(t, id, m)
  {
  }

  /** In a sound table a filled row answers "unchanged" exactly when it says the same, and else "conflict". */
  lemma FilledRowAnswers(t: Table, id: string, key: string, m: Measurement)
    requires Sound(t) && id in t && t[id].json.Some? && ValidMeasurement(m)
    ensures ExistingOutcome(t[id], key, EncodeMeasurement(m)) ==
            Some(if SaysSame(t[id], key, m) then Accepted(false) else Refused(IdempotencyConflict))
  {
    hide EncodeMeasurement; hide DecodeMeasurement; hide DecodeMarker; hide IsEvaluationKey; hide MatchesCounts;
    hide ValidMeasurement;
    var a := t[id];
    MeasurementRoundTrip(m);
    NeverBoth(a.json);
    if a.key.Some? {
      assert Keyed(a);
    } else {
      assert Marked(t, a);
    }
  }

  /**
   * Over sound tables a call is accepted if and only if it passes its checks and its row is empty or says the same;
   * a row that says something else gives a conflict; and "changed" means an empty row and a key that nobody held.
   */
  lemma CallDecides(t: Table, c: Call)
    requires Sound(t)
    ensures RecordStep(t, c).1.Accepted? <==> exists m :: Fills(t, c, m) || Repeats(t, c, m)
    ensures RecordStep(t, c).1 == Accepted(true) <==> (exists m :: Fills(t, c, m)) && NobodyHolds(t, c.evaluationKey)
    ensures RecordStep(t, c).1 == Refused(IdempotencyConflict) <==> exists m :: Contradicts(t, c, m)
    ensures RecordStep(t, c).1 == Refused(AttemptNotFound) <==>
            && MeasurementOf(c.value).Some? && IsEvaluationKey(c.evaluationKey)
            && (c.attemptId in t ==> !t[c.attemptId].eligible)
    ensures RecordStep(t, c).0 == t || exists m :: Fills(t, c, m)
  {
    hide MeasurementOf; hide EncodeMeasurement; hide DecodeMeasurement; hide DecodeMarker; hide EncodeMarker;
    hide IsEvaluationKey; hide Sound; hide MatchesCounts; hide ExistingOutcome; hide SaysSame;
    if MeasurementOf(c.value).Some? && c.attemptId in t {
      var m := MeasurementOf(c.value).value;
      CountsMeanFillable(t, c.attemptId, m);
      EmptyAnswersNothing(t[c.attemptId], c.evaluationKey, EncodeMeasurement(m));
      if t[c.attemptId].json.Some? {
        FilledRowAnswers(t, c.attemptId, c.evaluationKey, m);
      }
      assert forall n :: Passes(t, c, n) ==> n == m;
      assert Passes(t, c, m) ==> Fills(t, c, m) || Repeats(t, c, m) || Contradicts(t, c, m);
    }
  }

  lemma EmptyAnswersNothing(a: Attempt, key: string, json: string)
    ensures ExistingOutcome(a, key, json).None? <==> a.json.None?
  {
    hide DecodeMarker;
  }

  /**
   * An accepted call on an empty row fills that row alone and keeps its counts: with the measurement under the key
   * if nobody held it, and else with a marker of the key and no key of its own.
   */
  lemma CallFills(t: Table, c: Call, m: Measurement)
    requires Sound(t) && Fills(t, c, m)
    ensures var after := RecordStep(t, c).0;
            && after.Keys == t.Keys
            && (forall id :: id in t && id != c.attemptId ==> after[id] == t[id])
            && after[c.attemptId].(json := None, key := None) == t[c.attemptId].(json := None, key := None)
            && if NobodyHolds(t, c.evaluationKey) then
                 && after[c.attemptId].key == Some(c.evaluationKey)
                 && DecodeMeasurement(after[c.attemptId].json) == Some(m)
               else
                 && after[c.attemptId].key == None
                 && DecodeMarker(after[c.attemptId].json) == Some(c.evaluationKey)
  {
    hide MeasurementOf; hide EncodeMeasurement; hide DecodeMeasurement; hide DecodeMarker; hide EncodeMarker;
    hide IsEvaluationKey; hide Sound; hide MatchesCounts; hide ExistingOutcome; hide Fillable; hide ValidMeasurement;
    FillableIsStored(t, c, m);
    CountsMeanFillable(t, c.attemptId, m);
    EmptyAnswersNothing(t[c.attemptId], c.evaluationKey, EncodeMeasurement(m));
    EmptyRowHasNoKey(t, c.attemptId);
    MeasurementRoundTrip(m);
    MarkerRoundTrip(c.evaluationKey);
  }

  lemma FillableIsStored(t: Table, c: Call, m: Measurement)
    requires Passes(t, c, m)
    ensures c.attemptId in t && ValidMeasurement(m)
  {
    hide MeasurementOf; hide ValidMeasurement;
  }

  // ---- Health totals -----------------------------------------------------------------------------------

  datatype RecallRow = RecallRow(json: Option<string>, key: Option<string>)

  predicate Measured(r: RecallRow) { DecodeMeasurement(r.json).Some? }

  /** `measuredEvaluationKeys`. */
  function MeasuredKeys(rows: seq<RecallRow>): set<string> {
    set r | r in rows && Measured(r) && r.key.Some? && IsEvaluationKey(r.key.value) :: r.key.value
  }

  /** A duplicate whose fresh evaluation is among the rows. */
  predicate ResolvedDuplicate(rows: seq<RecallRow>, r: RecallRow) {
    !Measured(r) && DecodeMarker(r.json).Some? && DecodeMarker(r.json).value in MeasuredKeys(rows)
  }

  predicate Unmeasured(rows: seq<RecallRow>, r: RecallRow) { !Measured(r) && !ResolvedDuplicate(rows, r) }

  /** The measured totals the ledger reports. */
  datatype Quantity =
    | Fresh | WithDuplicates | Candidates | Omitted | Before | After | Avoided | Missing | Invalid | Gaps

  function Amount(q: Quantity, m: Measurement): nat
    requires ValidMeasurement(m)
  {
    match q
    case Fresh => 1
    case WithDuplicates => if m.duplicatesOmitted > 0 then 1 else 0
    case Candidates => m.candidateItems
    case Omitted => m.duplicatesOmitted
    case Before => m.beforeTokens
    case After => m.afterTokens
    case Avoided => m.beforeTokens - m.afterTokens
    case Missing => if m.missingRetained then 1 else 0
    case Invalid => if m.invalidRetained then 1 else 0
    case Gaps => if m.packMetadata != PackValid then 1 else 0
  }

  /** A row's share of a total: nothing when it holds no measurement. */
  function Share(q: Quantity, r: RecallRow): nat {
    if Measured(r) then Amount(q, DecodeMeasurement(r.json).value) else 0
  }

  function Total(rows: seq<RecallRow>, q: Quantity): nat { Sum(rows, r => Share(q, r)) }

  /** The ten measured totals of the result object. */
  datatype Totals = Totals(
    freshEvaluations: nat, evaluationsWithDuplicates: nat, candidateItems: nat, duplicatesOmitted: nat,
    beforeTokens: nat, afterTokens: nat, estimatedTokensAvoided: nat,
    missingRetainedMetadata: nat, invalidRetainedMetadata: nat, packMetadataGaps: nat)

  function Entry(t: Totals, q: Quantity): nat {
    match q
    case Fresh => t.freshEvaluations
    case WithDuplicates => t.evaluationsWithDuplicates
    case Candidates => t.candidateItems
    case Omitted => t.duplicatesOmitted
    case Before => t.beforeTokens
    case After => t.afterTokens
    case Avoided => t.estimatedTokensAvoided
    case Missing => t.missingRetainedMetadata
    case Invalid => t.invalidRetainedMetadata
    case Gaps => t.packMetadataGaps
  }

  function Bit(holds: bool): nat { if holds then 1 else 0 }

  function Added(t: Totals, m: Measurement): Totals
    requires m.afterTokens <= m.beforeTokens
  {
    Totals(t.freshEvaluations + 1, t.evaluationsWithDuplicates + Bit(m.duplicatesOmitted > 0),
           t.candidateItems + m.candidateItems, t.duplicatesOmitted + m.duplicatesOmitted,
           t.beforeTokens + m.beforeTokens, t.afterTokens + m.afterTokens,
           t.estimatedTokensAvoided + (m.beforeTokens - m.afterTokens),
           t.missingRetainedMetadata + Bit(m.missingRetained), t.invalidRetainedMetadata + Bit(m.invalidRetained),
           t.packMetadataGaps + Bit(m.packMetadata != PackValid))
  }

  lemma EntryAdds(t: Totals, m: Measurement, q: Quantity)
    requires ValidMeasurement(m)
    ensures m.afterTokens <= m.beforeTokens && Entry(Added(t, m), q) == Entry(t, q) + Amount(q, m)
  {
  }

  /** The result object `automaticRecallHealth` fills. */
  class Health {
    var freshEvaluations: nat
    var evaluationsWithDuplicates: nat
    var candidateItems: nat
    var duplicatesOmitted: nat
    var beforeTokens: nat
    var afterTokens: nat
    var estimatedTokensAvoided: nat
    var missingRetainedMetadata: nat
    var invalidRetainedMetadata: nat
    var packMetadataGaps: nat
    var unmeasuredAttempts: nat

    function Fields(): Totals
      reads this
    {
      Totals(freshEvaluations, evaluationsWithDuplicates, candidateItems, duplicatesOmitted, beforeTokens, afterTokens,
             estimatedTokensAvoided, missingRetainedMetadata, invalidRetainedMetadata, packMetadataGaps)
    }

    function Reported(q: Quantity): nat
      reads this
    {
      Entry(Fields(), q)
    }

    constructor ()
      ensures forall q :: Reported(q) == 0
      ensures unmeasuredAttempts == 0
    {
      freshEvaluations, evaluationsWithDuplicates, candidateItems, duplicatesOmitted := 0, 0, 0, 0;
      beforeTokens, afterTokens, estimatedTokensAvoided := 0, 0, 0;
      missingRetainedMetadata, invalidRetainedMetadata, packMetadataGaps, unmeasuredAttempts := 0, 0, 0, 0;
    }

    method AddMeasurement(m: Measurement)
      requires ValidMeasurement(m)
      modifies this
      ensures forall q :: Reported(q) == old(Reported(q)) + Amount(q, m)
      ensures unmeasuredAttempts == old(unmeasuredAttempts)
    {
      hide Entry; hide Amount; hide Bit; hide ValidMeasurement; hide Added;
      EntryAdds(Fields(), m, Fresh);
      AddFields(m);
      forall q ensures Reported(q) == old(Reported(q)) + Amount(q, m) {
        EntryAdds(old(Fields()), m, q);
      }
    }

    method AddCounts(m: Measurement)
      modifies this`freshEvaluations, this`evaluationsWithDuplicates, this`candidateItems, this`duplicatesOmitted
      ensures freshEvaluations == old(freshEvaluations) + 1
      ensures evaluationsWithDuplicates == old(evaluationsWithDuplicates) + Bit(m.duplicatesOmitted > 0)
      ensures candidateItems == old(candidateItems) + m.candidateItems
      ensures duplicatesOmitted == old(duplicatesOmitted) + m.duplicatesOmitted
    {
      hide Bit;
      freshEvaluations := freshEvaluations + 1;
      evaluationsWithDuplicates := evaluationsWithDuplicates + Bit(m.duplicatesOmitted > 0);
      candidateItems := candidateItems + m.candidateItems;
      duplicatesOmitted := duplicatesOmitted + m.duplicatesOmitted;
    }

    method AddTokens(m: Measurement)
      requires m.afterTokens <= m.beforeTokens
      modifies this`beforeTokens, this`afterTokens, this`estimatedTokensAvoided
      ensures beforeTokens == old(beforeTokens) + m.beforeTokens && afterTokens == old(afterTokens) + m.afterTokens
      ensures estimatedTokensAvoided == old(estimatedTokensAvoided) + (m.beforeTokens - m.afterTokens)
    {
      beforeTokens := beforeTokens + m.beforeTokens;
      afterTokens := afterTokens + m.afterTokens;
      estimatedTokensAvoided := estimatedTokensAvoided + (m.beforeTokens - m.afterTokens);
    }

    /** The ten increments. */
    method AddFields(m: Measurement)
      requires m.afterTokens <= m.beforeTokens
      modifies this
      ensures Fields() == Added(old(Fields()), m) && unmeasuredAttempts == old(unmeasuredAttempts)
    {
      hide Bit;
      AddCounts(m);
      AddTokens(m);
      missingRetainedMetadata := missingRetainedMetadata + Bit(m.missingRetained);
      invalidRetainedMetadata := invalidRetainedMetadata + Bit(m.invalidRetained);
      packMetadataGaps := packMetadataGaps + Bit(m.packMetadata != PackValid);
    }

    /** `aggregateAutomaticRecallRows` on a fresh result. */
    method Aggregate(rows: seq<RecallRow>)
      requires forall q :: Reported(q) == 0
      requires unmeasuredAttempts == 0
      modifies this
      ensures forall q :: Reported(q) == Total(rows, q)
      ensures unmeasuredAttempts == Count(rows, r => Unmeasured(rows, r))
    {
      hide DecodeMeasurement; hide DecodeMarker; hide Reported; hide Total; hide Amount;
      var measuredKeys := MeasuredKeys(rows);
      NothingTotalled(rows);
      for i := 0 to |rows|
        invariant forall q :: Reported(q) == Total(rows[..i], q)
        invariant unmeasuredAttempts == Count(rows[..i], r => Unmeasured(rows, r))
      {
        var row := rows[i];
        assert rows[..i + 1] == rows[..i] + [row];
        CountOneMore(rows[..i], row, r => Unmeasured(rows, r));
        forall q ensures Total(rows[..i + 1], q) == Total(rows[..i], q) + Share(q, row) {
          TotalOneMore(rows[..i], row, q);
        }
        var measurement := DecodeMeasurement(row.json);
        if measurement.Some? {
          AddMeasurement(measurement.value);
        } else {
          var duplicate := DecodeMarker(row.json);
          if duplicate.None? || duplicate.value !in measuredKeys {
            CountUnmeasured();
          }
        }
      }
      assert rows[..|rows|] == rows;
    }

    method CountUnmeasured()
      modifies this`unmeasuredAttempts
      ensures unmeasuredAttempts == old(unmeasuredAttempts) + 1
      ensures forall q :: Reported(q) == old(Reported(q))
    {
      unmeasuredAttempts := unmeasuredAttempts + 1;
    }
  }

  lemma NothingTotalled(rows: seq<RecallRow>)
    ensures forall q :: Total(rows[..0], q) == 0
  {
  }

  lemma TotalOneMore(rows: seq<RecallRow>, row: RecallRow, q: Quantity)
    ensures Total(rows + [row], q) == Total(rows, q) + Share(q, row)
  {
    hide Share;
    var g := (r: RecallRow) => Share(q, r);
    SumConcat(rows, [row], g);
    assert [row][1..] == [];
    assert Sum([row], g) == Share(q, row);
  }

  /** Every row is counted once: as fresh, as a resolved duplicate, or as unmeasured. */
  lemma {:induction false} CountedOnce(all: seq<RecallRow>, rows: seq<RecallRow>)
    ensures |rows| == Total(rows, Fresh) + Count(rows, r => ResolvedDuplicate(all, r))
                      + Count(rows, r => Unmeasured(all, r))
  {
    hide DecodeMeasurement; hide DecodeMarker; hide MeasuredKeys;
    if rows != [] {
      CountedOnce(all, rows[1..]);
    }
  }

  /** Tokens avoided are before minus after, and bounded by the rows. */
  lemma {:induction false} AvoidedIsTheDifference(rows: seq<RecallRow>)
    ensures Total(rows, Avoided) + Total(rows, After) == Total(rows, Before) <= MAX_COUNT * |rows|
    ensures |rows| <= 1000 ==> Total(rows, Avoided) <= 1_000_000_000
  {
    hide DecodeMeasurement;
    if rows != [] {
      AvoidedIsTheDifference(rows[1..]);
      assert Share(Before, rows[0]) <= MAX_COUNT;
    }
  }

  /** No total depends on the order in which the rows are read. */
  lemma TotalsIgnoreOrder(a: seq<RecallRow>, b: seq<RecallRow>, q: Quantity)
    requires multiset(a) == multiset(b)
    ensures Total(a, q) == Total(b, q)
    ensures Count(a, r => Unmeasured(a, r)) == Count(b, r => Unmeasured(b, r))
  {
    hide DecodeMeasurement; hide DecodeMarker; hide IsEvaluationKey;
    SumPermutation(a, b, r => Share(q, r));
    forall r ensures r in a <==> r in b {
      assert r in multiset(a) <==> r in multiset(b);
    }
    assert MeasuredKeys(a) == MeasuredKeys(b);
    CountSame(a, r => Unmeasured(a, r), r => Unmeasured(b, r));
    CountPermutation(a, b, r => Unmeasured(b, r));
  }

  // ---- Health of a reachable table --------------------------------------------------------------------------

  /** The whole table as the aggregation reads it. */
  function RowsOf(t: Table, ids: seq<string>): seq<RecallRow>
    requires forall id :: id in ids ==> id in t
  {
    seq(|ids|, i requires 0 <= i < |ids| => assert ids[i] in ids; RecallRow(t[ids[i]].json, t[ids[i]].key))
  }

  function KeysOf(t: Table, ids: seq<string>): set<string> {
    set id | id in ids && id in t && t[id].key.Some? :: t[id].key.value
  }

  /** In a sound table the measured rows are the keyed ones. */
  lemma MeasuredMeansKeyed(t: Table, id: string)
    requires Sound(t) && id in t
    ensures Measured(RecallRow(t[id].json, t[id].key)) <==> t[id].key.Some?
  {
    hide DecodeMarker; hide IsEvaluationKey; hide MatchesCounts; hide EncodeMeasurement; hide MeasurementOf;
    var a := t[id];
    assert a.key.None? && a.json.Some? ==> Marked(t, a);
  }

  lemma KeysOfHead(t: Table, ids: seq<string>)
    requires Sound(t) && ids != [] && Distinct(ids) && forall id :: id in ids ==> id in t
    ensures |KeysOf(t, ids)| == |KeysOf(t, ids[1..])| + (if t[ids[0]].key.Some? then 1 else 0)
  {
    hide Keyed; hide Marked;
    var head, tail := ids[0], ids[1..];
    assert head in ids && head !in tail;
    assert forall id :: id in ids <==> id == head || id in tail;
    if t[head].key.Some? {
      assert t[head].key.value !in KeysOf(t, tail);
      assert KeysOf(t, ids) == KeysOf(t, tail) + {t[head].key.value};
    } else {
      assert KeysOf(t, ids) == KeysOf(t, tail);
    }
  }

  /** Fresh evaluations are the distinct accepted keys. */
  lemma {:induction false} FreshIsDistinctKeys(t: Table, ids: seq<string>)
    requires Sound(t) && Distinct(ids) && forall id :: id in ids ==> id in t
    ensures Total(RowsOf(t, ids), Fresh) == |KeysOf(t, ids)|
  {
    hide Sound; hide DecodeMeasurement; hide KeysOf;
    if ids == [] {
      NoKeys(t);
    } else {
      var tail := ids[1..];
      assert forall id :: id in tail ==> id in ids;
      FreshIsDistinctKeys(t, tail);
      KeysOfHead(t, ids);
      MeasuredMeansKeyed(t, ids[0]);
      var rows := RowsOf(t, ids);
      assert rows[1..] == RowsOf(t, tail);
      assert Total(rows, Fresh) == Share(Fresh, rows[0]) + Total(rows[1..], Fresh);
    }
  }

  lemma NoKeys(t: Table)
    ensures KeysOf(t, []) == {}
  {
  }

  /**
   * Over a reachable table that lies wholly in the window, fresh evaluations number the distinct
   * accepted keys, and the unmeasured rows are exactly the attempts never recorded.
   */
  lemma ReachableHealth(start: Table, calls: seq<Call>, ids: seq<string>)
    requires EmptyColumns(start) && Distinct(ids)
    requires forall id :: id in ids <==> id in Run(start, calls)
    ensures var t := Run(start, calls);
            var rows := RowsOf(t, ids);
            && Total(rows, Fresh) == |KeysOf(t, ids)|
            && forall i :: 0 <= i < |ids| ==> (Unmeasured(rows, rows[i]) <==> t[ids[i]].json.None?)
  {
    ReachableIsSound(start, calls);
    var t := Run(start, calls);
    FreshIsDistinctKeys(t, ids);
    forall i | 0 <= i < |ids| ensures Unmeasured(RowsOf(t, ids), RowsOf(t, ids)[i]) <==> t[ids[i]].json.None? {
      UnmeasuredIsEmpty(t, ids, i);
    }
  }

  lemma UnmeasuredIsEmpty(t: Table, ids: seq<string>, i: nat)
    requires Sound(t) && i < |ids|
    requires forall id :: id in ids <==> id in t
    ensures Unmeasured(RowsOf(t, ids), RowsOf(t, ids)[i]) <==> t[ids[i]].json.None?
  {
    var rows, a := RowsOf(t, ids), t[ids[i]];
    assert ids[i] in t;
    if a.json.None? {
      assert !Measured(rows[i]) && DecodeMarker(rows[i].json).None?;
    } else if a.key.None? {
      hide DecodeMeasurement; hide DecodeMarker; hide IsEvaluationKey;
      var key := DecodeMarker(a.json).value;
      var holder :| holder in t && t[holder].key == Some(key);
      var k :| 0 <= k < |ids| && ids[k] == holder;
      assert rows[k] in rows && rows[k].key == Some(key) && Measured(rows[k]);
      assert key in MeasuredKeys(rows);
    } else {
      hide DecodeMeasurement; hide DecodeMarker; hide IsEvaluationKey;
    }
  }
}
