/**
 * Randomized contrasts: closed comparison groups, the label each resolves to, and the unique
 * attempt every linked row is matched to in its own experiment cell.
 */
module AttributionRandomized {
  import opened Collections
  import opened Text
  import opened AttributionRecords
  import opened AttributionSubject

  /** What an assessment is about. */
  datatype Context = Context(attempt: Attempt, subject: Subject, exposureId: Option<int>)

  function Rows(evidence: seq<Evidence>): set<Evidence> { set r | r in evidence }

  // ---- Comparison keys --------------------------------------------------------------------------

  datatype Key =
    | ByIdentifiers(evidenceType: EvidenceType, check: Option<string>, assertion: Option<string>,
                    checkout: Option<string>, fixture: Option<string>, rubric: Option<string>)
    | ByAttempt(evidenceType: EvidenceType, attemptId: string)
    | ByExposure(evidenceType: EvidenceType, exposureId: int)

  /** `comparisonKey`: None keeps the row out of every group. */
  function ComparisonKey(ctx: Context, row: Evidence): Option<Key> {
    var names := RowNamesSubject(ctx.attempt, ctx.subject, ctx.exposureId, row);
    var r := row.references;
    if ctx.subject == ExposureSubject && !names then None
    else if r.checkId.Some? || r.assertionId.Some? || r.checkoutId.Some? || r.fixtureId.Some? then
      Some(ByIdentifiers(row.evidenceType, r.checkId, r.assertionId, r.checkoutId, r.fixtureId, r.rubricId))
    else if !names then None
    else if ctx.subject == AttemptSubject then Some(ByAttempt(row.evidenceType, ctx.attempt.attemptId))
    else if ctx.exposureId.Some? then Some(ByExposure(row.evidenceType, ctx.exposureId.value))
    else None
  }

  const NAMES := ["check:", "assertion:", "checkout:", "fixture:", "rubric:"]

  /** `name:value` for every identifier that is present, in order. */
  function Parts(names: seq<string>, ids: seq<Option<string>>): seq<string>
    requires |names| == |ids|
  {
    if names == [] then []
    else (if ids[0].Some? then [names[0] + ids[0].value] else []) + Parts(names[1..], ids[1..])
  }

  /** The parts the source joins with `|`; `name` gives the text of an evidence type. */
  function KeyParts(key: Key, name: EvidenceType -> string): seq<string> {
    match key
    case ByIdentifiers(t, check, assertion, checkout, fixture, rubric) =>
      [name(t)] + Parts(NAMES, [check, assertion, checkout, fixture, rubric])
    case ByAttempt(t, id) => [name(t), "attempt:" + id]
    case ByExposure(t, id) => [name(t), "exposure:" + Decimal(if id < 0 then 0 else id)]
  }

  predicate Comparable(p: string, q: string) { p <= q || q <= p }

  lemma {:induction false} FirstPart(names: seq<string>, ids: seq<Option<string>>) returns (j: nat)
    requires |names| == |ids| && Parts(names, ids) != []
    ensures j < |names| && ids[j].Some? && Parts(names, ids)[0] == names[j] + ids[j].value
  {
    if ids[0].Some? {
      j := 0;
    } else {
      var k := FirstPart(names[1..], ids[1..]);
      j := k + 1;
    }
  }

  lemma {:induction false} PartsInjective(names: seq<string>, a: seq<Option<string>>, b: seq<Option<string>>)
    requires |names| == |a| == |b|
    requires forall i, j :: 0 <= i < j < |names| ==> !Comparable(names[i], names[j])
    requires Parts(names, a) == Parts(names, b)
    ensures a == b
  {
    if names != [] {
      NoFalseHead(names, a, b);
      NoFalseHead(names, b, a);
      var p, q := Parts(names, a), Parts(names, b);
      var c, d := Parts(names[1..], a[1..]), Parts(names[1..], b[1..]);
      if a[0].Some? {
        assert p[1..] == c && q[1..] == d;
        assert a[0].value == p[0][|names[0]|..] && b[0].value == q[0][|names[0]|..];
      } else {
        assert p == c && q == d;
      }
      PartsInjective(names[1..], a[1..], b[1..]);
      assert a == [a[0]] + a[1..] && b == [b[0]] + b[1..];
    }
  }

  lemma NoFalseHead(names: seq<string>, a: seq<Option<string>>, b: seq<Option<string>>)
    requires |names| == |a| == |b| > 0
    requires forall i, j :: 0 <= i < j < |names| ==> !Comparable(names[i], names[j])
    requires Parts(names, a) == Parts(names, b)
    ensures a[0].Some? ==> b[0].Some?
  {
    if a[0].Some? && b[0].None? {
      var j := FirstPart(names, b);
      var text := Parts(names, a)[0];
      CommonPrefixes(names[0], names[j], text);
    }
  }

  lemma CommonPrefixes(p: string, q: string, text: string)
    requires p <= text && q <= text
    ensures Comparable(p, q)
  {
    if |p| <= |q| {
      assert p == text[..|p|] == q[..|p|];
    } else {
      assert q == text[..|q|] == p[..|q|];
    }
  }

  lemma NamesIncomparable()
    ensures forall i, j :: 0 <= i < j < |NAMES| ==> !Comparable(NAMES[i], NAMES[j])
  {
    var check, assertion, checkout, fixture, rubric := NAMES[0], NAMES[1], NAMES[2], NAMES[3], NAMES[4];
    assert check[0] == 'c' && assertion[0] == 'a' && checkout[0] == 'c' && fixture[0] == 'f' && rubric[0] == 'r';
    assert check[5] == ':' && checkout[5] == 'o';
  }

  ghost predicate PlainKey(key: Key) {
    match key
    case ByIdentifiers(_, check, assertion, checkout, fixture, rubric) =>
      forall id :: id in [check, assertion, checkout, fixture, rubric] && id.Some? ==> '|' !in id.value
    case ByAttempt(_, id) => '|' !in id
    case ByExposure(_, id) => id >= 1
  }

  predicate HasIdentifier(key: Key) {
    key.ByIdentifiers? ==> key.check.Some? || key.assertion.Some? || key.checkout.Some? || key.fixture.Some?
  }

  lemma IdentifierPartsDiffer(j: Key, k: Key, name: EvidenceType -> string)
    requires j.ByIdentifiers? && HasIdentifier(j) && !k.ByIdentifiers?
    ensures KeyParts(j, name) != KeyParts(k, name)
  {
    var ids := [j.check, j.assertion, j.checkout, j.fixture, j.rubric];
    var parts := Parts(NAMES, ids);
    var p, q := KeyParts(j, name), KeyParts(k, name);
    assert p[1..] == parts;
    if parts != [] {
      var i := FirstPart(NAMES, ids);
      assert p[1] == parts[0] == NAMES[i] + ids[i].value;
      var n := NAMES[i];
      assert (n[0] == 'c' && n[1] == 'h') || (n[0] == 'a' && n[1] == 's') || n[0] == 'f' || n[0] == 'r';
      assert p[1][0] == n[0] && p[1][1] == n[1];
      assert (q[1][0] == 'a' && q[1][1] == 't') || q[1][0] == 'e';
    }
  }

  /**
   * The joined text groups rows exactly as the structured key does: two rows share the text if and
   * only if they agree on type, identifiers and rubric, or on type and subject.
   */
  lemma KeyTextIsFaithful(j: Key, k: Key, name: EvidenceType -> string)
    requires forall t, u :: name(t) == name(u) ==> t == u
    requires forall t :: '|' !in name(t)
    requires PlainKey(j) && PlainKey(k) && HasIdentifier(j) && HasIdentifier(k)
    ensures Join(KeyParts(j, name), '|') == Join(KeyParts(k, name), '|') <==> j == k
  {
    if Join(KeyParts(j, name), '|') == Join(KeyParts(k, name), '|') {
      PlainParts(j, name);
      PlainParts(k, name);
      JoinInjective(KeyParts(j, name), KeyParts(k, name), '|');
      assert KeyParts(j, name)[0] == name(j.evidenceType) && KeyParts(k, name)[0] == name(k.evidenceType);
      SameParts(j, k, name);
    }
  }

  lemma PlainParts(key: Key, name: EvidenceType -> string)
    requires forall t :: '|' !in name(t)
    requires PlainKey(key)
    ensures KeyParts(key, name) != []
    ensures forall i :: 0 <= i < |KeyParts(key, name)| ==> '|' !in KeyParts(key, name)[i]
  {
    if key.ByExposure? {
      var text := Decimal(key.exposureId);
      assert forall i :: 0 <= i < |text| ==> IsDigit(text[i]);
    } else if key.ByIdentifiers? {
      var ids := [key.check, key.assertion, key.checkout, key.fixture, key.rubric];
      assert forall id :: id in ids && id.Some? ==> '|' !in id.value;
      PlainPartList(NAMES, ids);
    }
  }

  lemma {:induction false} PlainPartList(names: seq<string>, ids: seq<Option<string>>)
    requires |names| == |ids|
    requires forall n :: n in names ==> '|' !in n
    requires forall id :: id in ids && id.Some? ==> '|' !in id.value
    ensures forall i :: 0 <= i < |Parts(names, ids)| ==> '|' !in Parts(names, ids)[i]
  {
    if names != [] {
      PlainPartList(names[1..], ids[1..]);
    }
  }

  lemma SameParts(j: Key, k: Key, name: EvidenceType -> string)
    requires KeyParts(j, name) == KeyParts(k, name) && j.evidenceType == k.evidenceType
    requires PlainKey(j) && PlainKey(k) && HasIdentifier(j) && HasIdentifier(k)
    ensures j == k
  {
    if j.ByIdentifiers? && k.ByIdentifiers? {
      SameIdentifiers(j, k, name);
    } else if j.ByIdentifiers? {
      IdentifierPartsDiffer(j, k, name);
    } else if k.ByIdentifiers? {
      IdentifierPartsDiffer(k, j, name);
    } else {
      var p, q := KeyParts(j, name)[1], KeyParts(k, name)[1];
      assert p[0] == (if j.ByAttempt? then 'a' else 'e') && q[0] == (if k.ByAttempt? then 'a' else 'e');
      if j.ByAttempt? {
        assert j.attemptId == p[8..] && k.attemptId == q[8..];
      } else {
        assert Decimal(j.exposureId) == p[9..] && Decimal(k.exposureId) == q[9..];
      }
    }
  }

  lemma SameIdentifiers(j: Key, k: Key, name: EvidenceType -> string)
    requires j.ByIdentifiers? && k.ByIdentifiers? && j.evidenceType == k.evidenceType
    requires KeyParts(j, name) == KeyParts(k, name)
    ensures j == k
  {
    var a := [j.check, j.assertion, j.checkout, j.fixture, j.rubric];
    var b := [k.check, k.assertion, k.checkout, k.fixture, k.rubric];
    assert KeyParts(j, name)[1..] == Parts(NAMES, a) && KeyParts(k, name)[1..] == Parts(NAMES, b);
    NamesIncomparable();
    PartsInjective(NAMES, a, b);
    assert a[0] == b[0] && a[1] == b[1] && a[2] == b[2] && a[3] == b[3] && a[4] == b[4];
  }

  // ---- Ranks and closed groups ---------------------------------------------------------------------

  function QualityRank(row: Evidence): Option<nat> {
    if row.dimension != Quality then None
    else match row.status
         case Pass => Some(2)
         case Mixed => Some(1)
         case Fail => Some(0)
         case _ => None
  }

  function RankRelation(attemptRank: nat, comparisonRank: nat): Label {
    if attemptRank > comparisonRank then Helpful
    else if attemptRank < comparisonRank then Harmful
    else Irrelevant
  }

  predicate AttemptSide(cell: string, row: Evidence) { row.experimentCellId == Some(cell) }

  /**
   * What it means for a closed group to resolve to a label: both sides are there, every rank is
   * known, the attempt side is uniform, and it stands in one relation to every comparison row.
   */
  predicate ResolvesTo(cell: string, group: set<Evidence>, known: Label) {
    && (exists r :: r in group && AttemptSide(cell, r))
    && (exists r :: r in group && !AttemptSide(cell, r))
    && (forall r :: r in group ==> QualityRank(r).Some?)
    && (forall r, s :: r in group && s in group && AttemptSide(cell, r) && AttemptSide(cell, s) ==>
          QualityRank(r) == QualityRank(s))
    && (forall r, s :: r in group && s in group && AttemptSide(cell, r) && !AttemptSide(cell, s) ==>
          RankRelation(QualityRank(r).value, QualityRank(s).value) == known)
  }

  /** The source's test of one group: filter the sides, compare everything with the first rank. */
  function GroupRelation(cell: string, rows: seq<Evidence>): (relation: Option<Label>)
    ensures forall known :: relation == Some(known) <==> ResolvesTo(cell, Rows(rows), known)
  {
    hide QualityRank; hide RankRelation; hide AttemptSide;
    var attemptRows := Filter(rows, r => AttemptSide(cell, r));
    var comparisonRows := Filter(rows, r => !AttemptSide(cell, r));
    if attemptRows == [] || comparisonRows == [] then
      assert attemptRows != [] ==> attemptRows[0] in rows;
      None
    else
      assert attemptRows[0] in attemptRows && comparisonRows[0] in comparisonRows;
      if exists r :: r in rows && QualityRank(r).None? then None
      else
        var attemptRank := QualityRank(attemptRows[0]).value;
        if exists r :: r in attemptRows && QualityRank(r) != Some(attemptRank) then None
        else
          var relation := RankRelation(attemptRank, QualityRank(comparisonRows[0]).value);
          if exists r :: r in comparisonRows && RankRelation(attemptRank, QualityRank(r).value) != relation then
            None
          else
            Some(relation)
  }

  lemma ResolutionIsUnique(cell: string, group: set<Evidence>, first: Label, second: Label)
    requires ResolvesTo(cell, group, first) && ResolvesTo(cell, group, second)
    ensures first == second
  {
    var r :| r in group && AttemptSide(cell, r);
    var s :| s in group && !AttemptSide(cell, s);
    assert RankRelation(QualityRank(r).value, QualityRank(s).value) == first;
  }

  // ---- Resolution in outcomes --------------------------------------------------------------------------

  /** Outcome in the attempt's cell, outcome in another cell, and the label the two show. */
  const READINGS := {
    (Pass, Mixed, Helpful), (Pass, Fail, Helpful), (Mixed, Fail, Helpful),
    (Mixed, Pass, Harmful), (Fail, Pass, Harmful), (Fail, Mixed, Harmful),
    (Pass, Pass, Irrelevant), (Mixed, Mixed, Irrelevant), (Fail, Fail, Irrelevant)}

  /** Quality rows on both sides: the attempt's all have this outcome, the others all read as the label against it. */
  ghost predicate Reads(cell: string, group: set<Evidence>, outcome: Status, known: Label) {
    && (exists r :: r in group && r.experimentCellId == Some(cell))
    && (exists r :: r in group && r.experimentCellId != Some(cell))
    && forall r :: r in group ==>
         && r.dimension == Quality
         && (if r.experimentCellId == Some(cell) then r.status == outcome else (outcome, r.status, known) in READINGS)
  }

  lemma RankedOutcome(row: Evidence)
    ensures QualityRank(row).Some? <==> row.dimension == Quality && row.status in {Pass, Mixed, Fail}
  {
  }

  lemma ReadingOfRanks(own: Evidence, other: Evidence, known: Label)
    requires own.dimension == other.dimension == Quality
    ensures (own.status, other.status, known) in READINGS <==>
            && QualityRank(own).Some? && QualityRank(other).Some?
            && RankRelation(QualityRank(own).value, QualityRank(other).value) == known
  {
    match own.status case Pass => case Mixed => case Fail => case _ =>
  }

  lemma SameRankSameOutcome(r: Evidence, s: Evidence)
    requires QualityRank(r).Some? && QualityRank(r) == QualityRank(s)
    ensures r.status == s.status
  {
  }

  /** A group resolves exactly as the nine readings say, whatever ranks stand behind them. */
  lemma ResolvesByReadings(cell: string, group: set<Evidence>, known: Label)
    ensures ResolvesTo(cell, group, known) <==> exists outcome :: Reads(cell, group, outcome, known)
  {
    hide QualityRank; hide RankRelation;
    if ResolvesTo(cell, group, known) {
      ResolvedReads(cell, group, known);
    }
    if outcome :| Reads(cell, group, outcome, known) {
      ReadResolves(cell, group, outcome, known);
    }
  }

  lemma ResolvedReads(cell: string, group: set<Evidence>, known: Label)
    requires ResolvesTo(cell, group, known)
    ensures exists outcome :: Reads(cell, group, outcome, known)
  {
    hide QualityRank; hide RankRelation;
    var own :| own in group && AttemptSide(cell, own);
    forall r | r in group
      ensures r.dimension == Quality
      ensures if r.experimentCellId == Some(cell) then r.status == own.status
              else (own.status, r.status, known) in READINGS
    {
      RankedOutcome(own);
      RankedOutcome(r);
      if AttemptSide(cell, r) {
        SameRankSameOutcome(own, r);
      } else {
        ReadingOfRanks(own, r, known);
      }
    }
    assert Reads(cell, group, own.status, known);
  }

  lemma ReadResolves(cell: string, group: set<Evidence>, outcome: Status, known: Label)
    requires Reads(cell, group, outcome, known)
    ensures ResolvesTo(cell, group, known)
  {
    hide QualityRank; hide RankRelation;
    var own :| own in group && own.experimentCellId == Some(cell);
    var other :| other in group && other.experimentCellId != Some(cell);
    forall r | r in group ensures QualityRank(r).Some? {
      RankedOutcome(r);
      ReadingOfRanks(own, other, known);
      RankedOutcome(own);
      if !AttemptSide(cell, r) {
        ReadingOfRanks(own, r, known);
      }
    }
    forall r, s | r in group && s in group && AttemptSide(cell, r) && AttemptSide(cell, s)
      ensures QualityRank(r) == QualityRank(s)
    {
      SameOutcomeSameRank(r, s);
    }
    forall r, s | r in group && s in group && AttemptSide(cell, r) && !AttemptSide(cell, s)
      ensures RankRelation(QualityRank(r).value, QualityRank(s).value) == known
    {
      ReadingOfRanks(r, s, known);
    }
  }

  lemma SameOutcomeSameRank(r: Evidence, s: Evidence)
    requires r.dimension == s.dimension && r.status == s.status
    ensures QualityRank(r) == QualityRank(s)
  {
  }

  /**
   * Quality rows with one outcome in the attempt's cell and one outside it show the label of the table, and no label
   * at all when the pair is not in it.
   */
  lemma UniformGroup(cell: string, group: set<Evidence>, own: Status, other: Status, known: Label)
    requires exists r :: r in group && r.experimentCellId == Some(cell)
    requires exists r :: r in group && r.experimentCellId != Some(cell)
    requires forall r :: r in group ==>
               r.dimension == Quality && r.status == if r.experimentCellId == Some(cell) then own else other
    ensures ResolvesTo(cell, group, known) <==> (own, other, known) in READINGS
  {
    hide ResolvesTo;
    ResolvesByReadings(cell, group, known);
    if (own, other, known) in READINGS {
      assert Reads(cell, group, own, known);
    }
  }

  /** A row added to a resolved group keeps its relation or leaves it unresolved; never turns it. */
  lemma AddedRowNeverTurns(cell: string, group: set<Evidence>, row: Evidence, before: Label, after: Label)
    requires ResolvesTo(cell, group, before)
    requires ResolvesTo(cell, group + {row}, after)
    ensures before == after
  {
    var r :| r in group && AttemptSide(cell, r);
    var s :| s in group && !AttemptSide(cell, s);
    assert r in group + {row} && s in group + {row};
    assert RankRelation(QualityRank(r).value, QualityRank(s).value) == before;
  }

  function GroupOf(ctx: Context, rows: set<Evidence>, key: Key): set<Evidence> {
    set r | r in rows && ComparisonKey(ctx, r) == Some(key)
  }

  /** The row lies in a group that resolves to the label. */
  predicate IsWitness(ctx: Context, evidence: seq<Evidence>, row: Evidence, known: Label) {
    && row in evidence
    && ctx.attempt.experimentCellId.Some?
    && ComparisonKey(ctx, row).Some?
    && ResolvesTo(ctx.attempt.experimentCellId.value,
                  GroupOf(ctx, Rows(evidence), ComparisonKey(ctx, row).value), known)
  }

  /** `randomizedContrastWitnesses`: the rows that establish some label. */
  predicate IsContrastWitness(ctx: Context, evidence: seq<Evidence>, row: Evidence) {
    exists known :: known in LABELS && IsWitness(ctx, evidence, row, known)
  }

  predicate Supported(ctx: Context, evidence: seq<Evidence>, known: Label) {
    exists row :: row in evidence && IsWitness(ctx, evidence, row, known)
  }

  const LABELS := {Helpful, Irrelevant, Stale, Harmful}

  lemma EveryLabel()
    ensures forall known: Label :: known in LABELS
  {
    forall known: Label ensures known in LABELS {
      match known case Helpful => case Irrelevant => case Stale => case Harmful =>
    }
  }

  /** The labels that some group resolves to. */
  function LabelSupport(ctx: Context, evidence: seq<Evidence>): (support: set<Label>)
    ensures forall known :: known in support <==> Supported(ctx, evidence, known)
  {
    EveryLabel();
    set known | known in LABELS && Supported(ctx, evidence, known)
  }

  /** Neither the labels nor their witnesses depend on the order or repetition of the rows. */
  lemma RowOrderIsIrrelevant(ctx: Context, a: seq<Evidence>, b: seq<Evidence>)
    requires Rows(a) == Rows(b)
    ensures LabelSupport(ctx, a) == LabelSupport(ctx, b)
    ensures forall row, known :: IsWitness(ctx, a, row, known) <==> IsWitness(ctx, b, row, known)
  {
    forall row ensures row in a <==> row in b {
      assert row in Rows(a) <==> row in Rows(b);
    }
    forall row, known ensures IsWitness(ctx, a, row, known) <==> IsWitness(ctx, b, row, known) {
    }
    forall known ensures known in LabelSupport(ctx, a) <==> known in LabelSupport(ctx, b) {
    }
  }

  /** Ranks alone never say that guidance was stale. */
  lemma NeverStale(cell: string, group: set<Evidence>, known: Label)
    requires ResolvesTo(cell, group, known)
    ensures known != Stale
  {
    var r :| r in group && AttemptSide(cell, r);
    var s :| s in group && !AttemptSide(cell, s);
    assert RankRelation(QualityRank(r).value, QualityRank(s).value) == known;
  }

  /** Where a label is supported, its witnesses come from the attempt's cell and from outside it. */
  lemma SupportHasBothSides(ctx: Context, evidence: seq<Evidence>, known: Label)
    returns (own: Evidence, other: Evidence)
    requires known in LabelSupport(ctx, evidence)
    ensures IsWitness(ctx, evidence, own, known) && own.experimentCellId == ctx.attempt.experimentCellId
    ensures IsWitness(ctx, evidence, other, known) && other.experimentCellId != ctx.attempt.experimentCellId
  {
    var row :| row in evidence && IsWitness(ctx, evidence, row, known);
    var cell := ctx.attempt.experimentCellId.value;
    var group := GroupOf(ctx, Rows(evidence), ComparisonKey(ctx, row).value);
    own :| own in group && AttemptSide(cell, own);
    other :| other in group && !AttemptSide(cell, other);
  }

  // ---- The grouping loops ------------------------------------------------------------------------------

  /** The first loop: rows by comparison key, keys in order of first appearance. */
  method GroupRows(ctx: Context, evidence: seq<Evidence>) returns (order: seq<Key>, groups: map<Key, seq<Evidence>>)
    ensures forall k :: k in order <==> k in groups
    ensures forall k :: k in groups ==> Rows(groups[k]) == GroupOf(ctx, Rows(evidence), k)
    ensures forall r :: r in evidence && ComparisonKey(ctx, r).Some? ==> ComparisonKey(ctx, r).value in groups
    ensures forall k :: k in groups ==> exists r :: r in evidence && ComparisonKey(ctx, r) == Some(k)
    ensures Distinct(order)
  {
    hide ComparisonKey;
    order, groups := [], map[];
    for i := 0 to |evidence|
      invariant forall k :: k in order <==> k in groups
      invariant forall k, r :: k in groups ==>
                  (r in groups[k] <==> r in evidence[..i] && ComparisonKey(ctx, r) == Some(k))
      invariant forall r :: r in evidence[..i] && ComparisonKey(ctx, r).Some? ==> ComparisonKey(ctx, r).value in groups
      invariant forall k :: k in groups ==> exists r :: r in evidence && ComparisonKey(ctx, r) == Some(k)
      invariant Distinct(order)
    {
      var row := evidence[i];
      assert evidence[..i + 1] == evidence[..i] + [row];
      var key := ComparisonKey(ctx, row);
      if key.Some? {
        var k := key.value;
        if k !in groups {
          order := order + [k];
          groups := groups[k := [row]];
        } else {
          groups := groups[k := groups[k] + [row]];
        }
      }
    }
    assert evidence[..|evidence|] == evidence;
    forall k | k in groups ensures Rows(groups[k]) == GroupOf(ctx, Rows(evidence), k) {
    }
  }

  /** Attempt rows first, then comparison rows, after whatever the label already has. */
  function AddGroup(witnesses: map<Label, seq<Evidence>>, known: Label, cell: string, rows: seq<Evidence>)
    : (r: map<Label, seq<Evidence>>)
    ensures r.Keys == witnesses.Keys + {known}
    ensures forall l :: l in witnesses && l != known ==> r[l] == witnesses[l]
    ensures forall row :: row in r[known] <==> row in rows || (known in witnesses && row in witnesses[known])
  {
    var before := if known in witnesses then witnesses[known] else [];
    witnesses[known := before + Filter(rows, r => AttemptSide(cell, r)) + Filter(rows, r => !AttemptSide(cell, r))]
  }

  /** The second loop: every group in turn adds its rows to the label it resolves to, or adds nothing. */
  method CollectWitnesses(cell: string, order: seq<Key>, groups: map<Key, seq<Evidence>>)
    returns (witnesses: map<Label, seq<Evidence>>)
    requires forall k :: k in order ==> k in groups
    ensures Collected(cell, order, groups, witnesses)
  {
    hide *;
    witnesses := map[];
    NothingCollected(cell, groups);
    assert order[..0] == [];
    for i := 0 to |order|
      invariant Collected(cell, order[..i], groups, witnesses)
    {
      var k := order[i];
      var relation := GroupRelation(cell, groups[k]);
      ghost var before := witnesses;
      if relation.Some? {
        witnesses := AddGroup(witnesses, relation.value, cell, groups[k]);
      }
      Collect(cell, order[..i], k, groups, relation, before, witnesses);
      assert order[..i + 1] == order[..i] + [k];
    }
    assert order[..|order|] == order;
  }

  /** `randomizedLabelWitnesses`: the resolved labels, each with the rows of its groups. */
  method RandomizedLabelWitnesses(ctx: Context, evidence: seq<Evidence>) returns (witnesses: map<Label, seq<Evidence>>)
    ensures witnesses.Keys == LabelSupport(ctx, evidence)
    ensures forall known, row :: known in witnesses ==>
              (row in witnesses[known] <==> IsWitness(ctx, evidence, row, known))
  {
    witnesses := map[];
    if ctx.attempt.experimentCellId.None? {
      return;
    }
    var order, groups := GroupRows(ctx, evidence);
    witnesses := CollectWitnesses(ctx.attempt.experimentCellId.value, order, groups);
    WitnessesOfGroups(ctx, evidence, order, groups, witnesses);
  }

  lemma NothingCollected(cell: string, groups: map<Key, seq<Evidence>>)
    ensures Collected(cell, [], groups, map[])
  {
  }

  /** One of the groups done so far resolves to the label; and holds the row. */
  ghost predicate Resolved(cell: string, done: seq<Key>, groups: map<Key, seq<Evidence>>, known: Label) {
    exists k :: k in done && k in groups && GroupRelation(cell, groups[k]) == Some(known)
  }

  ghost predicate ResolvedWith(cell: string, done: seq<Key>, groups: map<Key, seq<Evidence>>, known: Label,
                               row: Evidence) {
    exists k :: k in done && k in groups && row in groups[k] && GroupRelation(cell, groups[k]) == Some(known)
  }

  /** The witnesses are those of the groups done so far. */
  ghost predicate Collected(cell: string, done: seq<Key>, groups: map<Key, seq<Evidence>>,
                            witnesses: map<Label, seq<Evidence>>) {
    && (forall known :: known in witnesses <==> Resolved(cell, done, groups, known))
    && (forall known, row :: known in witnesses ==>
          (row in witnesses[known] <==> ResolvedWith(cell, done, groups, known, row)))
  }

  lemma OneMoreGroup(cell: string, done: seq<Key>, k: Key, groups: map<Key, seq<Evidence>>, known: Label)
    requires k in groups
    ensures Resolved(cell, done + [k], groups, known) <==>
            Resolved(cell, done, groups, known) || GroupRelation(cell, groups[k]) == Some(known)
  {
    hide GroupRelation;
    assert k in done + [k];
    if Resolved(cell, done, groups, known) {
      var j :| j in done && j in groups && GroupRelation(cell, groups[j]) == Some(known);
      assert j in done + [k];
    }
  }

  lemma OneMoreGroupWith(cell: string, done: seq<Key>, k: Key, groups: map<Key, seq<Evidence>>, known: Label,
                         row: Evidence)
    requires k in groups
    ensures ResolvedWith(cell, done + [k], groups, known, row) <==>
            ResolvedWith(cell, done, groups, known, row) ||
            (row in groups[k] && GroupRelation(cell, groups[k]) == Some(known))
  {
    hide GroupRelation;
    assert k in done + [k];
    if ResolvedWith(cell, done, groups, known, row) {
      var j :| j in done && j in groups && row in groups[j] && GroupRelation(cell, groups[j]) == Some(known);
      assert j in done + [k];
    }
  }

  lemma Collect(cell: string, done: seq<Key>, k: Key, groups: map<Key, seq<Evidence>>, relation: Option<Label>,
                before: map<Label, seq<Evidence>>, after: map<Label, seq<Evidence>>)
    requires Collected(cell, done, groups, before) && k in groups
    requires relation == GroupRelation(cell, groups[k])
    requires relation.None? ==> after == before
    requires relation.Some? ==> after.Keys == before.Keys + {relation.value}
    requires forall known :: known in before && relation != Some(known) ==> after[known] == before[known]
    requires relation.Some? ==> forall row :: row in after[relation.value] <==>
      row in groups[k] || (relation.value in before && row in before[relation.value])
    ensures Collected(cell, done + [k], groups, after)
  {
    hide GroupRelation; hide Resolved; hide ResolvedWith;
    forall known ensures known in after <==> Resolved(cell, done + [k], groups, known) {
      OneMoreGroup(cell, done, k, groups, known);
    }
    forall known, row | known in after
      ensures row in after[known] <==> ResolvedWith(cell, done + [k], groups, known, row)
    {
      OneMoreGroupWith(cell, done, k, groups, known, row);
      if ResolvedWith(cell, done, groups, known, row) {
        ResolvedWithResolves(cell, done, groups, known, row);
      }
    }
  }

  lemma ResolvedWithResolves(cell: string, done: seq<Key>, groups: map<Key, seq<Evidence>>, known: Label, row: Evidence)
    requires ResolvedWith(cell, done, groups, known, row)
    ensures Resolved(cell, done, groups, known)
  {
  }

  lemma WitnessesOfGroups(ctx: Context, evidence: seq<Evidence>, order: seq<Key>, groups: map<Key, seq<Evidence>>,
                          witnesses: map<Label, seq<Evidence>>)
    requires ctx.attempt.experimentCellId.Some?
    requires forall k :: k in groups ==> Rows(groups[k]) == GroupOf(ctx, Rows(evidence), k)
    requires forall r :: r in evidence && ComparisonKey(ctx, r).Some? ==> ComparisonKey(ctx, r).value in groups
    requires forall k :: k in groups ==> exists r :: r in evidence && ComparisonKey(ctx, r) == Some(k)
    requires forall k :: k in order <==> k in groups
    requires Collected(ctx.attempt.experimentCellId.value, order, groups, witnesses)
    ensures witnesses.Keys == LabelSupport(ctx, evidence)
    ensures forall known, row :: known in witnesses ==>
              (row in witnesses[known] <==> IsWitness(ctx, evidence, row, known))
  {
    hide ResolvesTo; hide ComparisonKey; hide GroupRelation;
    var cell := ctx.attempt.experimentCellId.value;
    forall known ensures known in witnesses <==> known in LabelSupport(ctx, evidence) {
      if known in witnesses {
        var k :| k in order && k in groups && GroupRelation(cell, groups[k]) == Some(known);
        var r :| r in evidence && ComparisonKey(ctx, r) == Some(k);
        assert IsWitness(ctx, evidence, r, known);
      }
      if known in LabelSupport(ctx, evidence) {
        var r :| r in evidence && IsWitness(ctx, evidence, r, known);
        var k := ComparisonKey(ctx, r).value;
        assert k in order && GroupRelation(cell, groups[k]) == Some(known);
      }
    }
    forall known, row | known in witnesses
      ensures row in witnesses[known] <==> IsWitness(ctx, evidence, row, known)
    {
      if row in witnesses[known] {
        var k :| k in order && k in groups && row in groups[k] && GroupRelation(cell, groups[k]) == Some(known);
        assert row in Rows(groups[k]);
      }
      if IsWitness(ctx, evidence, row, known) {
        var k := ComparisonKey(ctx, row).value;
        assert k in order && row in GroupOf(ctx, Rows(evidence), k);
        assert row in Rows(groups[k]) && GroupRelation(cell, groups[k]) == Some(known);
      }
    }
  }
}
