/**
 * The automatic recall ledger: measurements and duplicate markers as stored JSON, the write-once
 * step that records an evaluation on an attempt, and the health totals over a window of rows.
 */
module AutomaticRecall {
  import opened Collections
  import opened Text
  import opened FlatJson

  // ---- Measurements and markers --------------------------------------------------------------------

  datatype PackMetadata = PackValid | PackMissing | PackInvalid

  datatype Measurement = Measurement(
    candidateItems: nat, duplicatesOmitted: nat, beforeTokens: nat, afterTokens: nat,
    missingRetained: bool, invalidRetained: bool, packMetadata: PackMetadata)

  const MAX_COUNT := 1_000_000

  predicate ValidMeasurement(m: Measurement) {
    && m.candidateItems <= 50 && m.beforeTokens <= MAX_COUNT && m.afterTokens <= MAX_COUNT
    && m.duplicatesOmitted <= m.candidateItems
    && m.afterTokens <= m.beforeTokens
    && (m.duplicatesOmitted > 0 || m.afterTokens == m.beforeTokens)
    && (m.packMetadata == PackValid || m.duplicatesOmitted == 0)
  }

  function PackText(p: PackMetadata): string {
    match p case PackValid => "valid" case PackMissing => "missing" case PackInvalid => "invalid"
  }

  function PackOf(text: string): Option<PackMetadata> {
    if text == "valid" then Some(PackValid)
    else if text == "missing" then Some(PackMissing)
    else if text == "invalid" then Some(PackInvalid)
    else None
  }

  const KEYS: seq<string> :=
    ["v", "candidateItems", "duplicatesOmitted", "beforeTokens", "afterTokens",
     "missingRetainedMetadata", "invalidRetainedMetadata", "packMetadata"]

  /** The object a list of members denotes; a repeated name keeps its last value. */
  function ObjectOf(members: seq<Member>): map<string, Value> {
    if members == [] then map[]
    else
      var last := members[|members| - 1];
      ObjectOf(members[..|members| - 1])[last.name := last.value]
  }

  predicate IsNumber(o: map<string, Value>, key: string) { key in o && o[key].Num? }

  predicate IsFlag(o: map<string, Value>, key: string) { key in o && o[key].Bool? }

  /** `isAutomaticRecallMeasurement` on an object: exactly the eight keys, each of its kind and within bounds. */
  function MeasurementOf(o: map<string, Value>): (r: Option<Measurement>)
    ensures r.Some? ==> ValidMeasurement(r.value)
    ensures r.Some? ==> |o.Keys| == 8
  {
    if |o| != 8 || o.Keys != (set k | k in KEYS) || o["v"] != Num(1) ||
       !(IsNumber(o, KEYS[1]) && IsNumber(o, KEYS[2]) && IsNumber(o, KEYS[3]) && IsNumber(o, KEYS[4])) ||
       !(IsFlag(o, KEYS[5]) && IsFlag(o, KEYS[6])) || !o[KEYS[7]].Str? || PackOf(o[KEYS[7]].text).None?
    then None
    else
      var m := Measurement(o[KEYS[1]].number, o[KEYS[2]].number, o[KEYS[3]].number, o[KEYS[4]].number,
                           o[KEYS[5]].flag, o[KEYS[6]].flag, PackOf(o[KEYS[7]].text).value);
      if ValidMeasurement(m) then Some(m) else None
  }

  function MembersOf(m: Measurement): seq<Member> {
    [Member(KEYS[0], Num(1)), Member(KEYS[1], Num(m.candidateItems)), Member(KEYS[2], Num(m.duplicatesOmitted)),
     Member(KEYS[3], Num(m.beforeTokens)), Member(KEYS[4], Num(m.afterTokens)),
     Member(KEYS[5], Bool(m.missingRetained)), Member(KEYS[6], Bool(m.invalidRetained)),
     Member(KEYS[7], Str(PackText(m.packMetadata)))]
  }

  function EncodeMeasurement(m: Measurement): string { WriteObject(MembersOf(m)) }

  /** A reader of JSON texts: the object a text denotes, or nothing when it is invalid or no object. */
  type Reader = string -> Option<map<string, Value>>

  /** The compact flat texts that the ledger itself writes. */
  function ReadFlat(text: string): Option<map<string, Value>> {
    match ParseObject(text)
    case None => None
    case Some(members) => Some(ObjectOf(members))
  }

  /** `decodeMeasurement` with this reader. */
  function MeasurementBy(read: Reader, json: Option<string>): (r: Option<Measurement>)
    ensures r.Some? ==> ValidMeasurement(r.value)
  {
    if json.None? || json.value == "" || |json.value| > 1024 || read(json.value).None? then None
    else MeasurementOf(read(json.value).value)
  }

  function DecodeMeasurement(json: Option<string>): (r: Option<Measurement>)
    ensures r.Some? ==> ValidMeasurement(r.value)
  {
    MeasurementBy(ReadFlat, json)
  }

  predicate IsEvaluationKey(key: string) {
    |key| == 64 && forall i :: 0 <= i < 64 ==> IsDigit(key[i]) || 'a' <= key[i] <= 'f'
  }

  const MARKER_KEY := "duplicateEvaluationKey"

  function EncodeMarker(key: string): string {
    WriteObject([Member("v", Num(1)), Member(MARKER_KEY, Str(key))])
  }

  function MarkerOf(o: map<string, Value>): (r: Option<string>)
    ensures r.Some? ==> IsEvaluationKey(r.value) && |o| == 2
  {
    if |o| == 2 && "v" in o && o["v"] == Num(1) && MARKER_KEY in o && o[MARKER_KEY].Str? &&
       IsEvaluationKey(o[MARKER_KEY].text)
    then Some(o[MARKER_KEY].text) else None
  }

  /** `decodeDuplicateEvaluationKey` with this reader. */
  function MarkerBy(read: Reader, json: Option<string>): (r: Option<string>)
    ensures r.Some? ==> IsEvaluationKey(r.value)
  {
    if json.None? || json.value == "" || |json.value| > 128 || read(json.value).None? then None
    else MarkerOf(read(json.value).value)
  }

  function DecodeMarker(json: Option<string>): (r: Option<string>)
    ensures r.Some? ==> IsEvaluationKey(r.value)
  {
    MarkerBy(ReadFlat, json)
  }

  // ---- Codec laws --------------------------------------------------------------------------------------

  predicate DistinctNames(members: seq<Member>) {
    forall i, j :: 0 <= i < j < |members| ==> members[i].name != members[j].name
  }

  lemma {:induction false} ObjectNames(members: seq<Member>, name: string)
    requires name in ObjectOf(members)
    ensures exists i :: 0 <= i < |members| && members[i].name == name
  {
    var n := |members| - 1;
    var front := members[..n];
    if name == members[n].name {
      assert members[n].name == name;
    } else {
      ObjectNames(front, name);
      var i :| 0 <= i < |front| && front[i].name == name;
      assert members[i].name == name;
    }
  }

  /** Distinct names make every member visible. */
  lemma {:induction false} ObjectLookup(members: seq<Member>)
    requires DistinctNames(members)
    ensures |ObjectOf(members)| == |members|
    ensures forall i :: 0 <= i < |members| ==>
              members[i].name in ObjectOf(members) && ObjectOf(members)[members[i].name] == members[i].value
  {
    if members != [] {
      var n := |members| - 1;
      var front := members[..n];
      assert forall i :: 0 <= i < n ==> front[i] == members[i];
      ObjectLookup(front);
      var before := ObjectOf(front);
      if members[n].name in before {
        ObjectNames(front, members[n].name);
      }
    }
  }

  lemma KeyLengths()
    ensures forall i, j :: 0 <= i < j < 8 ==> KEYS[i] != KEYS[j]
    ensures forall i :: 0 <= i < 8 ==> |KEYS[i]| <= 23
  {
    assert |KEYS[0]| == 1 && |KEYS[1]| == 14 && |KEYS[2]| == 17 && |KEYS[3]| == 12;
    assert |KEYS[4]| == 11 && |KEYS[5]| == 23 && |KEYS[6]| == 23 && |KEYS[7]| == 12;
    assert KEYS[5][0] == 'm' && KEYS[6][0] == 'i' && KEYS[3][0] == 'b' && KEYS[7][0] == 'p';
  }

  lemma CountKeyIsPlain(i: nat)
    requires i < 5
    ensures Plain(KEYS[i])
  {
    if i == 0 { assert Plain("v"); }
    else if i == 1 { assert Plain("candidateItems"); }
    else if i == 2 { assert Plain("duplicatesOmitted"); }
    else if i == 3 { assert Plain("beforeTokens"); }
    else { assert Plain("afterTokens"); }
  }

  lemma MetadataKeyIsPlain(i: nat)
    requires 5 <= i < 8
    ensures Plain(KEYS[i])
  {
    if i == 5 { assert Plain("missingRetainedMetadata"); }
    else if i == 6 { assert Plain("invalidRetainedMetadata"); }
    else { assert Plain("packMetadata"); }
  }

  lemma PackTextIsPlain(p: PackMetadata)
    ensures Plain(PackText(p)) && |PackText(p)| <= 7
  {
  }

  lemma MembersArePlain(m: Measurement)
    ensures var members := MembersOf(m);
            && |members| == 8
            && (forall i :: 0 <= i < 8 ==> members[i].name == KEYS[i])
            && (forall i :: 0 <= i < 8 ==> PlainMember(members[i]))
            && DistinctNames(members)
  {
    hide Plain; hide PackText;
    var members := MembersOf(m);
    KeyLengths();
    PackTextIsPlain(m.packMetadata);
    forall i | 0 <= i < 8 ensures PlainMember(members[i]) {
      if i < 5 { CountKeyIsPlain(i); } else { MetadataKeyIsPlain(i); }
    }
  }

  lemma PowersOfTen()
    ensures Pow10(7) == 10_000_000
  {
    assert Pow10(7) == 10 * Pow10(6) == 100 * Pow10(5) == 1000 * Pow10(4) == 10_000 * Pow10(3);
    assert Pow10(3) == 10 * Pow10(2) == 100 * Pow10(1) == 1000;
  }

  lemma MemberBounds(m: Measurement, i: nat)
    requires ValidMeasurement(m) && i < 8
    ensures var member := MembersOf(m)[i];
            && |member.name| <= 23 && member.value != Foreign
            && (member.value.Num? ==> member.value.number < 10_000_000)
            && (member.value.Str? ==> |member.value.text| <= 12)
  {
    hide PackText;
    KeyLengths();
    PackTextIsPlain(m.packMetadata);
  }

  lemma EncodedLength(m: Measurement)
    requires ValidMeasurement(m)
    ensures 0 < |EncodeMeasurement(m)| <= 1024
  {
    hide MembersOf; hide WriteMember; hide WriteMembers; hide ValidMeasurement;
    var members := MembersOf(m);
    MembersArePlain(m);
    PowersOfTen();
    forall i | 0 <= i < |members| ensures |WriteMember(members[i])| <= 40 {
      MemberBounds(m, i);
      MemberLength(members[i]);
    }
    MembersLength(members, 40);
  }

  lemma MemberLength(m: Member)
    requires |m.name| <= 23 && (m.value.Num? ==> m.value.number < Pow10(7)) && (m.value.Str? ==> |m.value.text| <= 12)
    ensures |WriteMember(m)| <= 40
  {
    hide Decimal;
    if m.value.Num? {
      DecimalLength(m.value.number, 7);
    }
  }

  /** Every valid measurement fits the column and decodes to itself. */
  lemma MeasurementRoundTrip(m: Measurement)
    requires ValidMeasurement(m)
    ensures |EncodeMeasurement(m)| <= 1024
    ensures DecodeMeasurement(Some(EncodeMeasurement(m))) == Some(m)
  {
    hide WriteObject; hide ParseObject; hide ObjectOf; hide MembersOf; hide MeasurementOf; hide PlainMember;
    MembersArePlain(m);
    EncodedLength(m);
    ObjectReadsBack(MembersOf(m));
    ObjectLookup(MembersOf(m));
    ObjectHolds(ObjectOf(MembersOf(m)), m);
  }

  lemma PackReadsBack(p: PackMetadata)
    ensures PackOf(PackText(p)) == Some(p)
  {
  }

  lemma ObjectHolds(o: map<string, Value>, m: Measurement)
    requires ValidMeasurement(m) && |o| == 8
    requires forall i :: 0 <= i < 8 ==>
               MembersOf(m)[i].name in o && o[MembersOf(m)[i].name] == MembersOf(m)[i].value
    ensures MeasurementOf(o) == Some(m)
  {
    hide PackText; hide PackOf;
    var members := MembersOf(m);
    PackReadsBack(m.packMetadata);
    KeyNames(o, members);
    NamedFields(o, m, KEYS);
  }

  /** The eight fields under their names make up the measurement again. */
  lemma NamedFields(o: map<string, Value>, m: Measurement, keys: seq<string>)
    requires keys == KEYS && ValidMeasurement(m) && |o| == 8 && o.Keys == set k | k in keys
    requires o[keys[0]] == Num(1) && o[keys[1]] == Num(m.candidateItems) && o[keys[2]] == Num(m.duplicatesOmitted)
    requires o[keys[3]] == Num(m.beforeTokens) && o[keys[4]] == Num(m.afterTokens)
    requires o[keys[5]] == Bool(m.missingRetained) && o[keys[6]] == Bool(m.invalidRetained)
    requires o[keys[7]] == Str(PackText(m.packMetadata)) && PackOf(PackText(m.packMetadata)) == Some(m.packMetadata)
    ensures MeasurementOf(o) == Some(m)
  {
    hide PackText; hide PackOf; hide ValidMeasurement;
    assert keys[0] == "v";
  }

  lemma KeyNames(o: map<string, Value>, members: seq<Member>)
    requires |members| == 8 && forall i :: 0 <= i < 8 ==> members[i].name == KEYS[i] && members[i].name in o
    requires |o| == 8
    ensures o.Keys == set k | k in KEYS
  {
    KeyLengths();
    var names := set k | k in KEYS;
    DistinctCardinality(KEYS);
    forall k | k in names ensures k in o.Keys {
      var i :| 0 <= i < 8 && KEYS[i] == k;
      assert members[i].name in o;
    }
    assert |o.Keys - names| == |o.Keys| - |names|;
  }

  lemma MarkerText(a: Member, b: Member, key: string)
    requires a == Member("v", Num(1)) && b == Member(MARKER_KEY, Str(key)) && |key| == 64
    ensures |WriteMembers([a, b])| == 97
  {
    var members := [a, b];
    assert members[1..] == [b];
    DecimalLength(1, 1);
    assert Pow10(1) == 10 * Pow10(0);
    assert |WriteMember(a)| == 5 && |WriteMember(b)| == 91;
    assert WriteMembers([b]) == WriteMember(b);
  }

  lemma MarkerMembers(a: Member, b: Member, key: string)
    requires a == Member("v", Num(1)) && b == Member(MARKER_KEY, Str(key)) && IsEvaluationKey(key)
    ensures PlainMember(a) && PlainMember(b) && a.name != b.name
  {
    assert |a.name| != |b.name|;
  }

  lemma MarkerHolds(o: map<string, Value>, a: Member, b: Member, key: string)
    requires a == Member("v", Num(1)) && b == Member(MARKER_KEY, Str(key)) && IsEvaluationKey(key)
    requires |o| == 2 && a.name in o && o[a.name] == a.value && b.name in o && o[b.name] == b.value
    ensures MarkerOf(o) == Some(key)
  {
    hide IsEvaluationKey;
  }

  /** Every 64-hex key fits the marker column and decodes to itself. */
  lemma MarkerRoundTrip(key: string)
    requires IsEvaluationKey(key)
    ensures |EncodeMarker(key)| <= 128
    ensures DecodeMarker(Some(EncodeMarker(key))) == Some(key)
  {
    var a, b := Member("v", Num(1)), Member(MARKER_KEY, Str(key));
    assert |key| == 64;
    MarkerText(a, b, key);
    MarkerMembers(a, b, key);
    hide WriteMembers; hide ParseObject; hide ObjectOf; hide MarkerOf; hide IsEvaluationKey; hide PlainMember;
    var members := [a, b];
    ObjectReadsBack(members);
    ObjectLookup(members);
    assert members[0] == a && members[1] == b;
    MarkerHolds(ObjectOf(members), a, b, key);
  }

  /**
   * No stored text is both a measurement and a marker, whatever JSON texts the reader understands: with
   * white space, escapes, nesting or repeated names.
   */
  lemma NeverBothBy(read: Reader, json: Option<string>)
    ensures MeasurementBy(read, json).None? || MarkerBy(read, json).None?
  {
  }

  lemma NeverBoth(json: Option<string>)
    ensures DecodeMeasurement(json).None? || DecodeMarker(json).None?
  {
    NeverBothBy(ReadFlat, json);
  }

  // ---- The accepted objects in full ---------------------------------------------------------------------

  ghost function NameOf(p: PackMetadata): string {
    match p case PackValid => "valid" case PackMissing => "missing" case PackInvalid => "invalid"
  }

  /** The eight members of a measurement. */
  ghost function Written(m: Measurement): map<string, Value> {
    map["v" := Num(1), "candidateItems" := Num(m.candidateItems), "duplicatesOmitted" := Num(m.duplicatesOmitted),
        "beforeTokens" := Num(m.beforeTokens), "afterTokens" := Num(m.afterTokens),
        "missingRetainedMetadata" := Bool(m.missingRetained), "invalidRetainedMetadata" := Bool(m.invalidRetained),
        "packMetadata" := Str(NameOf(m.packMetadata))]
  }

  /** Up to fifty items and a million tokens; tokens go down only with omitted duplicates, from a valid pack. */
  ghost predicate Consistent(m: Measurement) {
    && m.candidateItems <= 50 && m.afterTokens <= m.beforeTokens <= 1_000_000
    && if m.duplicatesOmitted == 0 then m.afterTokens == m.beforeTokens
       else m.duplicatesOmitted <= m.candidateItems && m.packMetadata == PackValid
  }

  lemma ValidMeansConsistent(m: Measurement)
    ensures ValidMeasurement(m) <==> Consistent(m)
  {
  }

  lemma PackNames(text: string, p: PackMetadata)
    ensures PackOf(text) == Some(p) <==> text == NameOf(p)
  {
    assert |"valid"| == 5 && |"missing"| == 7 && |"invalid"| == 7 && "missing"[0] != "invalid"[0];
  }

  ghost function UnderNames(m: Measurement, keys: seq<string>): map<string, Value>
    requires |keys| == 8
  {
    map[keys[0] := Num(1), keys[1] := Num(m.candidateItems), keys[2] := Num(m.duplicatesOmitted),
        keys[3] := Num(m.beforeTokens), keys[4] := Num(m.afterTokens),
        keys[5] := Bool(m.missingRetained), keys[6] := Bool(m.invalidRetained),
        keys[7] := Str(NameOf(m.packMetadata))]
  }

  lemma NamedMembers(m: Measurement, keys: seq<string>)
    requires |keys| == 8 && forall i, j :: 0 <= i < j < 8 ==> keys[i] != keys[j]
    ensures var o := UnderNames(m, keys);
            && o.Keys == (set k | k in keys) && |o| == 8
            && o[keys[0]] == Num(1) && o[keys[1]] == Num(m.candidateItems) && o[keys[2]] == Num(m.duplicatesOmitted)
            && o[keys[3]] == Num(m.beforeTokens) && o[keys[4]] == Num(m.afterTokens)
            && o[keys[5]] == Bool(m.missingRetained) && o[keys[6]] == Bool(m.invalidRetained)
            && o[keys[7]] == Str(NameOf(m.packMetadata))
  {
    hide NameOf;
    var o := UnderNames(m, keys);
    assert o.Keys == set k | k in keys;
    DistinctCardinality(keys);
  }

  lemma WrittenUnderNames(m: Measurement, keys: seq<string>)
    requires keys == KEYS
    ensures Written(m) == UnderNames(m, keys)
  {
    hide NameOf;
  }

  lemma SameFields(a: map<string, Value>, b: map<string, Value>, keys: seq<string>)
    requires |keys| == 8 && a.Keys == b.Keys == (set k | k in keys)
    requires a[keys[0]] == b[keys[0]] && a[keys[1]] == b[keys[1]] && a[keys[2]] == b[keys[2]]
    requires a[keys[3]] == b[keys[3]] && a[keys[4]] == b[keys[4]] && a[keys[5]] == b[keys[5]]
    requires a[keys[6]] == b[keys[6]] && a[keys[7]] == b[keys[7]]
    ensures a == b
  {
    forall k | k in a ensures a[k] == b[k] {
      var i :| 0 <= i < |keys| && keys[i] == k;
      assert i == 0 || i == 1 || i == 2 || i == 3 || i == 4 || i == 5 || i == 6 || i == 7;
    }
  }

  lemma MeasuredFields(o: map<string, Value>, m: Measurement, keys: seq<string>)
    requires keys == KEYS && MeasurementOf(o) == Some(m)
    ensures |o| == 8 && o.Keys == (set k | k in keys) && ValidMeasurement(m)
    ensures o[keys[0]] == Num(1) && o[keys[1]] == Num(m.candidateItems) && o[keys[2]] == Num(m.duplicatesOmitted)
    ensures o[keys[3]] == Num(m.beforeTokens) && o[keys[4]] == Num(m.afterTokens)
    ensures o[keys[5]] == Bool(m.missingRetained) && o[keys[6]] == Bool(m.invalidRetained)
    ensures o[keys[7]].Str? && PackOf(o[keys[7]].text) == Some(m.packMetadata)
  {
    hide PackOf; hide ValidMeasurement;
    assert keys[0] == "v";
  }

  /** An object is a measurement exactly when it has these eight members, and they are consistent. */
  lemma MeasurementMeans(o: map<string, Value>, m: Measurement)
    ensures MeasurementOf(o) == Some(m) <==> o == Written(m) && Consistent(m)
  {
    ValidMeansConsistent(m);
    KeyLengths();
    WrittenUnderNames(m, KEYS);
    NamedMembers(m, KEYS);
    hide UnderNames; hide ValidMeasurement; hide Consistent; hide PackOf; hide Written;
    hide NameOf; hide MeasurementOf; hide PackText;
    PackNames(NameOf(m.packMetadata), m.packMetadata);
    PackReadsBack(m.packMetadata);
    PackNames(PackText(m.packMetadata), m.packMetadata);
    if MeasurementOf(o) == Some(m) {
      MeasuredFields(o, m, KEYS);
      PackNames(o[KEYS[7]].text, m.packMetadata);
      SameFields(o, Written(m), KEYS);
    }
    if o == Written(m) && Consistent(m) {
      NamedFields(o, m, KEYS);
    }
  }

  lemma KeyCharacters(key: string)
    ensures IsEvaluationKey(key) <==> |key| == 64 && forall c :: c in key ==> '0' <= c <= '9' || 'a' <= c <= 'f'
  {
    if IsEvaluationKey(key) {
      forall c | c in key ensures '0' <= c <= '9' || 'a' <= c <= 'f' {
        var i :| 0 <= i < |key| && key[i] == c;
      }
    }
    if |key| == 64 && forall c :: c in key ==> '0' <= c <= '9' || 'a' <= c <= 'f' {
      forall i | 0 <= i < 64 ensures IsDigit(key[i]) || 'a' <= key[i] <= 'f' {
        assert key[i] in key;
      }
    }
  }

  /** An object is a marker exactly when it has these two members, the key being 64 digits or letters a to f. */
  lemma MarkerMeans(o: map<string, Value>, key: string)
    ensures MarkerOf(o) == Some(key) <==>
            && o == map["v" := Num(1), "duplicateEvaluationKey" := Str(key)]
            && |key| == 64 && forall c :: c in key ==> '0' <= c <= '9' || 'a' <= c <= 'f'
  {
    KeyCharacters(key);
    hide IsEvaluationKey;
    MarkerFields(o, key, "v", "duplicateEvaluationKey");
  }

  lemma MarkerFields(o: map<string, Value>, key: string, v: string, name: string)
    requires v == "v" && name == "duplicateEvaluationKey"
    ensures MarkerOf(o) == Some(key) <==> o == map[v := Num(1), name := Str(key)] && IsEvaluationKey(key)
  {
    hide IsEvaluationKey;
    assert |v| != |name|;
    var full := map[v := Num(1), name := Str(key)];
    assert full.Keys == {v, name} && |full| == 2;
    if MarkerOf(o) == Some(key) {
      assert {v, name} <= o.Keys && |o.Keys - {v, name}| == 0;
      assert o == full;
    }
  }

  /** A stored text holds a measurement or a marker exactly when it is short enough and the object it denotes does. */
  lemma StoredTextMeans(read: Reader, json: Option<string>, m: Measurement, key: string)
    ensures MeasurementBy(read, json) == Some(m) <==>
            && json.Some? && 0 < |json.value| <= 1024
            && read(json.value) == Some(Written(m)) && Consistent(m)
    ensures MarkerBy(read, json) == Some(key) <==>
            && json.Some? && 0 < |json.value| <= 128
            && exists o :: read(json.value) == Some(o) && MarkerOf(o) == Some(key)
  {
    hide MeasurementOf; hide MarkerOf; hide Written; hide Consistent;
    if json.Some? && read(json.value).Some? {
      MeasurementMeans(read(json.value).value, m);
    }
  }
}
