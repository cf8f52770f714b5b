/**
 * The JSON the recall ledger writes: flat objects of integers, booleans and plain strings, in the
 * compact form of `JSON.stringify`, and a reader for that form.
 */
module FlatJson {
  import opened Collections
  import opened Text

  /** `Foreign` stands for every value that the ledger never writes: null, lists, objects, other numbers. */
  datatype Value = Num(number: nat) | Bool(flag: bool) | Str(text: string) | Foreign

  datatype Member = Member(name: string, value: Value)

  /** Characters that `JSON.stringify` writes as themselves. */
  predicate Plain(s: string) {
    forall i :: 0 <= i < |s| ==> s[i] != '"' && s[i] != '\\' && s[i] >= ' '
  }

  predicate PlainMember(m: Member) { Plain(m.name) && m.value != Foreign && (m.value.Str? ==> Plain(m.value.text)) }

  // ---- Writing ----------------------------------------------------------------------------------

  function Quote(s: string): string { "\"" + s + "\"" }

  function WriteValue(v: Value): (s: string)
    ensures s != ""
  {
    match v
    case Num(n) => Decimal(n)
    case Bool(b) => if b then "true" else "false"
    case Str(t) => Quote(t)
    case Foreign => "null"
  }

  function WriteMember(m: Member): string { Quote(m.name) + ":" + WriteValue(m.value) }

  function WriteMembers(members: seq<Member>): string {
    if members == [] then ""
    else if |members| == 1 then WriteMember(members[0])
    else WriteMember(members[0]) + "," + WriteMembers(members[1..])
  }

  function WriteObject(members: seq<Member>): string { "{" + WriteMembers(members) + "}" }

  // ---- Reading ----------------------------------------------------------------------------------

  /** A value and the text after it. */
  type Parsed<T> = Option<(T, string)>

  function PlainRun(s: string): (n: nat)
    ensures n <= |s|
  {
    if s == "" || s[0] == '"' || s[0] == '\\' || s[0] < ' ' then 0 else 1 + PlainRun(s[1..])
  }

  function ParseString(s: string): (r: Parsed<string>)
    ensures r.Some? ==> |r.value.1| < |s|
  {
    if s == "" || s[0] != '"' then None
    else
      var n := PlainRun(s[1..]);
      if n + 1 < |s| && s[n + 1] == '"' then Some((s[1..n + 1], s[n + 2..])) else None
  }

  function ParseNumber(s: string): (r: Parsed<nat>)
    ensures r.Some? ==> |r.value.1| < |s|
  {
    var n := DigitRun(s);
    // A leading zero stands alone.
    if n == 0 || (n > 1 && s[0] == '0') then None else Some((Number(s[..n]), s[n..]))
  }

  function ParseValue(s: string): (r: Parsed<Value>)
    ensures r.Some? ==> |r.value.1| < |s|
  {
    if "true" <= s then Some((Bool(true), s[4..]))
    else if "false" <= s then Some((Bool(false), s[5..]))
    else if s != "" && s[0] == '"' then
      match ParseString(s)
      case None => None
      case Some((text, rest)) => Some((Str(text), rest))
    else
      match ParseNumber(s)
      case None => None
      case Some((number, rest)) => Some((Num(number), rest))
  }

  function ParseMember(s: string): (r: Parsed<Member>)
    ensures r.Some? ==> |r.value.1| < |s|
  {
    match ParseString(s)
    case None => None
    case Some((name, rest)) =>
      if rest == "" || rest[0] != ':' then None
      else
        match ParseValue(rest[1..])
        case None => None
        case Some((value, rest')) => Some((Member(name, value), rest'))
  }

  /** Members up to the closing brace, which must end the text. */
  function ParseMembers(s: string): Option<seq<Member>>
    decreases |s|
  {
    match ParseMember(s)
    case None => None
    case Some((member, rest)) =>
      if rest == "}" then Some([member])
      else if rest == "" || rest[0] != ',' then None
      else
        match ParseMembers(rest[1..])
        case None => None
        case Some(members) => Some([member] + members)
  }

  function ParseObject(s: string): Option<seq<Member>> {
    if s == "" || s[0] != '{' then None
    else if s == "{}" then Some([])
    else ParseMembers(s[1..])
  }

  // ---- Round trip -------------------------------------------------------------------------------

  lemma {:induction false} PlainRunStops(text: string, rest: string)
    requires Plain(text) && rest != "" && rest[0] == '"'
    ensures PlainRun(text + rest) == |text|
  {
    if text == "" {
      assert text + rest == rest;
    } else {
      assert (text + rest)[1..] == text[1..] + rest;
      PlainRunStops(text[1..], rest);
    }
  }

  lemma StringReadsBack(text: string, rest: string)
    requires Plain(text)
    ensures ParseString(Quote(text) + rest) == Some((text, rest))
  {
    var s := Quote(text) + rest;
    assert s[1..] == text + ("\"" + rest);
    PlainRunStops(text, "\"" + rest);
    assert s[1..|text| + 1] == text && s[|text| + 2..] == rest;
  }

  lemma NumberReadsBack(n: nat, rest: string)
    requires rest == "" || !IsDigit(rest[0])
    ensures ParseNumber(Decimal(n) + rest) == Some((n, rest))
  {
    hide Decimal; hide Number; hide DigitRun;
    var digits := Decimal(n);
    var s := digits + rest;
    DigitRunStops(digits, rest);
    assert s[..|digits|] == digits && s[|digits|..] == rest && s[0] == digits[0];
  }

  lemma ValueReadsBack(v: Value, rest: string)
    requires v != Foreign && (v.Str? ==> Plain(v.text))
    requires rest == "" || !IsDigit(rest[0])
    ensures ParseValue(WriteValue(v) + rest) == Some((v, rest))
  {
    hide Decimal; hide ParseNumber; hide ParseString;
    var s := WriteValue(v) + rest;
    match v
    case Num(n) =>
      NumberReadsBack(n, rest);
      assert s[0] == Decimal(n)[0];
    case Bool(b) =>
      if b {
        assert "true" <= s && s[4..] == rest;
      } else {
        assert s[0] == 'f' && "false" <= s && s[5..] == rest;
      }
    case Str(t) =>
      StringReadsBack(t, rest);
      assert s[0] == '"';
  }

  lemma MemberReadsBack(m: Member, rest: string)
    requires PlainMember(m)
    requires rest == "" || !IsDigit(rest[0])
    ensures ParseMember(WriteMember(m) + rest) == Some((m, rest))
  {
    hide WriteValue; hide ParseValue; hide ParseString;
    var tail := ":" + WriteValue(m.value) + rest;
    assert WriteMember(m) + rest == Quote(m.name) + tail;
    StringReadsBack(m.name, tail);
    assert tail[1..] == WriteValue(m.value) + rest;
    ValueReadsBack(m.value, rest);
  }

  lemma {:induction false} MembersReadBack(members: seq<Member>)
    requires members != [] && forall i :: 0 <= i < |members| ==> PlainMember(members[i])
    ensures ParseMembers(WriteMembers(members) + "}") == Some(members)
  {
    hide WriteMember; hide ParseMember; hide PlainMember;
    if |members| == 1 {
      MemberReadsBack(members[0], "}");
      assert members == [members[0]];
    } else {
      var rest := WriteMembers(members[1..]) + "}";
      MembersHead(members);
      MemberReadsBack(members[0], "," + rest);
      MembersReadBack(members[1..]);
      MembersGoOn(WriteMembers(members) + "}", members[0], rest, members[1..]);
      assert members == [members[0]] + members[1..];
    }
  }

  lemma MembersHead(members: seq<Member>)
    requires |members| > 1
    ensures WriteMembers(members) + "}" == WriteMember(members[0]) + ("," + (WriteMembers(members[1..]) + "}"))
  {
    hide WriteMember;
  }

  lemma MembersGoOn(s: string, member: Member, rest: string, more: seq<Member>)
    requires ParseMember(s) == Some((member, "," + rest)) && ParseMembers(rest) == Some(more)
    ensures ParseMembers(s) == Some([member] + more)
  {
    hide ParseMember;
    var tail := "," + rest;
    assert tail[0] == ',' && tail[1..] == rest;
  }

  /** Every object of plain members reads back as the members it was written from. */
  lemma ObjectReadsBack(members: seq<Member>)
    requires forall i :: 0 <= i < |members| ==> PlainMember(members[i])
    ensures ParseObject(WriteObject(members)) == Some(members)
  {
    if members == [] {
      assert WriteObject(members) == "{}";
    } else {
      hide *;
      MembersReadBack(members);
      MembersNotEmpty(members);
      BracesReadBack(members);
    }
  }

  lemma BracesReadBack(members: seq<Member>)
    requires WriteMembers(members) != "" && ParseMembers(WriteMembers(members) + "}") == Some(members)
    ensures ParseObject(WriteObject(members)) == Some(members)
  {
    hide WriteMembers; hide ParseMembers;
    var s := WriteObject(members);
    assert s[0] == '{' && s[1..] == WriteMembers(members) + "}" && |s| > 2;
  }

  lemma MembersNotEmpty(members: seq<Member>)
    requires members != []
    ensures |WriteMembers(members)| > 0
  {
    assert |WriteMember(members[0])| > 0;
  }

  // ---- Nothing else is read ---------------------------------------------------------------------

  lemma {:induction false} PlainRunIsPlain(s: string)
    ensures Plain(s[..PlainRun(s)])
  {
    if s != "" && s[0] != '"' && s[0] != '\\' && s[0] >= ' ' {
      PlainRunIsPlain(s[1..]);
      var n := PlainRun(s[1..]);
      assert s[..n + 1] == [s[0]] + s[1..][..n];
    }
  }

  lemma StringWasWritten(s: string)
    requires ParseString(s).Some?
    ensures Plain(ParseString(s).value.0) && s == Quote(ParseString(s).value.0) + ParseString(s).value.1
  {
    PlainRunIsPlain(s[1..]);
    var n := PlainRun(s[1..]);
    assert s == "\"" + s[1..n + 1] + "\"" + s[n + 2..];
    assert s[1..][..n] == s[1..n + 1];
  }

  lemma NumberWasWritten(s: string)
    requires ParseNumber(s).Some?
    ensures s == Decimal(ParseNumber(s).value.0) + ParseNumber(s).value.1
  {
    hide Decimal; hide Number;
    DecimalOfNumber(s[..DigitRun(s)]);
  }

  lemma ValueWasWritten(s: string)
    requires ParseValue(s).Some?
    ensures var (v, rest) := ParseValue(s).value;
            && s == WriteValue(v) + rest && v != Foreign && (v.Str? ==> Plain(v.text))
  {
    hide ParseString; hide ParseNumber; hide Decimal; hide Plain;
    if "true" <= s || "false" <= s {
    } else if s != "" && s[0] == '"' {
      StringWasWritten(s);
    } else {
      NumberWasWritten(s);
    }
  }

  lemma MemberWasWritten(s: string)
    requires ParseMember(s).Some?
    ensures PlainMember(ParseMember(s).value.0) && s == WriteMember(ParseMember(s).value.0) + ParseMember(s).value.1
  {
    hide ParseString; hide ParseValue; hide Plain; hide WriteValue; hide Quote;
    StringWasWritten(s);
    var rest := ParseString(s).value.1;
    ValueWasWritten(rest[1..]);
    assert rest == ":" + rest[1..];
  }

  lemma {:induction false} MembersWereWritten(s: string)
    requires ParseMembers(s).Some?
    ensures var members := ParseMembers(s).value;
            && members != [] && s == WriteMembers(members) + "}"
            && forall i :: 0 <= i < |members| ==> PlainMember(members[i])
    decreases |s|
  {
    hide ParseMember; hide WriteMember; hide PlainMember;
    MemberWasWritten(s);
    var (member, rest) := ParseMember(s).value;
    if rest != "}" {
      MembersWereWritten(rest[1..]);
      var more := ParseMembers(rest[1..]).value;
      assert rest == "," + rest[1..];
      MembersHead([member] + more);
      assert ([member] + more)[1..] == more;
    }
  }

  /** The reader accepts exactly the texts that are written from plain members. */
  lemma ObjectReadsExactly(s: string, members: seq<Member>)
    ensures ParseObject(s) == Some(members) <==>
            s == WriteObject(members) && forall i :: 0 <= i < |members| ==> PlainMember(members[i])
  {
    hide ParseMembers; hide WriteMembers; hide PlainMember;
    if s == WriteObject(members) && forall i :: 0 <= i < |members| ==> PlainMember(members[i]) {
      ObjectReadsBack(members);
    }
    if ParseObject(s) == Some(members) {
      if members == [] {
        NoMembersIsBraces(s);
      } else {
        MembersWereWritten(s[1..]);
        assert s == "{" + s[1..];
      }
    }
  }

  lemma NoMembersIsBraces(s: string)
    requires ParseObject(s) == Some([])
    ensures s == "{}" == WriteObject([])
  {
    hide ParseMember;
  }

  // ---- Length -------------------------------------------------------------------------------------

  lemma {:induction false} MembersLength(members: seq<Member>, bound: nat)
    requires forall i :: 0 <= i < |members| ==> |WriteMember(members[i])| <= bound
    ensures |WriteMembers(members)| <= |members| * (bound + 1)
  {
    hide WriteMember;
    if |members| > 1 {
      MembersLength(members[1..], bound);
    }
  }
}
