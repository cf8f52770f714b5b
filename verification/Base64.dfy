/** Bytes and their base64 text: `atob` as the WHATWG Infra standard's forgiving-base64 decode, and the encoder. */
module Base64 {
  import opened Collections

  type Byte = x: int | 0 <= x < 256

  /** The six bits a character stands for, or 64 for a character outside the alphabet. */
  function SextetValue(c: char): (n: nat)
    ensures n <= 64
  {
    if 'A' <= c <= 'Z' then c as int - 65
    else if 'a' <= c <= 'z' then c as int - 71
    else if '0' <= c <= '9' then c as int + 4
    else if c == '+' then 62
    else if c == '/' then 63
    else 64
  }

  function SextetChar(n: nat): (c: char)
    requires n < 64
    ensures SextetValue(c) == n
  {
    if n < 26 then (65 + n) as char
    else if n < 52 then (71 + n) as char
    else if n < 62 then (n - 4) as char
    else if n == 62 then '+'
    else '/'
  }

  predicate IsAsciiSpace(c: char) { c in {'\t', '\n', 12 as char, '\r', ' '} }

  predicate InAlphabet(s: string) { forall i :: 0 <= i < |s| ==> SextetValue(s[i]) < 64 }

  function Quad(a: Byte, b: Byte, c: Byte): (s: string)
    ensures |s| == 4 && InAlphabet(s)
  {
    [SextetChar(a / 4), SextetChar(a % 4 * 16 + b / 16), SextetChar(b % 16 * 4 + c / 64), SextetChar(c % 64)]
  }

  /** The bytes of four characters. */
  function Triple(p: char, q: char, r: char, t: char): (b: seq<Byte>)
    requires InAlphabet([p]) && InAlphabet([q]) && InAlphabet([r]) && InAlphabet([t])
    ensures |b| == 3
  {
    assert SextetValue([p][0]) < 64 && SextetValue([q][0]) < 64 && SextetValue([r][0]) < 64 && SextetValue([t][0]) < 64;
    [ SextetValue(p) * 4 + SextetValue(q) / 16,
      SextetValue(q) % 16 * 16 + SextetValue(r) / 4,
      SextetValue(r) % 4 * 64 + SextetValue(t)]
  }

  /** The characters of `bytes` without padding; a last group short of bytes is filled with zero bits. */
  function Body(bytes: seq<Byte>): (s: string)
    ensures InAlphabet(s)
    ensures |s| == 4 * (|bytes| / 3) + (if |bytes| % 3 == 0 then 0 else |bytes| % 3 + 1)
  {
    if bytes == [] then ""
    else if |bytes| == 1 then Quad(bytes[0], 0, 0)[..2]
    else if |bytes| == 2 then Quad(bytes[0], bytes[1], 0)[..3]
    else Quad(bytes[0], bytes[1], bytes[2]) + Body(bytes[3..])
  }

  lemma FourTimes(length: nat, k: nat, r: nat)
    requires r < 4 && length == 4 * k + r
    ensures length % 4 == r
  {
  }

  /** Whole groups of four, and two or three characters for what is left. */
  lemma BodyLength(bytes: seq<Byte>)
    ensures |Body(bytes)| % 4 == if |bytes| % 3 == 0 then 0 else |bytes| % 3 + 1
  {
    var r := if |bytes| % 3 == 0 then 0 else |bytes| % 3 + 1;
    hide Body;
    FourTimes(|Body(bytes)|, |bytes| / 3, r);
  }

  /** `Buffer.toString("base64")`. */
  function Encode(bytes: seq<Byte>): string {
    Body(bytes) + (match |bytes| % 3 case 0 => "" case 1 => "==" case _ => "=")
  }

  function Unpadded(s: string): string {
    if |s| % 4 != 0 || s == "" || s[|s| - 1] != '=' then s
    else if s[|s| - 2] == '=' then s[..|s| - 2]
    else s[..|s| - 1]
  }

  /** Six bits a character; what is left over at the end is discarded. */
  function Groups(s: string): seq<Byte>
    requires InAlphabet(s) && |s| % 4 != 1
  {
    if s == "" then []
    else if |s| == 2 then Triple(s[0], s[1], 'A', 'A')[..1]
    else if |s| == 3 then Triple(s[0], s[1], s[2], 'A')[..2]
    else Triple(s[0], s[1], s[2], s[3]) + Groups(s[4..])
  }

  /** `atob`; nothing when it throws. */
  function Atob(text: string): Option<seq<Byte>> {
    var s := Unpadded(Filter(text, c => !IsAsciiSpace(c)));
    if |s| % 4 == 1 || !InAlphabet(s) then None else Some(Groups(s))
  }

  lemma QuadTriple(a: Byte, b: Byte, c: Byte)
    ensures var s := Quad(a, b, c); Triple(s[0], s[1], s[2], s[3]) == [a, b, c]
  {
    hide SextetChar; hide SextetValue;
  }

  lemma {:induction false} GroupsOfBody(bytes: seq<Byte>)
    ensures |Body(bytes)| % 4 != 1
    ensures Groups(Body(bytes)) == bytes
  {
    hide Quad; hide Triple; hide InAlphabet;
    BodyLength(bytes);
    if |bytes| >= 3 {
      QuadTriple(bytes[0], bytes[1], bytes[2]);
      GroupsOfBody(bytes[3..]);
      assert Body(bytes)[4..] == Body(bytes[3..]);
      assert bytes == [bytes[0], bytes[1], bytes[2]] + bytes[3..];
    } else if bytes != [] {
      ShortGroups(bytes);
    }
  }

  /** A last group of one or two bytes: the zero bits written are the ones discarded. */
  lemma ShortGroups(bytes: seq<Byte>)
    requires 1 <= |bytes| <= 2 && |Body(bytes)| % 4 != 1
    ensures Groups(Body(bytes)) == bytes
  {
    hide Quad; hide Triple; hide InAlphabet;
    var a, b := bytes[0], if |bytes| == 2 then bytes[1] else 0;
    var s := Quad(a, b, 0);
    QuadTriple(a, b, 0);
    ZeroSextet(a, b);
    GroupsOfShort(Body(bytes));
  }

  lemma GroupsOfShort(s: string)
    requires InAlphabet(s) && 2 <= |s| <= 3
    ensures |s| == 2 ==> Groups(s) == Triple(s[0], s[1], 'A', 'A')[..1]
    ensures |s| == 3 ==> Groups(s) == Triple(s[0], s[1], s[2], 'A')[..2]
  {
    hide Triple; hide InAlphabet;
  }

  lemma ZeroSextet(a: Byte, b: Byte)
    ensures Quad(a, b, 0)[3] == 'A' && (b == 0 ==> Quad(a, b, 0)[2] == 'A')
  {
    hide InAlphabet;
  }

  /** Padding that brings a text to a multiple of four is taken off again. */
  lemma UnpaddedText(body: string, padding: string)
    requires padding == "" || padding == "=" || padding == "=="
    requires (|body| + |padding|) % 4 == 0 && (body != "" ==> body[|body| - 1] != '=') && (body == "" ==> padding == "")
    ensures Unpadded(body + padding) == body
  {
    var s := body + padding;
    assert s[..|body|] == body;
  }

  lemma BodyEndsInAlphabet(bytes: seq<Byte>)
    ensures var body := Body(bytes);
            (body != "" ==> body[|body| - 1] != '=') && (body == "" ==> |bytes| == 0)
  {
    var body := Body(bytes);
    hide Body;
    if body != "" {
      assert SextetValue(body[|body| - 1]) < 64;
    }
  }

  lemma UnpaddedEncode(bytes: seq<Byte>)
    ensures Unpadded(Encode(bytes)) == Body(bytes)
  {
    BodyEndsInAlphabet(bytes);
    BodyLength(bytes);
    hide Body; hide Unpadded; hide SextetValue; hide InAlphabet;
    UnpaddedText(Body(bytes), match |bytes| % 3 case 0 => "" case 1 => "==" case _ => "=");
  }

  lemma EncodeHasNoSpace(bytes: seq<Byte>)
    ensures forall i :: 0 <= i < |Encode(bytes)| ==> !IsAsciiSpace(Encode(bytes)[i])
  {
    var body := Body(bytes);
    hide Body;
    forall i | 0 <= i < |Encode(bytes)| ensures !IsAsciiSpace(Encode(bytes)[i]) {
      if i < |body| {
        assert SextetValue(body[i]) < 64;
      }
    }
  }

  /** Every byte string decodes from its own base64 text. */
  lemma EncodeDecodes(bytes: seq<Byte>)
    ensures Atob(Encode(bytes)) == Some(bytes)
  {
    hide Encode; hide Body; hide Groups; hide Unpadded;
    EncodeHasNoSpace(bytes);
    FilterAll(Encode(bytes), c => !IsAsciiSpace(c));
    UnpaddedEncode(bytes);
    GroupsOfBody(bytes);
  }

  /** The sixty-four characters in order: capitals, small letters, digits, plus and slash. */
  lemma AlphabetInOrder(n: nat)
    requires n < 64
    ensures n < 26 ==> SextetChar(n) == "ABCDEFGHIJKLMNOPQRSTUVWXYZ"[n]
    ensures 26 <= n < 52 ==> SextetChar(n) == "abcdefghijklmnopqrstuvwxyz"[n - 26]
    ensures 52 <= n ==> SextetChar(n) == "0123456789+/"[n - 52]
  {
  }

  lemma OnlyAlphabet(c: char)
    ensures SextetValue(c) < 64 <==> exists n: nat :: n < 64 && SextetChar(n) == c
  {
    if SextetValue(c) < 64 {
      assert SextetChar(SextetValue(c)) == c;
    }
  }

  /** Tab, line feed, form feed, carriage return and space. */
  lemma AsciiSpaces(c: char)
    ensures IsAsciiSpace(c) <==> c as int in {9, 10, 12, 13, 32}
  {
  }

  /** A body and its padding; padding fills the text up to whole groups of four. */
  ghost predicate PaddedAs(s: string, body: string, padding: string) {
    && s == body + padding && InAlphabet(body) && |body| % 4 != 1
    && (padding == "" || ((padding == "=" || padding == "==") && |s| % 4 == 0))
  }

  /** White space is skipped; what remains is decoded exactly when it is such a body with such a padding. */
  lemma AtobAccepts(text: string)
    ensures var s := Filter(text, c => !IsAsciiSpace(c));
            Atob(text).Some? <==> exists body, padding :: PaddedAs(s, body, padding)
  {
    hide Filter; hide Groups;
    var s := Filter(text, c => !IsAsciiSpace(c));
    forall body, padding | PaddedAs(s, body, padding) ensures Unpadded(s) == body {
      PaddingComesOff(s, body, padding);
    }
    if Atob(text).Some? {
      var body := Unpadded(s);
      PaddingWasThere(s);
      assert PaddedAs(s, body, s[|body|..]);
    }
    if body, padding :| PaddedAs(s, body, padding) {
      assert Unpadded(s) == body && InAlphabet(body) && |body| % 4 != 1;
      DecodesBody(text, body);
    }
  }

  lemma DecodesBody(text: string, body: string)
    requires Unpadded(Filter(text, c => !IsAsciiSpace(c))) == body && InAlphabet(body) && |body| % 4 != 1
    ensures Atob(text).Some?
  {
    hide Groups; hide Unpadded; hide InAlphabet;
  }

  lemma PaddingWasThere(s: string)
    ensures var body := Unpadded(s);
            && body <= s
            && (s[|body|..] == "" || ((s[|body|..] == "=" || s[|body|..] == "==") && |s| % 4 == 0))
  {
  }

  lemma PaddingComesOff(s: string, body: string, padding: string)
    requires PaddedAs(s, body, padding)
    ensures Unpadded(s) == body
  {
    if body != "" {
      assert SextetValue(body[|body| - 1]) < 64;
    }
    assert s[..|body|] == body;
  }

  /** `base64ToBytes`: the decoded characters copied into a byte array. */
  method Base64ToBytes(text: string) returns (bytes: Option<array<Byte>>)
    ensures bytes.Some? <==> Atob(text).Some?
    ensures bytes.Some? ==> bytes.value[..] == Atob(text).value
  {
    var decoded := Atob(text);
    if decoded.None? {
      return None;
    }
    var binary := decoded.value;
    var filled := new Byte[|binary|];
    var index := 0;
    while index < |binary|
      invariant index <= |binary|
      invariant filled[..index] == binary[..index]
    {
      filled[index] := binary[index];
      index := index + 1;
    }
    assert filled[..] == filled[..index] && binary[..index] == binary;
    bytes := Some(filled);
  }
}
