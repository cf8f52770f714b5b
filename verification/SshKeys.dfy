/**
 * SSH Ed25519 public keys: the key text, its length-prefixed wire form (section 5 of RFC 4251, section 4 of
 * RFC 8709) and the DER that is handed to the platform's key import.
 */
module SshKeys {
  import opened Base64
  import opened Collections

  const KEY_LENGTH := 32

  /** A number that fits four bytes. */
  predicate IsUint32(n: nat) { n < 0x1_0000_0000 }

  /** `readUint32BE`; the source's view throws outside its buffer, so staying inside is a precondition. */
  function ReadUint32BE(bytes: seq<Byte>, offset: nat): (n: nat)
    requires offset + 4 <= |bytes|
    ensures IsUint32(n)
  {
    Big(bytes[offset], bytes[offset + 1], bytes[offset + 2], bytes[offset + 3])
  }

  /** `writeUInt32BE`. */
  function Uint32BE(n: nat): (bytes: seq<Byte>)
    requires IsUint32(n)
    ensures |bytes| == 4
  {
    [n / 0x100_0000, n / 0x1_0000 % 256, n / 256 % 256, n % 256]
  }

  function Big(a: int, b: int, c: int, d: int): int { ((a * 256 + b) * 256 + c) * 256 + d }

  /** A number is its four digits to the base 256, and they are the only ones. */
  lemma Digits(n: nat)
    requires IsUint32(n)
    ensures Big(n / 0x100_0000, n / 0x1_0000 % 256, n / 256 % 256, n % 256) == n
  {
    assert n / 0x1_0000 == n / 256 / 256 && n / 0x100_0000 == n / 256 / 256 / 256;
  }

  lemma OnlyDigits(a: int, b: int, c: int, d: int)
    requires 0 <= a < 256 && 0 <= b < 256 && 0 <= c < 256 && 0 <= d < 256
    ensures var n := Big(a, b, c, d);
            n / 0x100_0000 == a && n / 0x1_0000 % 256 == b && n / 256 % 256 == c && n % 256 == d
  {
    var n := Big(a, b, c, d);
    assert n / 256 == (a * 256 + b) * 256 + c;
    assert n / 0x1_0000 == a * 256 + b;
    assert n / 0x100_0000 == a;
  }

  /** Reading back a written number, wherever it stands; and only that number is written so. */
  lemma ReadWritten(before: seq<Byte>, n: nat, rest: seq<Byte>)
    requires IsUint32(n)
    ensures ReadUint32BE(before + Uint32BE(n) + rest, |before|) == n
  {
    Digits(n);
    hide Big;
    var all, k, w := before + Uint32BE(n) + rest, |before|, Uint32BE(n);
    assert all[k] == w[0] && all[k + 1] == w[1] && all[k + 2] == w[2] && all[k + 3] == w[3];
  }

  lemma WriteRead(bytes: seq<Byte>, offset: nat)
    requires offset + 4 <= |bytes|
    ensures Uint32BE(ReadUint32BE(bytes, offset)) == bytes[offset..offset + 4]
  {
    OnlyDigits(bytes[offset], bytes[offset + 1], bytes[offset + 2], bytes[offset + 3]);
    hide Big;
  }

  // ---- The wire form ---------------------------------------------------------------------------------------

  datatype KeyError = NotSshEd25519 | NotBase64 | Truncated | UnexpectedLength(length: nat)

  /** The key inside the wire bytes. */
  function ParseWire(wire: seq<Byte>): Result<seq<Byte>, KeyError> {
    if |wire| < 4 then Err(Truncated)
    else
      var typeEnd := 4 + ReadUint32BE(wire, 0);
      if |wire| < typeEnd + 4 then Err(Truncated)
      else
        var keyLen := ReadUint32BE(wire, typeEnd);
        var keyStart := typeEnd + 4;
        if |wire| < keyStart + keyLen then Err(Truncated)
        else
          var rawKey := wire[keyStart..keyStart + keyLen];
          if |rawKey| != KEY_LENGTH then Err(UnexpectedLength(|rawKey|)) else Ok(rawKey)
  }

  /** The bytes of a length-prefixed string. */
  function Prefixed(bytes: seq<Byte>): seq<Byte>
    requires IsUint32(|bytes|)
  {
    Uint32BE(|bytes|) + bytes
  }

  /** The wire splits into a prefixed type, a prefixed key and any trailing bytes. */
  ghost predicate Splits(wire: seq<Byte>, kind: seq<Byte>, key: seq<Byte>, rest: seq<Byte>) {
    IsUint32(|kind|) && IsUint32(|key|) && wire == Prefixed(kind) + Prefixed(key) + rest
  }

  /** A split decides every read the parser makes. */
  lemma SplitReads(wire: seq<Byte>, kind: seq<Byte>, key: seq<Byte>, rest: seq<Byte>)
    requires Splits(wire, kind, key, rest)
    ensures |wire| == 8 + |kind| + |key| + |rest|
    ensures ReadUint32BE(wire, 0) == |kind| && ReadUint32BE(wire, 4 + |kind|) == |key|
    ensures wire[8 + |kind|..8 + |kind| + |key|] == key
  {
    hide Uint32BE; hide ReadUint32BE;
    ReadWritten([], |kind|, kind + Prefixed(key) + rest);
    assert wire == [] + Uint32BE(|kind|) + (kind + Prefixed(key) + rest);
    ReadWritten(Prefixed(kind), |key|, key + rest);
    assert wire == Prefixed(kind) + Uint32BE(|key|) + (key + rest);
  }

  /** What the parser did not call truncated splits as it read it. */
  lemma ReadsSplit(wire: seq<Byte>)
    requires ParseWire(wire) != Err(Truncated)
    ensures exists kind, key, rest :: Splits(wire, kind, key, rest)
  {
    var typeLen := ReadUint32BE(wire, 0);
    var keyStart := 8 + typeLen;
    var keyLen := ReadUint32BE(wire, keyStart - 4);
    WriteRead(wire, 0);
    WriteRead(wire, keyStart - 4);
    CutsAt(wire, typeLen, keyLen);
  }

  lemma CutsAt(wire: seq<Byte>, typeLen: nat, keyLen: nat)
    requires IsUint32(typeLen) && IsUint32(keyLen) && 8 + typeLen + keyLen <= |wire|
    requires Uint32BE(typeLen) == wire[0..4] && Uint32BE(keyLen) == wire[4 + typeLen..8 + typeLen]
    ensures exists kind, key, rest :: Splits(wire, kind, key, rest)
  {
    hide Uint32BE;
    var keyStart := 8 + typeLen;
    var kind, key, rest := wire[4..4 + typeLen], wire[keyStart..keyStart + keyLen], wire[keyStart + keyLen..];
    assert wire == wire[0..4] + kind + wire[4 + typeLen..keyStart] + key + rest;
    assert Splits(wire, kind, key, rest);
  }

  /** The split is unique, so "the" key of a wire form is well defined. */
  lemma SplitIsUnique(wire: seq<Byte>, kind: seq<Byte>, key: seq<Byte>, rest: seq<Byte>,
                      kind': seq<Byte>, key': seq<Byte>, rest': seq<Byte>)
    requires Splits(wire, kind, key, rest) && Splits(wire, kind', key', rest')
    ensures kind == kind' && key == key' && rest == rest'
  {
    SplitReads(wire, kind, key, rest);
    SplitReads(wire, kind', key', rest');
    hide Uint32BE; hide ReadUint32BE;
    assert kind == wire[4..4 + |kind|] && kind' == wire[4..4 + |kind|];
    assert rest == wire[8 + |kind| + |key|..] && rest' == wire[8 + |kind| + |key|..];
  }

  lemma ParseOfSplit(wire: seq<Byte>, kind: seq<Byte>, key: seq<Byte>, rest: seq<Byte>)
    requires Splits(wire, kind, key, rest)
    ensures ParseWire(wire) == if |key| == KEY_LENGTH then Ok(key) else Err(UnexpectedLength(|key|))
  {
    SplitReads(wire, kind, key, rest);
    hide Splits; hide ReadUint32BE;
  }

  /**
   * The parser accepts exactly the wires that split into a prefixed type, a prefixed 32-byte key and any
   * trailing bytes, and returns that key. What the type says is never looked at.
   */
  lemma ParseAcceptsExactly(wire: seq<Byte>, key: seq<Byte>)
    ensures ParseWire(wire) == Ok(key) <==> |key| == 32 && exists kind, rest :: Splits(wire, kind, key, rest)
  {
    if ParseWire(wire) == Ok(key) {
      ReadsSplit(wire);
      var kind, k, rest :| Splits(wire, kind, k, rest);
      ParseOfSplit(wire, kind, k, rest);
    }
    hide ParseWire;
    forall kind, rest | Splits(wire, kind, key, rest) && |key| == KEY_LENGTH ensures ParseWire(wire) == Ok(key) {
      ParseOfSplit(wire, kind, key, rest);
    }
  }

  /** Each refusal names what is wrong: no split at all, or a key of that other length. */
  lemma ParseRefusesExactly(wire: seq<Byte>, length: nat)
    ensures ParseWire(wire) == Err(Truncated) <==> !exists kind, key, rest :: Splits(wire, kind, key, rest)
    ensures ParseWire(wire) == Err(UnexpectedLength(length)) <==>
              length != 32 && exists kind, key, rest :: Splits(wire, kind, key, rest) && |key| == length
  {
    if ParseWire(wire) != Err(Truncated) {
      ReadsSplit(wire);
      var kind, key, rest :| Splits(wire, kind, key, rest);
      ParseOfSplit(wire, kind, key, rest);
    }
    hide ParseWire;
    forall kind, key, rest | Splits(wire, kind, key, rest)
      ensures ParseWire(wire) == if |key| == KEY_LENGTH then Ok(key) else Err(UnexpectedLength(|key|))
    {
      ParseOfSplit(wire, kind, key, rest);
    }
  }

  // ---- The key text ----------------------------------------------------------------------------------------

  /** What `trim` removes and the white-space class splits at. */
  predicate IsSpace(c: char) {
    || 9 <= c as int <= 13
    || c as int in {32, 0xa0, 0x1680, 0x2028, 0x2029, 0x202f, 0x205f, 0x3000, 0xfeff}
    || 0x2000 <= c as int <= 0x200a
  }

  /** White space and line terminators of ECMAScript. */
  lemma Spaces(c: char)
    ensures IsSpace(c) <==>
            c as int in {9, 10, 11, 12, 13, 32, 160, 5760,
                         8192, 8193, 8194, 8195, 8196, 8197, 8198, 8199, 8200, 8201, 8202,
                         8232, 8233, 8239, 8287, 12288, 65279}
  {
  }

  function WordLength(s: string): (n: nat)
    ensures n <= |s|
    ensures s != "" && !IsSpace(s[0]) ==> n > 0
  {
    if s == "" || IsSpace(s[0]) then 0 else 1 + WordLength(s[1..])
  }

  /** The parts between runs of white space, without the empty ones that `trim` prevents. */
  function Words(s: string): seq<string>
    decreases |s|
  {
    if s == "" then []
    else if IsSpace(s[0]) then Words(s[1..])
    else
      var n := WordLength(s);
      [s[..n]] + Words(s[n..])
  }

  predicate AllSpace(s: string) { forall i :: 0 <= i < |s| ==> IsSpace(s[i]) }

  predicate IsWord(s: string) { s != "" && forall i :: 0 <= i < |s| ==> !IsSpace(s[i]) }

  /** The end of the text, or white space, ends a word. */
  predicate EndsWord(s: string) { s == "" || IsSpace(s[0]) }

  lemma {:induction false} SkipsSpace(lead: string, s: string)
    requires AllSpace(lead)
    ensures Words(lead + s) == Words(s)
  {
    if lead == "" {
      assert lead + s == s;
    } else {
      assert (lead + s)[1..] == lead[1..] + s;
      SkipsSpace(lead[1..], s);
    }
  }

  lemma {:induction false} WordLengthIs(word: string, tail: string)
    requires EndsWord(tail) && forall i :: 0 <= i < |word| ==> !IsSpace(word[i])
    ensures WordLength(word + tail) == |word|
  {
    if word == "" {
      assert word + tail == tail;
    } else {
      assert (word + tail)[1..] == word[1..] + tail;
      WordLengthIs(word[1..], tail);
    }
  }

  lemma TakesWord(lead: string, word: string, tail: string)
    requires AllSpace(lead) && IsWord(word) && EndsWord(tail)
    ensures Words(lead + (word + tail)) == [word] + Words(tail)
  {
    SkipsSpace(lead, word + tail);
    WordLengthIs(word, tail);
    assert (word + tail)[..|word|] == word && (word + tail)[|word|..] == tail;
    assert !IsSpace((word + tail)[0]);
  }

  /** `importSshEd25519PublicKey` up to the platform's own import. */
  function Import(publicKey: string): Result<seq<Byte>, KeyError> {
    var parts := Words(publicKey);
    if |parts| < 2 || parts[0] != "ssh-ed25519" then Err(NotSshEd25519)
    else
      match Atob(parts[1])
      case None => Err(NotBase64)
      case Some(wire) => ParseWire(wire)
  }

  /** The first word of a text, with the space before it and the rest behind it. */
  lemma {:induction false} FirstWord(s: string) returns (lead: string, tail: string)
    requires Words(s) != []
    ensures AllSpace(lead) && IsWord(Words(s)[0]) && EndsWord(tail)
    ensures s == lead + (Words(s)[0] + tail) && Words(tail) == Words(s)[1..]
    decreases |s|
  {
    hide IsSpace; hide WordLength;
    if IsSpace(s[0]) {
      var more;
      more, tail := FirstWord(s[1..]);
      lead := [s[0]] + more;
      assert s == [s[0]] + s[1..];
    } else {
      var n := WordLength(s);
      WordEnds(s);
      TakenWord(s, n);
      lead, tail := "", s[n..];
    }
  }

  lemma TakenWord(s: string, n: nat)
    requires s != "" && !IsSpace(s[0]) && n == WordLength(s)
    requires forall i :: 0 <= i < n ==> !IsSpace(s[i])
    ensures Words(s) == [s[..n]] + Words(s[n..]) && IsWord(s[..n]) && s == "" + (s[..n] + s[n..])
  {
    hide IsSpace; hide WordLength;
  }

  lemma {:induction false} WordEnds(s: string)
    ensures forall i :: 0 <= i < WordLength(s) ==> !IsSpace(s[i])
    ensures EndsWord(s[WordLength(s)..])
  {
    if s != "" && !IsSpace(s[0]) {
      WordEnds(s[1..]);
      var n := WordLength(s[1..]);
      assert s[1..][n..] == s[n + 1..];
      assert forall i :: 0 < i < n + 1 ==> s[i] == s[1..][i - 1];
    }
  }

  /** White space, the name, white space, a word of data, and anything behind it that is not part of the word. */
  ghost predicate KeyLine(text: string, name: string, data: string) {
    exists lead, gap, tail ::
      && AllSpace(lead) && AllSpace(gap) && gap != "" && EndsWord(tail) && IsWord(name) && IsWord(data)
      && text == lead + (name + (gap + (data + tail)))
  }

  /** Text lines and their first two words. */
  lemma KeyLineWords(text: string, name: string, data: string)
    ensures KeyLine(text, name, data) <==> |Words(text)| >= 2 && Words(text)[0] == name && Words(text)[1] == data
  {
    hide IsSpace;
    if KeyLine(text, name, data) {
      var lead, gap, tail :|
        && AllSpace(lead) && AllSpace(gap) && gap != "" && EndsWord(tail) && IsWord(name) && IsWord(data)
        && text == lead + (name + (gap + (data + tail)));
      TwoWords(lead, name, gap, data, tail);
    }
    if |Words(text)| >= 2 && Words(text)[0] == name && Words(text)[1] == data {
      hide Words;
      var lead, rest := FirstWord(text);
      var gap, tail := FirstWord(rest);
      GapBetween(gap, data, tail, rest);
    }
  }

  lemma GapBetween(gap: string, data: string, tail: string, rest: string)
    requires rest == gap + (data + tail) && EndsWord(rest) && IsWord(data)
    ensures gap != ""
  {
    assert (data + tail)[0] == data[0];
    assert gap == "" ==> rest == data + tail;
  }

  /** A key text imports exactly when it names this type and its data is base64 text of a wire with such a key. */
  lemma ImportMeans(text: string, key: seq<Byte>)
    ensures Import(text) == Ok(key) <==>
            exists data, wire, kind, rest ::
              && KeyLine(text, "ssh-ed25519", data) && Atob(data) == Some(wire)
              && |key| == 32 && Splits(wire, kind, key, rest)
  {
    ImportOfWords(text, key, "ssh-ed25519");
  }

  lemma ImportOfWords(text: string, key: seq<Byte>, name: string)
    requires name == "ssh-ed25519"
    ensures Import(text) == Ok(key) <==>
            exists data, wire, kind, rest ::
              && KeyLine(text, name, data) && Atob(data) == Some(wire)
              && |key| == 32 && Splits(wire, kind, key, rest)
  {
    hide Words; hide Atob; hide ParseWire; hide KeyLine; hide Splits;
    forall data
      ensures KeyLine(text, name, data) <==> |Words(text)| >= 2 && Words(text)[0] == name && Words(text)[1] == data
    {
      KeyLineWords(text, name, data);
    }
    forall wire
      ensures ParseWire(wire) == Ok(key) <==> |key| == 32 && exists kind, rest :: Splits(wire, kind, key, rest)
    {
      ParseAcceptsExactly(wire, key);
    }
  }

  /** The wire form that the key pair builder writes. */
  function WireOf(kind: seq<Byte>, key: seq<Byte>): seq<Byte>
    requires IsUint32(|kind|) && IsUint32(|key|)
  {
    Prefixed(kind) + Prefixed(key)
  }

  lemma BuiltWireParses(kind: seq<Byte>, key: seq<Byte>)
    requires IsUint32(|kind|) && |key| == KEY_LENGTH
    ensures ParseWire(WireOf(kind, key)) == Ok(key)
  {
    hide ParseWire; hide Prefixed;
    assert WireOf(kind, key) == Prefixed(kind) + Prefixed(key) + [];
    assert Splits(WireOf(kind, key), kind, key, []);
    ParseOfSplit(WireOf(kind, key), kind, key, []);
  }

  lemma EncodedIsWord(bytes: seq<Byte>)
    requires bytes != []
    ensures IsWord(Encode(bytes))
  {
    var s, body := Encode(bytes), Body(bytes);
    hide Body;
    forall i | 0 <= i < |s| ensures !IsSpace(s[i]) {
      if i < |body| {
        assert SextetValue(body[i]) < 64;
      }
    }
  }

  /**
   * The key text that the builder writes imports to the key it was built from, whatever type name is on the
   * wire, with any white space around its two words and any comment behind them.
   */
  lemma BuiltKeyImports(kind: seq<Byte>, key: seq<Byte>, lead: string, name: string, gap: string, tail: string)
    requires IsUint32(|kind|) && |key| == KEY_LENGTH && name == "ssh-ed25519"
    requires AllSpace(lead) && AllSpace(gap) && gap != "" && EndsWord(tail)
    ensures Import(lead + (name + (gap + (Encode(WireOf(kind, key)) + tail)))) == Ok(key)
  {
    var wire := WireOf(kind, key);
    var data := Encode(wire);
    BuiltWireParses(kind, key);
    EncodedIsWord(wire);
    EncodeDecodes(wire);
    hide WireOf; hide Encode; hide ParseWire; hide Atob;
    NameIsWord(name);
    TwoWords(lead, name, gap, data, tail);
    hide Words;
  }

  lemma NameIsWord(name: string)
    requires name == "ssh-ed25519"
    ensures IsWord(name)
  {
  }

  lemma TwoWords(lead: string, first: string, gap: string, second: string, tail: string)
    requires AllSpace(lead) && AllSpace(gap) && gap != "" && EndsWord(tail) && IsWord(first) && IsWord(second)
    ensures Words(lead + (first + (gap + (second + tail)))) == [first, second] + Words(tail)
  {
    hide Words; hide IsSpace;
    assert (gap + (second + tail))[0] == gap[0];
    TakesWord(lead, first, gap + (second + tail));
    TakesWord(gap, second, tail);
  }

  // ---- Arrays ----------------------------------------------------------------------------------------------

  /** `target.set(source, at)` and `source.copy(target, at)`: the range from `at` on, and nothing else. */
  method CopyInto(source: seq<Byte>, target: array<Byte>, at: nat)
    requires at + |source| <= target.Length
    modifies target
    ensures target[..at + |source|] == old(target[..at]) + source
    ensures target[at + |source|..] == old(target[at + |source|..])
  {
    ghost var before := target[..];
    assert source[..0] == [] && before[..at] + [] == before[..at];
    for i := 0 to |source|
      invariant target[..at + i] == before[..at] + source[..i]
      invariant target[at + i..] == before[at + i..]
    {
      target[at + i] := source[i];
      ghost var now := target[..];
      assert now[..at + i + 1] == now[..at + i] + [source[i]];
      assert source[..i + 1] == source[..i] + [source[i]];
      assert now[at + i + 1..] == before[at + i + 1..];
    }
    assert source[..|source|] == source;
  }

  /** The wire bytes as the key pair builder fills them in; its type name is `ssh-ed25519`. */
  method BuildWire(kind: seq<Byte>, raw: seq<Byte>) returns (wire: array<Byte>)
    requires IsUint32(|kind|) && IsUint32(|raw|)
    ensures wire[..] == WireOf(kind, raw)
    ensures |raw| == KEY_LENGTH ==> ParseWire(wire[..]) == Ok(raw)
  {
    hide *;
    var first, second := Uint32BE(|kind|), Uint32BE(|raw|);
    wire := new Byte[8 + |kind| + |raw|];
    CopyInto(first, wire, 0);
    CopyInto(kind, wire, 4);
    CopyInto(second, wire, 4 + |kind|);
    CopyInto(raw, wire, 8 + |kind|);
    assert wire[..] == wire[..wire.Length];
    WireIsFourParts(kind, raw);
    if |raw| == KEY_LENGTH {
      BuiltWireParses(kind, raw);
    }
  }

  lemma WireIsFourParts(kind: seq<Byte>, raw: seq<Byte>)
    requires IsUint32(|kind|) && IsUint32(|raw|)
    ensures [] + Uint32BE(|kind|) + kind + Uint32BE(|raw|) + raw == WireOf(kind, raw)
  {
    hide Uint32BE;
  }

  const SPKI_PREFIX: seq<Byte> := [0x30, 0x2a, 0x30, 0x05, 0x06, 0x03, 0x2b, 0x65, 0x70, 0x03, 0x21, 0x00]

  /**
   * `buildSpkiDer`. The key is the end of the result, as the builder that takes the last 32 bytes expects,
   * and for a key of 32 bytes the two DER lengths in the prefix are those of what follows them.
   */
  method BuildSpkiDer(rawKey: seq<Byte>) returns (spki: array<Byte>)
    ensures spki[..] == [48, 42, 48, 5, 6, 3, 43, 101, 112, 3, 33, 0] + rawKey
    ensures spki[spki.Length - |rawKey|..] == rawKey
    ensures |rawKey| == KEY_LENGTH ==> spki.Length - 2 == spki[1] && spki.Length - 11 == spki[10]
  {
    var prefix := SPKI_PREFIX;
    spki := new Byte[|prefix| + |rawKey|];
    CopyInto(prefix, spki, 0);
    CopyInto(rawKey, spki, |prefix|);
    assert spki[..] == spki[..spki.Length] == [] + prefix + rawKey;
    assert spki[1] == spki[..][1] && spki[10] == spki[..][10];
  }
}
