/** Signed coordinator requests: the canonical text that is signed, and the verifier's checks around it. */
module SignedRequests {
  import opened Base64
  import opened Collections
  import SshKeys
  import Text

  const TIME_WINDOW_S := 300
  const DIGEST_LENGTH := 32

  /** A SHA-256 digest. */
  predicate IsDigest(digest: seq<Byte>) { |digest| == DIGEST_LENGTH }

  function HexChar(n: nat): (c: char)
    requires n < 16
    ensures c != '\n'
  {
    if n < 10 then (48 + n) as char else (87 + n) as char
  }

  /** `bytesToHex`. */
  function Hex(bytes: seq<Byte>): (s: string)
    ensures |s| == 2 * |bytes|
  {
    if bytes == [] then "" else [HexChar(bytes[0] / 16), HexChar(bytes[0] % 16)] + Hex(bytes[1..])
  }

  lemma {:induction false} HexInjective(a: seq<Byte>, b: seq<Byte>)
    requires Hex(a) == Hex(b)
    ensures a == b
  {
    if a != [] {
      var s, t := Hex(a), Hex(b);
      assert s[0] == HexChar(a[0] / 16) && t[0] == HexChar(b[0] / 16);
      assert s[1] == HexChar(a[0] % 16) && t[1] == HexChar(b[0] % 16);
      assert a[0] == b[0];
      assert s[2..] == Hex(a[1..]) && t[2..] == Hex(b[1..]);
      HexInjective(a[1..], b[1..]);
      assert a == [a[0]] + a[1..] && b == [b[0]] + b[1..];
    }
  }

  function UpperChar(c: char): char {
    if 'a' <= c <= 'z' then (c as int - 32) as char else c
  }

  /** `toUpperCase` on a request method, which is an ASCII token. */
  function Upper(s: string): string { seq(|s|, i requires 0 <= i < |s| => UpperChar(s[i])) }

  /** Small letters become the capitals of the same rank; nothing else changes. */
  lemma UpperMeans(n: nat, c: char)
    requires n < 26
    ensures UpperChar("abcdefghijklmnopqrstuvwxyz"[n]) == "ABCDEFGHIJKLMNOPQRSTUVWXYZ"[n]
    ensures !('a' <= c <= 'z') ==> UpperChar(c) == c
  {
  }

  /** What the signer covers; the digest stands for the body. */
  datatype Parts = Parts(verb: string, path: string, timestamp: string, nonce: string, digest: seq<Byte>)

  /** `buildCanonicalRequest` before the text is encoded. */
  function Canonical(p: Parts): string {
    Text.Join([Upper(p.verb), p.path, p.timestamp, p.nonce, Hex(p.digest)], '\n')
  }

  /** The verifier's own condition on a timestamp. */
  predicate IsTimestamp(s: string) { s != "" && Text.AllDigits(s) }

  /** No line break in method or path, a timestamp as the verifier demands, a digest of the right length. */
  predicate WellFormed(p: Parts) {
    '\n' !in p.verb && '\n' !in p.path && IsTimestamp(p.timestamp) && IsDigest(p.digest)
  }

  lemma UnfoldCanonical(p: Parts)
    ensures Canonical(p) ==
      Upper(p.verb) + ['\n'] + (p.path + ['\n'] + (p.timestamp + ['\n'] + (p.nonce + ['\n'] + Hex(p.digest))))
  {
    hide Upper; hide Hex;
    JoinFive(Upper(p.verb), p.path, p.timestamp, p.nonce, Hex(p.digest));
  }

  lemma JoinHead(a: string, rest: seq<string>)
    requires rest != []
    ensures Text.Join([a] + rest, '\n') == a + ['\n'] + Text.Join(rest, '\n')
  {
    assert ([a] + rest)[1..] == rest;
  }

  lemma JoinFive(a: string, b: string, c: string, d: string, e: string)
    ensures Text.Join([a, b, c, d, e], '\n') == a + ['\n'] + (b + ['\n'] + (c + ['\n'] + (d + ['\n'] + e)))
  {
    JoinHead(a, [b, c, d, e]);
    JoinHead(b, [c, d, e]);
    JoinHead(c, [d, e]);
    JoinHead(d, [e]);
    assert Text.Join([e], '\n') == e;
    hide Text.Join;
    assert [a, b, c, d, e] == [a] + [b, c, d, e];
    assert [b, c, d, e] == [b] + [c, d, e];
    assert [c, d, e] == [c] + [d, e];
    assert [d, e] == [d] + [e];
  }

  lemma UpperHasNoNewline(s: string)
    requires '\n' !in s
    ensures '\n' !in Upper(s)
  {
    forall i | 0 <= i < |s| ensures Upper(s)[i] != '\n' {
      assert s[i] in s;
    }
  }

  /** A last part of known length splits off whatever stands before it. */
  lemma SplitLast(a: string, b: string, x: string, y: string)
    requires |x| == |y| && a + ['\n'] + x == b + ['\n'] + y
    ensures a == b && x == y
  {
    var s, t := a + ['\n'] + x, b + ['\n'] + y;
    assert |a| == |b|;
    assert s[..|a|] == a && t[..|b|] == b;
    assert s[|a| + 1..] == x && t[|b| + 1..] == y;
  }

  /** The middle of the canonical text, between the method's line and the digest's. */
  function Middle(p: Parts): string { p.path + ['\n'] + p.timestamp + ['\n'] + p.nonce }

  /** Parts that may differ from each other at most in where the timestamp stands. */
  predicate Plausible(p: Parts) { '\n' !in p.verb && IsTimestamp(p.timestamp) && IsDigest(p.digest) }

  predicate SameParts(p: Parts, q: Parts) {
    && Upper(p.verb) == Upper(q.verb) && p.path == q.path && p.timestamp == q.timestamp
    && p.nonce == q.nonce && p.digest == q.digest
  }

  /** Method and digest stand at the ends of the text, and everything else is decided by the middle. */
  lemma EndsDetermined(p: Parts, q: Parts)
    requires Plausible(p) && Plausible(q)
    ensures Canonical(p) == Canonical(q) <==>
              Upper(p.verb) == Upper(q.verb) && p.digest == q.digest && Middle(p) == Middle(q)
  {
    MiddleIsInside(p);
    MiddleIsInside(q);
    UpperHasNoNewline(p.verb);
    UpperHasNoNewline(q.verb);
    hide Upper; hide Hex; hide Canonical; hide Middle;
    if Canonical(p) == Canonical(q) {
      var tailP, tailQ := Middle(p) + ['\n'] + Hex(p.digest), Middle(q) + ['\n'] + Hex(q.digest);
      Text.SplitFirst(Upper(p.verb), Upper(q.verb), tailP, tailQ, '\n');
      SplitLast(Middle(p), Middle(q), Hex(p.digest), Hex(q.digest));
      HexInjective(p.digest, q.digest);
    }
  }

  lemma MiddleIsInside(p: Parts)
    ensures Canonical(p) == Upper(p.verb) + ['\n'] + (Middle(p) + ['\n'] + Hex(p.digest))
  {
    UnfoldCanonical(p);
    hide Upper; hide Hex; hide Canonical;
    var h := Hex(p.digest);
    assert p.path + ['\n'] + (p.timestamp + ['\n'] + (p.nonce + ['\n'] + h)) == Middle(p) + ['\n'] + h;
  }

  /** The lines of the middle: those of the path, the timestamp, those of the nonce. */
  function MiddleLines(p: Parts): seq<string> {
    Text.Split(p.path, '\n') + [p.timestamp] + Text.Split(p.nonce, '\n')
  }

  lemma TimestampIsOneLine(s: string)
    requires IsTimestamp(s)
    ensures '\n' !in s
  {
  }

  lemma MiddleIsItsLines(p: Parts)
    requires IsTimestamp(p.timestamp)
    ensures MiddleLines(p) != [] && Middle(p) == Text.Join(MiddleLines(p), '\n')
    ensures forall i :: 0 <= i < |MiddleLines(p)| ==> '\n' !in MiddleLines(p)[i]
  {
    TimestampIsOneLine(p.timestamp);
    var path, nonce := Text.Split(p.path, '\n'), Text.Split(p.nonce, '\n');
    Text.JoinSplit(p.path, '\n');
    Text.JoinSplit(p.nonce, '\n');
    Text.JoinConcat(path + [p.timestamp], nonce, '\n');
    Text.JoinConcat(path, [p.timestamp], '\n');
    assert Text.Join([p.timestamp], '\n') == p.timestamp;
  }

  /** Another line that reads as a timestamp: in the path after its first, or in the nonce before its last. */
  predicate AnotherTimestampLine(p: Parts) {
    var path, nonce := Text.Split(p.path, '\n'), Text.Split(p.nonce, '\n');
    || (exists i :: 1 <= i < |path| && IsTimestamp(path[i]))
    || (exists i :: 0 <= i < |nonce| - 1 && IsTimestamp(nonce[i]))
  }

  /** Where another reading puts its timestamp, this one has such a line. */
  lemma CutElsewhere(p: Parts, q: Parts)
    requires IsTimestamp(q.timestamp) && MiddleLines(p) == MiddleLines(q)
    requires |Text.Split(p.path, '\n')| != |Text.Split(q.path, '\n')|
    ensures AnotherTimestampLine(p)
  {
    hide IsTimestamp;
    var lines := MiddleLines(p);
    var path, nonce, at := Text.Split(p.path, '\n'), Text.Split(p.nonce, '\n'), |Text.Split(q.path, '\n')|;
    assert lines[at] == q.timestamp;
    if at < |path| {
      assert lines[at] == path[at];
    } else {
      assert lines[at] == nonce[at - |path| - 1];
    }
  }

  /** With no such line the text can be cut in one place only. */
  lemma CutIsUnique(p: Parts, q: Parts)
    requires IsTimestamp(p.timestamp) && IsTimestamp(q.timestamp) && MiddleLines(p) == MiddleLines(q)
    requires !AnotherTimestampLine(p)
    ensures p.path == q.path && p.timestamp == q.timestamp && p.nonce == q.nonce
  {
    hide IsTimestamp;
    var lines := MiddleLines(p);
    var pathP, nonceP := Text.Split(p.path, '\n'), Text.Split(p.nonce, '\n');
    var pathQ, nonceQ := Text.Split(q.path, '\n'), Text.Split(q.nonce, '\n');
    assert lines[|pathQ|] == q.timestamp && lines[|pathP|] == p.timestamp;
    if |pathQ| != |pathP| {
      CutElsewhere(p, q);
    }
    assert |pathQ| == |pathP|;
    assert pathP == lines[..|pathP|] == pathQ && nonceP == lines[|pathP| + 1..] == nonceQ;
    Text.JoinSplit(p.path, '\n');
    Text.JoinSplit(q.path, '\n');
    Text.JoinSplit(p.nonce, '\n');
    Text.JoinSplit(q.nonce, '\n');
  }

  /** The same lines cut at the timestamp line i. */
  function CutAt(p: Parts, lines: seq<string>, i: nat): Parts
    requires 1 <= i < |lines| - 1
  {
    Parts(p.verb, Text.Join(lines[..i], '\n'), lines[i], Text.Join(lines[i + 1..], '\n'), p.digest)
  }

  lemma CutHasTheLines(p: Parts, lines: seq<string>, i: nat)
    requires 1 <= i < |lines| - 1 && forall k :: 0 <= k < |lines| ==> '\n' !in lines[k]
    ensures var q := CutAt(p, lines, i);
            MiddleLines(q) == lines && |Text.Split(q.path, '\n')| == i
  {
    hide Text.Split; hide Text.Join;
    Text.SplitJoin(lines[..i], '\n');
    Text.SplitJoin(lines[i + 1..], '\n');
    assert lines == lines[..i] + [lines[i]] + lines[i + 1..];
  }

  /** Every such line gives a second reading: other parts, and the same canonical text. */
  lemma LineMovesOver(p: Parts) returns (q: Parts)
    requires Plausible(p) && AnotherTimestampLine(p)
    ensures Plausible(q) && Canonical(q) == Canonical(p) && q.path != p.path
  {
    MiddleIsItsLines(p);
    var lines := MiddleLines(p);
    var path, nonce := Text.Split(p.path, '\n'), Text.Split(p.nonce, '\n');
    var i: nat;
    if k :| 1 <= k < |path| && IsTimestamp(path[k]) {
      i := k;
    } else {
      var k :| 0 <= k < |nonce| - 1 && IsTimestamp(nonce[k]);
      i := |path| + 1 + k;
      assert lines[i] == nonce[k];
    }
    hide IsTimestamp; hide Canonical; hide Middle; hide MiddleLines;
    CutHasTheLines(p, lines, i);
    q := CutAt(p, lines, i);
    MiddleIsItsLines(q);
    EndsDetermined(p, q);
  }

  /**
   * Exactly when the canonical text determines the upper-cased method, the path, the timestamp, the nonce
   * and the body digest: when no line of the path after its first, and no line of the nonce before its
   * last, reads as a timestamp.
   */
  lemma CanonicalDeterminesIff(p: Parts)
    requires Plausible(p)
    ensures (forall q :: Plausible(q) && Canonical(q) == Canonical(p) ==> SameParts(p, q)) <==> !AnotherTimestampLine(p)
  {
    if AnotherTimestampLine(p) {
      var q := LineMovesOver(p);
      assert !SameParts(p, q);
    } else {
      forall q | Plausible(q) && Canonical(q) == Canonical(p) ensures SameParts(p, q) {
        OneReading(p, q);
      }
    }
  }

  lemma OneReading(p: Parts, q: Parts)
    requires Plausible(p) && Plausible(q) && Canonical(q) == Canonical(p) && !AnotherTimestampLine(p)
    ensures SameParts(p, q)
  {
    EndsDetermined(p, q);
    MiddleIsItsLines(p);
    MiddleIsItsLines(q);
    hide Canonical; hide Middle; hide MiddleLines; hide AnotherTimestampLine;
    Text.JoinInjective(MiddleLines(p), MiddleLines(q), '\n');
    CutIsUnique(p, q);
  }

  /**
   * Between two requests whose paths have no line break, as every path and query of a parsed URL, the text
   * determines all of them, for every nonce whatever.
   */
  lemma CanonicalDetermines(p: Parts, q: Parts)
    requires WellFormed(p) && WellFormed(q) && Canonical(p) == Canonical(q)
    ensures SameParts(p, q)
  {
    EndsDetermined(p, q);
    TimestampIsOneLine(p.timestamp);
    TimestampIsOneLine(q.timestamp);
    hide Canonical;
    var p4, q4 := p.timestamp + ['\n'] + p.nonce, q.timestamp + ['\n'] + q.nonce;
    assert Middle(p) == p.path + ['\n'] + p4 && Middle(q) == q.path + ['\n'] + q4;
    Text.SplitFirst(p.path, q.path, p4, q4, '\n');
    Text.SplitFirst(p.timestamp, q.timestamp, p.nonce, q.nonce, '\n');
  }

  // ---- The verifier ----------------------------------------------------------------------------------------

  datatype Signed = Signed(parts: Parts, publicKey: string, signature: string)

  /** `crypto.subtle.verify` on a raw key, a signature and the signed text. */
  type SignatureCheck = (seq<Byte>, seq<Byte>, string) -> bool

  function IndexOf(s: string, c: char): (i: int)
    ensures -1 <= i < |s|
    ensures i >= 0 ==> s[i] == c && c !in s[..i]
    ensures i == -1 ==> c !in s
  {
    if s == "" then -1
    else if s[0] == c then 0
    else
      var rest := IndexOf(s[1..], c);
      if rest < 0 then -1 else rest + 1
  }

  /** `verifyCloudflareCoordinatorRequest` at `now` in seconds. */
  predicate Verify(r: Signed, now: nat, check: SignatureCheck) {
    && IsTimestamp(r.parts.timestamp)
    && -TIME_WINDOW_S <= now - Text.Number(r.parts.timestamp) <= TIME_WINDOW_S
    && var colon := IndexOf(r.signature, ':');
       && colon >= 1
       && r.signature[..colon] in ["v1", "v2"]
       && r.signature[colon + 1..] != ""
       && SshKeys.Import(r.publicKey).Ok?
       && Atob(r.signature[colon + 1..]).Some?
       && check(SshKeys.Import(r.publicKey).value, Atob(r.signature[colon + 1..]).value, Canonical(r.parts))
  }

  /** The version, the colon and the base64 text of a signature. */
  ghost predicate SplitsInto(signature: string, version: string, body: string) {
    signature == version + ":" + body && (version == "v1" || version == "v2") && body != ""
  }

  lemma ColonSplits(signature: string)
    ensures var colon := IndexOf(signature, ':');
            && (colon >= 1 && signature[..colon] in ["v1", "v2"] && signature[colon + 1..] != "" <==>
                  exists version, body :: SplitsInto(signature, version, body))
            && forall version, body :: SplitsInto(signature, version, body) ==>
                 colon == 2 && signature[..colon] == version && signature[colon + 1..] == body
  {
    hide IndexOf;
    var colon := IndexOf(signature, ':');
    if colon >= 1 && signature[..colon] in ["v1", "v2"] && signature[colon + 1..] != "" {
      assert signature == signature[..colon] + ":" + signature[colon + 1..];
      assert SplitsInto(signature, signature[..colon], signature[colon + 1..]);
    }
    forall version, body | SplitsInto(signature, version, body)
      ensures colon == 2 && signature[..colon] == version && signature[colon + 1..] == body
    {
      ColonAt(version, body);
      assert version + [':'] + body == signature;
    }
  }

  /** The five lines that are signed. */
  ghost function SignedText(p: Parts): string {
    Upper(p.verb) + "\n" + p.path + "\n" + p.timestamp + "\n" + p.nonce + "\n" + Hex(p.digest)
  }

  /**
   * A request is accepted exactly when its timestamp is a number at most 300 seconds from now, its key imports, and
   * its signature is a known version, a colon and base64 text that the key verifies for the five lines.
   */
  lemma VerifyMeans(r: Signed, now: nat, check: SignatureCheck)
    ensures Verify(r, now, check) <==>
            && r.parts.timestamp != "" && Text.AllDigits(r.parts.timestamp)
            && Text.Number(r.parts.timestamp) - 300 <= now <= Text.Number(r.parts.timestamp) + 300
            && exists version, body, key, bytes ::
                 && SplitsInto(r.signature, version, body)
                 && SshKeys.Import(r.publicKey) == Ok(key) && Atob(body) == Some(bytes)
                 && check(key, bytes, SignedText(r.parts))
  {
    UnfoldCanonical(r.parts);
    hide Canonical; hide Upper; hide Hex; hide IndexOf; hide Atob; hide SshKeys.Import; hide SplitsInto;
    assert SignedText(r.parts) == Canonical(r.parts);
    hide SignedText;
    ColonSplits(r.signature);
    if Verify(r, now, check) {
      var version, body :| SplitsInto(r.signature, version, body);
    }
  }

  /** Each byte is written as two lower-case hexadecimal digits, the high one first. */
  lemma {:induction false} HexDigits(bytes: seq<Byte>, i: nat)
    requires i < |bytes|
    ensures var digits := "0123456789abcdef";
            && Hex(bytes)[2 * i] == digits[bytes[i] / 16] && Hex(bytes)[2 * i + 1] == digits[bytes[i] % 16]
  {
    HexCharMeans(bytes[0] / 16);
    HexCharMeans(bytes[0] % 16);
    if i > 0 {
      HexDigits(bytes[1..], i - 1);
      assert Hex(bytes)[2..] == Hex(bytes[1..]);
      assert Hex(bytes)[2 * i] == Hex(bytes)[2..][2 * (i - 1)];
      assert Hex(bytes)[2 * i + 1] == Hex(bytes)[2..][2 * (i - 1) + 1];
    }
  }

  lemma HexCharMeans(n: nat)
    requires n < 16
    ensures HexChar(n) == "0123456789abcdef"[n]
  {
  }

  /** A signature that verifies for one text under a key verifies for no other text. */
  ghost predicate BindsText(check: SignatureCheck) {
    forall key, signature, text, other :: check(key, signature, text) && check(key, signature, other) ==> text == other
  }

  /**
   * A captured signature is of no use for another request: of two accepted requests with one key and one
   * signature, all the signed parts agree, so the second is no fresher than the first.
   */
  lemma SignatureIsForOneRequest(r: Signed, now: nat, other: Signed, later: nat, check: SignatureCheck)
    requires BindsText(check) && Verify(r, now, check) && Verify(other, later, check)
    requires r.publicKey == other.publicKey && r.signature == other.signature
    requires WellFormed(r.parts) && WellFormed(other.parts)
    ensures SameParts(r.parts, other.parts)
    ensures -2 * TIME_WINDOW_S <= later - now <= 2 * TIME_WINDOW_S
  {
    hide *;
    AcceptedWithin(r, now, check);
    AcceptedWithin(other, later, check);
    SameSignature(r, now, other, later, check);
    SameTimestamp(r, other);
  }

  lemma AcceptedWithin(r: Signed, now: nat, check: SignatureCheck)
    requires Verify(r, now, check)
    ensures IsTimestamp(r.parts.timestamp)
    ensures -TIME_WINDOW_S <= now - Text.Number(r.parts.timestamp) <= TIME_WINDOW_S
  {
  }

  lemma SameSignature(r: Signed, now: nat, other: Signed, later: nat, check: SignatureCheck)
    requires BindsText(check) && Verify(r, now, check) && Verify(other, later, check)
    requires r.publicKey == other.publicKey && r.signature == other.signature
    ensures Canonical(r.parts) == Canonical(other.parts)
  {
    hide Canonical; hide Atob; hide SshKeys.Import; hide IndexOf; hide IsTimestamp;
  }

  lemma SameTimestamp(r: Signed, other: Signed)
    requires WellFormed(r.parts) && WellFormed(other.parts) && Canonical(r.parts) == Canonical(other.parts)
    ensures SameParts(r.parts, other.parts) && r.parts.timestamp == other.parts.timestamp
  {
    hide Canonical; hide WellFormed;
    CanonicalDetermines(r.parts, other.parts);
  }

  /** What the signer sends is accepted within the window, under both versions. */
  lemma SignedIsAccepted(p: Parts, kind: seq<Byte>, key: seq<Byte>, signature: seq<Byte>, version: string, now: nat,
                         check: SignatureCheck)
    requires IsTimestamp(p.timestamp) && -TIME_WINDOW_S <= now - Text.Number(p.timestamp) <= TIME_WINDOW_S
    requires SshKeys.IsUint32(|kind|) && |key| == SshKeys.KEY_LENGTH && signature != []
    requires version in ["v1", "v2"] && check(key, signature, Canonical(p))
    ensures Verify(Signed(p, KeyText("ssh-ed25519", kind, key), version + [':'] + Encode(signature)), now, check)
  {
    KeyTextImports("ssh-ed25519", kind, key);
    SignatureText(version, signature);
    hide Encode; hide Atob; hide SshKeys.Import; hide Canonical; hide KeyText; hide IndexOf; hide IsTimestamp;
  }

  /** The key text of the key pair builder. */
  function KeyText(name: string, kind: seq<Byte>, key: seq<Byte>): string
    requires SshKeys.IsUint32(|kind|) && SshKeys.IsUint32(|key|)
  {
    name + (" " + Encode(SshKeys.WireOf(kind, key)))
  }

  lemma KeyTextImports(name: string, kind: seq<Byte>, key: seq<Byte>)
    requires SshKeys.IsUint32(|kind|) && |key| == SshKeys.KEY_LENGTH && name == "ssh-ed25519"
    ensures SshKeys.Import(KeyText(name, kind, key)) == Ok(key)
  {
    SshKeys.BuiltKeyImports(kind, key, "", name, " ", "");
    var data := Encode(SshKeys.WireOf(kind, key));
    hide Encode; hide SshKeys.Import; hide SshKeys.WireOf;
    assert "" + (name + (" " + (data + ""))) == KeyText(name, kind, key);
  }

  lemma SignatureText(version: string, signature: seq<Byte>)
    requires version in ["v1", "v2"] && signature != []
    ensures var sent := version + [':'] + Encode(signature);
            && IndexOf(sent, ':') == 2 && sent[..2] == version
            && sent[3..] != "" && Atob(sent[3..]) == Some(signature)
  {
    EncodeDecodes(signature);
    assert Encode(signature) != "" by {
      hide Body;
    }
    hide Encode; hide Atob;
    ColonAt(version, Encode(signature));
    assert (version + [':'] + Encode(signature))[3..] == Encode(signature);
  }

  lemma ColonAt(version: string, rest: string)
    requires version in ["v1", "v2"]
    ensures |version| == 2 && IndexOf(version + [':'] + rest, ':') == 2
    ensures (version + [':'] + rest)[..2] == version
  {
    assert |version| == 2 && version[0] != ':' && version[1] != ':';
    TwoBeforeColon(version[0], version[1], version + [':'] + rest);
  }

  lemma TwoBeforeColon(a: char, b: char, s: string)
    requires |s| >= 3 && s[0] == a && s[1] == b && s[2] == ':' && a != ':' && b != ':'
    ensures IndexOf(s, ':') == 2
  {
    assert IndexOf(s[1..][1..], ':') == 0;
    assert IndexOf(s[1..], ':') == 1;
  }
}
