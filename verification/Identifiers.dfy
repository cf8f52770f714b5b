/** Identifier normal forms: UUIDs, stable codes, and sorted duplicate-free id lists. */
module Identifiers {
  import opened Collections
  import opened Text

  predicate IsLowerHex(c: char) { IsDigit(c) || 'a' <= c <= 'f' }

  /** The pattern's demand on one position, after lower-casing. */
  predicate UuidPosition(i: nat, c: char) {
    if i in {8, 13, 18, 23} then c == '-'
    else if i == 14 then '1' <= c <= '8'
    else if i == 19 then c in "89ab"
    else IsLowerHex(c)
  }

  predicate IsUuid(s: string) {
    |s| == 36 && forall i :: 0 <= i < 36 ==> UuidPosition(i, LowerChar(s[i]))
  }

  /** `uuid`: the lower-case form, or None where the source throws. */
  function Uuid(s: string): Option<string> {
    if IsUuid(s) then Some(Lower(s)) else None
  }

  lemma UuidFixpoint(s: string)
    requires Uuid(s).Some?
    ensures Uuid(Uuid(s).value) == Uuid(s)
  {
    var t := Lower(s);
    assert forall i :: 0 <= i < |s| ==> LowerChar(t[i]) == t[i];
    assert Lower(t) == t;
  }

  lemma RecasedUuid(a: string, b: string)
    requires Lower(a) == Lower(b)
    ensures Uuid(a) == Uuid(b)
  {
    assert |a| == |b| && forall i :: 0 <= i < |a| ==> LowerChar(a[i]) == Lower(a)[i] == LowerChar(b[i]);
  }

  /** Five groups of hexadecimal digits, of either case, between hyphens; a version 1 to 8 and the standard variant. */
  ghost predicate Grouped(s: string, a: string, b: string, c: string, d: string, e: string) {
    && s == a + "-" + b + "-" + c + "-" + d + "-" + e
    && |a| == 8 && |b| == |c| == |d| == 4 && |e| == 12
    && AllHex(a) && AllHex(b) && AllHex(c) && AllHex(d) && AllHex(e)
    && '1' <= c[0] <= '8' && d[0] in {'8', '9', 'a', 'A', 'b', 'B'}
  }

  lemma UuidMeans(s: string)
    ensures IsUuid(s) <==> exists a, b, c, d, e :: Grouped(s, a, b, c, d, e)
  {
    hide IsUuid; hide Grouped;
    if IsUuid(s) {
      var a, b, c, d, e := UuidIsGrouped(s);
    }
    forall a, b, c, d, e | Grouped(s, a, b, c, d, e) ensures IsUuid(s) {
      GroupedIsUuid(s, a, b, c, d, e);
    }
  }

  lemma HexPositions(s: string, from: nat, to: nat)
    requires IsUuid(s) && (from, to) in {(0, 8), (9, 13), (14, 18), (19, 23), (24, 36)}
    ensures from <= to <= |s| && AllHex(s[from..to])
  {
    forall i | from <= i < to ensures '0' <= s[i] <= '9' || 'a' <= s[i] <= 'f' || 'A' <= s[i] <= 'F' {
      assert UuidPosition(i, LowerChar(s[i]));
    }
  }

  lemma UuidIsGrouped(s: string) returns (a: string, b: string, c: string, d: string, e: string)
    requires IsUuid(s)
    ensures Grouped(s, a, b, c, d, e)
  {
    a, b, c, d, e := s[..8], s[9..13], s[14..18], s[19..23], s[24..];
    HexPositions(s, 0, 8);
    HexPositions(s, 9, 13);
    HexPositions(s, 14, 18);
    HexPositions(s, 19, 23);
    HexPositions(s, 24, 36);
    Hyphens(s);
    hide AllHex;
    assert s[..8] == s[0..8] && s[24..] == s[24..36];
    Assembled(s);
  }

  lemma Hyphens(s: string)
    requires IsUuid(s)
    ensures |s| == 36 && s[8] == s[13] == s[18] == s[23] == '-'
    ensures '1' <= s[14] <= '8' && s[19] in {'8', '9', 'a', 'A', 'b', 'B'}
  {
    assert UuidPosition(8, LowerChar(s[8])) && UuidPosition(13, LowerChar(s[13]));
    assert UuidPosition(18, LowerChar(s[18])) && UuidPosition(23, LowerChar(s[23]));
    assert UuidPosition(14, LowerChar(s[14])) && UuidPosition(19, LowerChar(s[19]));
  }

  lemma Assembled(s: string)
    requires |s| == 36 && s[8] == s[13] == s[18] == s[23] == '-'
    ensures s == s[..8] + "-" + s[9..13] + "-" + s[14..18] + "-" + s[19..23] + "-" + s[24..]
  {
  }

  lemma GroupedIsUuid(s: string, a: string, b: string, c: string, d: string, e: string)
    requires Grouped(s, a, b, c, d, e)
    ensures IsUuid(s)
  {
    forall i | 0 <= i < 36 ensures UuidPosition(i, LowerChar(s[i])) {
      if i < 8 {
        assert s[i] == a[i];
      } else if 8 < i < 13 {
        assert s[i] == b[i - 9];
      } else if 13 < i < 18 {
        assert s[i] == c[i - 14];
      } else if 18 < i < 23 {
        assert s[i] == d[i - 19];
      } else if 23 < i {
        assert s[i] == e[i - 24];
      }
    }
  }

  /** Hexadecimal digits of either case. */
  ghost predicate AllHex(s: string) {
    forall i :: 0 <= i < |s| ==> '0' <= s[i] <= '9' || 'a' <= s[i] <= 'f' || 'A' <= s[i] <= 'F'
  }

  predicate AlphaNumeric(c: char) { IsDigit(c) || 'a' <= c <= 'z' || 'A' <= c <= 'Z' }

  /** `stableCode` accepts the value unchanged or throws. */
  predicate IsStableCode(s: string) {
    1 <= |s| <= 256 && AlphaNumeric(s[0]) &&
    forall i :: 0 <= i < |s| ==> AlphaNumeric(s[i]) || s[i] in "._/@:+-"
  }

  /** Up to 256 letters, digits and seven punctuation marks, which may not come first. */
  lemma StableCodeMeans(s: string)
    ensures IsStableCode(s) <==>
            && 0 < |s| < 257 && s[0] !in {'.', '_', '/', '@', ':', '+', '-'}
            && forall c :: c in s ==>
                 'a' <= LowerChar(c) <= 'z' || IsDigit(c) || c in {'.', '_', '/', '@', ':', '+', '-'}
  {
    if IsStableCode(s) {
      forall c | c in s ensures 'a' <= LowerChar(c) <= 'z' || IsDigit(c) || c in {'.', '_', '/', '@', ':', '+', '-'} {
        var i :| 0 <= i < |s| && s[i] == c;
      }
    }
    forall i | 0 <= i < |s| ensures s[i] in s {
    }
  }

  const MAX_SAFE_INTEGER := 9_007_199_254_740_991

  predicate IsPositiveInteger(n: int) { 1 <= n <= MAX_SAFE_INTEGER }

  // ---- Sorted, duplicate-free lists -----------------------------------------------------------

  ghost predicate StrictlySorted(s: seq<string>) {
    forall i, j :: 0 <= i < j < |s| ==> Less(s[i], s[j])
  }

  function Insert(x: string, s: seq<string>): (r: seq<string>)
    requires StrictlySorted(s)
    ensures StrictlySorted(r)
    ensures forall y :: y in r <==> y == x || y in s
  {
    if s == [] then [x]
    else if x == s[0] then s
    else if Less(x, s[0]) then
      InsertFront(x, s);
      [x] + s
    else
      LessTotal(x, s[0]);
      var rest := Insert(x, s[1..]);
      assert forall y :: y in rest ==> Less(s[0], y);
      [s[0]] + rest
  }

  lemma InsertFront(x: string, s: seq<string>)
    requires s != [] && StrictlySorted(s) && Less(x, s[0])
    ensures StrictlySorted([x] + s)
  {
    forall i | 0 < i < |s| ensures Less(x, s[i]) {
      LessTransitive(x, s[0], s[i]);
    }
  }

  /** `[...new Set(ids)].sort()`. */
  function SortUnique(ids: seq<string>): (r: seq<string>)
    ensures StrictlySorted(r)
    ensures forall y :: y in r <==> y in ids
    ensures |r| <= |ids|
  {
    if ids == [] then []
    else
      InsertLength(ids[0], SortUnique(ids[1..]));
      Insert(ids[0], SortUnique(ids[1..]))
  }

  lemma {:induction false} InsertLength(x: string, s: seq<string>)
    requires StrictlySorted(s)
    ensures |Insert(x, s)| <= |s| + 1
  {
    if s != [] && x != s[0] && !Less(x, s[0]) {
      InsertLength(x, s[1..]);
    }
  }

  /** A strictly sorted list is determined by its elements. */
  lemma {:induction false} SortedIsCanonical(a: seq<string>, b: seq<string>)
    requires StrictlySorted(a) && StrictlySorted(b)
    requires forall y :: y in a <==> y in b
    ensures a == b
  {
    assert a != [] ==> a[0] in b;
    assert b != [] ==> b[0] in a;
    if a != [] {
      HeadIsLeast(a, b[0]);
      HeadIsLeast(b, a[0]);
      if a[0] != b[0] {
        LessTransitive(a[0], b[0], a[0]);
        LessIrreflexive(a[0]);
      }
      forall y ensures y in a[1..] <==> y in b[1..] {
        TailOfSorted(a, y);
        TailOfSorted(b, y);
      }
      SortedIsCanonical(a[1..], b[1..]);
      assert a == [a[0]] + a[1..] && b == [b[0]] + b[1..];
    }
  }

  lemma HeadIsLeast(s: seq<string>, y: string)
    requires s != [] && StrictlySorted(s) && y in s
    ensures y == s[0] || Less(s[0], y)
  {
  }

  lemma TailOfSorted(s: seq<string>, y: string)
    requires s != [] && StrictlySorted(s)
    ensures y in s[1..] <==> y in s && y != s[0]
  {
    LessIrreflexive(s[0]);
    if y in s && y != s[0] {
      var i :| 0 <= i < |s| && s[i] == y;
      assert s[1..][i - 1] == y;
    }
  }

  // ---- Evidence id lists ------------------------------------------------------------------------

  function Uuids(ids: seq<string>): (r: Option<seq<string>>)
    ensures r.Some? <==> forall id :: id in ids ==> IsUuid(id)
    ensures r.Some? ==> |r.value| == |ids| && forall i :: 0 <= i < |ids| ==> r.value[i] == Lower(ids[i])
  {
    if ids == [] then Some([])
    else
      match (Uuid(ids[0]), Uuids(ids[1..]))
      case (Some(head), Some(tail)) =>
        assert forall id :: id in ids ==> id == ids[0] || id in ids[1..];
        Some([head] + tail)
      case _ =>
        assert ids[0] in ids && forall id :: id in ids[1..] ==> id in ids;
        None
  }

  /** `normalizedEvidenceIds`: 1 to 100 UUIDs, lower-cased, deduplicated and sorted. */
  function NormalizedIds(ids: seq<string>): Option<seq<string>> {
    if |ids| == 0 || |ids| > 100 || Uuids(ids).None? then None
    else Some(SortUnique(Uuids(ids).value))
  }

  function LowerSet(ids: seq<string>): set<string> { set id | id in ids :: Lower(id) }

  /** Case, order and repetition of ids do not matter as long as the list stays within its bounds. */
  lemma SameIdsSameNormalForm(a: seq<string>, b: seq<string>)
    requires NormalizedIds(a).Some? && NormalizedIds(b).Some?
    requires LowerSet(a) == LowerSet(b)
    ensures NormalizedIds(a) == NormalizedIds(b)
  {
    SortedElements(a);
    SortedElements(b);
    SortedIsCanonical(SortUnique(Uuids(a).value), SortUnique(Uuids(b).value));
  }

  lemma SortedElements(ids: seq<string>)
    requires Uuids(ids).Some?
    ensures forall y :: y in SortUnique(Uuids(ids).value) <==> y in LowerSet(ids)
  {
    var u := Uuids(ids).value;
    forall y ensures y in u <==> y in LowerSet(ids) {
      if y in u {
        var i :| 0 <= i < |u| && u[i] == y;
        assert ids[i] in ids;
      }
      if y in LowerSet(ids) {
        var id :| id in ids && Lower(id) == y;
        var i :| 0 <= i < |ids| && ids[i] == id;
        assert u[i] == y;
      }
    }
  }

  lemma NormalizedIdsFixpoint(ids: seq<string>)
    requires NormalizedIds(ids).Some?
    ensures NormalizedIds(NormalizedIds(ids).value) == NormalizedIds(ids)
  {
    var sorted := NormalizedIds(ids).value;
    SortedElements(ids);
    forall y | y in sorted ensures IsUuid(y) && Lower(y) == y {
      var id :| id in ids && Lower(id) == y;
      UuidFixpoint(id);
    }
    assert Lower(ids[0]) in sorted by {
      assert ids[0] in ids;
    }
    assert Uuids(sorted).value == sorted;
    SortedIsCanonical(SortUnique(sorted), sorted);
  }
}
