/** Strings as the source compares, pads, joins and lower-cases them. */
module Text {

  /** The order of JavaScript's `<` on strings, and of SQLite's BINARY collation, on ASCII text. */
  predicate Less(a: string, b: string) {
    if b == "" then false
    else if a == "" then true
    else if a[0] != b[0] then a[0] < b[0]
    else Less(a[1..], b[1..])
  }

  lemma {:induction false} LessIrreflexive(a: string)
    ensures !Less(a, a)
  {
    if a != "" {
      LessIrreflexive(a[1..]);
    }
  }

  lemma {:induction false} LessTotal(a: string, b: string)
    ensures a == b || Less(a, b) || Less(b, a)
  {
    if a != "" && b != "" && a[0] == b[0] {
      LessTotal(a[1..], b[1..]);
      assert a == [a[0]] + a[1..] && b == [b[0]] + b[1..];
    }
  }

  lemma {:induction false} LessTransitive(a: string, b: string, c: string)
    requires Less(a, b) && Less(b, c)
    ensures Less(a, c)
  {
    if a != "" && a[0] == b[0] == c[0] {
      LessTransitive(a[1..], b[1..], c[1..]);
    }
  }

  /** Texts of equal length in front decide first; only when they agree do the rests decide. */
  lemma {:induction false} LessConcat(a: string, b: string, c: string, d: string)
    requires |a| == |b|
    ensures Less(a + c, b + d) <==> Less(a, b) || (a == b && Less(c, d))
  {
    if a == "" {
      assert a + c == c && b + d == d;
    } else {
      assert (a + c)[1..] == a[1..] + c && (b + d)[1..] == b[1..] + d;
      LessConcat(a[1..], b[1..], c, d);
      assert a == [a[0]] + a[1..] && b == [b[0]] + b[1..];
    }
  }

  predicate IsDigit(c: char) { '0' <= c <= '9' }

  predicate AllDigits(s: string) { forall i :: 0 <= i < |s| ==> IsDigit(s[i]) }

  function DigitChar(n: nat): (c: char)
    requires n < 10
    ensures IsDigit(c) && DigitValue(c) == n
  {
    (n + 48) as char
  }

  function DigitValue(c: char): (n: nat)
    requires IsDigit(c)
    ensures n < 10
  {
    c as int - 48
  }

  /** How many digits `s` starts with. */
  function DigitRun(s: string): (n: nat)
    ensures n <= |s| && AllDigits(s[..n])
  {
    if s == "" || !IsDigit(s[0]) then 0
    else
      var n := 1 + DigitRun(s[1..]);
      assert s[..n] == [s[0]] + s[1..][..n - 1];
      n
  }

  lemma {:induction false} DigitRunStops(digits: string, rest: string)
    requires AllDigits(digits) && (rest == "" || !IsDigit(rest[0]))
    ensures DigitRun(digits + rest) == |digits|
  {
    if digits == "" {
      assert digits + rest == rest;
    } else {
      assert (digits + rest)[1..] == digits[1..] + rest;
      DigitRunStops(digits[1..], rest);
    }
  }

  /** The number a run of digits denotes; zero for the empty run. */
  function Number(s: string): nat
    requires AllDigits(s)
  {
    if s == "" then 0 else Number(s[..|s| - 1]) * 10 + DigitValue(s[|s| - 1])
  }

  function Pow10(w: nat): (p: nat)
    ensures p >= 1
  {
    if w == 0 then 1 else 10 * Pow10(w - 1)
  }

  /** `n` written with exactly `w` digits. */
  function Pad(w: nat, n: nat): (s: string)
    ensures |s| == w && AllDigits(s)
  {
    if w == 0 then "" else Pad(w - 1, n / 10) + [DigitChar(n % 10)]
  }

  lemma {:induction false} NumberPad(w: nat, n: nat)
    requires n < Pow10(w)
    ensures Number(Pad(w, n)) == n
  {
    if w > 0 {
      NumberPad(w - 1, n / 10);
      assert Pad(w, n)[..w - 1] == Pad(w - 1, n / 10);
    }
  }

  /** Fixed-width digits sort as the numbers do. */
  lemma {:induction false} PadOrder(w: nat, m: nat, n: nat)
    requires m < Pow10(w) && n < Pow10(w)
    ensures Less(Pad(w, m), Pad(w, n)) <==> m < n
    ensures Pad(w, m) == Pad(w, n) <==> m == n
  {
    if w > 0 {
      PadOrder(w - 1, m / 10, n / 10);
      LessConcat(Pad(w - 1, m / 10), Pad(w - 1, n / 10), [DigitChar(m % 10)], [DigitChar(n % 10)]);
      NumberPad(w, m);
      NumberPad(w, n);
    }
  }

  /** `n` in decimal without leading zeros. */
  function Decimal(n: nat): (s: string)
    ensures |s| >= 1 && AllDigits(s)
    ensures s[0] == '0' ==> n == 0 && s == "0"
    ensures Number(s) == n
  {
    if n < 10 then
      [DigitChar(n)]
    else
      var front := Decimal(n / 10);
      assert (front + [DigitChar(n % 10)])[..|front|] == front;
      front + [DigitChar(n % 10)]
  }

  /** Digits without a leading zero are the decimal of their number. */
  lemma {:induction false} DecimalOfNumber(t: string)
    requires AllDigits(t) && t != "" && (t[0] == '0' ==> |t| == 1)
    ensures Decimal(Number(t)) == t
    ensures t[0] != '0' ==> Number(t) > 0
  {
    var last := t[|t| - 1];
    if |t| == 1 {
      assert Number(t[..0]) == 0;
      assert t == [DigitChar(DigitValue(last))];
    } else {
      var front := t[..|t| - 1];
      DecimalOfNumber(front);
      assert Number(t) / 10 == Number(front) && Number(t) % 10 == DigitValue(last);
      assert t == front + [last];
    }
  }

  lemma {:induction false} DecimalLength(n: nat, w: nat)
    requires w >= 1 && n < Pow10(w)
    ensures |Decimal(n)| <= w
  {
    if n >= 10 {
      assert w >= 2 by {
        assert Pow10(1) == 10 * Pow10(0) == 10;
      }
      DecimalLength(n / 10, w - 1);
    }
  }

  function LowerChar(c: char): char {
    if 'A' <= c <= 'Z' then (c as int + 32) as char else c
  }

  function Lower(s: string): (r: string)
    ensures |r| == |s|
    ensures forall i :: 0 <= i < |s| ==> r[i] == LowerChar(s[i])
  {
    if s == "" then "" else [LowerChar(s[0])] + Lower(s[1..])
  }

  /** `parts.join(separator)`. */
  function Join(parts: seq<string>, separator: char): string {
    if parts == [] then ""
    else if |parts| == 1 then parts[0]
    else parts[0] + [separator] + Join(parts[1..], separator)
  }

  /** Text before the first separator decides the split there. */
  lemma {:induction false} SplitFirst(a: string, b: string, c: string, d: string, separator: char)
    requires separator !in a && separator !in b
    requires a + [separator] + c == b + [separator] + d
    ensures a == b && c == d
  {
    var x := a + [separator] + c;
    var y := b + [separator] + d;
    assert x[|a|] == separator && y[|b|] == separator;
    assert forall i :: 0 <= i < |a| ==> x[i] == a[i];
    assert forall i :: 0 <= i < |b| ==> y[i] == b[i];
    assert |a| == |b|;
    assert a == (a + [separator] + c)[..|a|] == (b + [separator] + d)[..|b|] == b;
    assert c == (a + [separator] + c)[|a| + 1..] == (b + [separator] + d)[|b| + 1..] == d;
  }

  lemma {:induction false} JoinHasSeparator(p: seq<string>, separator: char)
    requires p != []
    requires forall i :: 0 <= i < |p| ==> separator !in p[i]
    ensures separator in Join(p, separator) <==> |p| > 1
  {
    if |p| > 1 {
      assert Join(p, separator)[|p[0]|] == separator;
    }
  }

  /** Joining is one-to-one on non-empty lists of parts that do not contain the separator. */
  lemma {:induction false} JoinInjective(p: seq<string>, q: seq<string>, separator: char)
    requires p != [] && q != []
    requires forall i :: 0 <= i < |p| ==> separator !in p[i]
    requires forall i :: 0 <= i < |q| ==> separator !in q[i]
    requires Join(p, separator) == Join(q, separator)
    ensures p == q
  {
    JoinHasSeparator(p, separator);
    JoinHasSeparator(q, separator);
    if |p| > 1 {
      SplitFirst(p[0], q[0], Join(p[1..], separator), Join(q[1..], separator), separator);
      JoinInjective(p[1..], q[1..], separator);
      assert p == [p[0]] + p[1..] && q == [q[0]] + q[1..];
    }
  }

  /** `text.split(separator)`. */
  function Split(text: string, separator: char): (parts: seq<string>)
    ensures parts != [] && forall i :: 0 <= i < |parts| ==> separator !in parts[i]
  {
    if text == "" then [""]
    else
      var rest := Split(text[1..], separator);
      if text[0] == separator then [""] + rest else [[text[0]] + rest[0]] + rest[1..]
  }

  /** Joining undoes splitting. */
  lemma {:induction false} JoinSplit(text: string, separator: char)
    ensures Join(Split(text, separator), separator) == text
  {
    if text != "" {
      JoinSplit(text[1..], separator);
      var rest, parts := Split(text[1..], separator), Split(text, separator);
      if text[0] == separator {
        assert parts[1..] == rest;
      } else {
        assert parts[1..] == rest[1..];
      }
      assert text == [text[0]] + text[1..];
    }
  }

  /** Splitting undoes joining. */
  lemma SplitJoin(parts: seq<string>, separator: char)
    requires parts != [] && forall i :: 0 <= i < |parts| ==> separator !in parts[i]
    ensures Split(Join(parts, separator), separator) == parts
  {
    JoinSplit(Join(parts, separator), separator);
    JoinInjective(Split(Join(parts, separator), separator), parts, separator);
  }

  lemma {:induction false} JoinConcat(a: seq<string>, b: seq<string>, separator: char)
    requires a != [] && b != []
    ensures Join(a + b, separator) == Join(a, separator) + [separator] + Join(b, separator)
  {
    assert (a + b)[1..] == a[1..] + b;
    if |a| > 1 {
      JoinConcat(a[1..], b, separator);
    } else {
      assert a[1..] + b == b;
    }
  }
}
