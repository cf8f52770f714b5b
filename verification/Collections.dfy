/** Result types and the few list facts that several parts of the model share. */
module Collections {

  datatype Option<+T> = None | Some(value: T)

  datatype Result<+T, +E> = Ok(value: T) | Err(error: E)

  /** The elements of `s` that satisfy `p`, in order. */
  function Filter<T(!new)>(s: seq<T>, p: T -> bool): (r: seq<T>)
    ensures forall x :: x in r <==> x in s && p(x)
    ensures |r| <= |s|
  {
    if s == [] then [] else (if p(s[0]) then [s[0]] else []) + Filter(s[1..], p)
  }

  /** A filter that everything passes is the identity. */
  lemma {:induction false} FilterAll<T(!new)>(s: seq<T>, p: T -> bool)
    requires forall i :: 0 <= i < |s| ==> p(s[i])
    ensures Filter(s, p) == s
  {
    if s != [] {
      FilterAll(s[1..], p);
      assert s == [s[0]] + s[1..];
    }
  }

  /** Filters that agree on the elements give the same list. */
  lemma {:induction false} FilterSame<T(!new)>(s: seq<T>, p: T -> bool, q: T -> bool)
    requires forall i :: 0 <= i < |s| ==> p(s[i]) == q(s[i])
    ensures Filter(s, p) == Filter(s, q)
  {
    if s != [] {
      FilterSame(s[1..], p, q);
    }
  }

  /** A filter that drops nothing is the identity. */
  lemma {:induction false} FilterKeepsAll<T(!new)>(s: seq<T>, p: T -> bool)
    requires |Filter(s, p)| == |s|
    ensures Filter(s, p) == s
    ensures forall x :: x in s ==> p(x)
  {
    if s != [] {
      FilterKeepsAll(s[1..], p);
    }
  }

  /** A filter keeps the order. */
  lemma {:induction false} FilterOrder<T(!new)>(s: seq<T>, p: T -> bool, i: nat, j: nat) returns (k: nat, l: nat)
    requires i < j < |Filter(s, p)|
    ensures k < l < |s| && s[k] == Filter(s, p)[i] && s[l] == Filter(s, p)[j]
  {
    if !p(s[0]) {
      k, l := FilterOrder(s[1..], p, i, j);
      k, l := k + 1, l + 1;
    } else if i > 0 {
      k, l := FilterOrder(s[1..], p, i - 1, j - 1);
      k, l := k + 1, l + 1;
    } else {
      var x := Filter(s[1..], p)[j - 1];
      assert x in Filter(s[1..], p);
      k := 0;
      l :| 0 < l < |s| && s[l] == x;
    }
  }

  lemma {:induction false} FilterNone<T(!new)>(s: seq<T>, p: T -> bool)
    requires forall i :: 0 <= i < |s| ==> !p(s[i])
    ensures Filter(s, p) == []
  {
    if s != [] {
      FilterNone(s[1..], p);
    }
  }

  /** The only place of `s` that satisfies `p`. */
  ghost predicate OnlyPlace<T>(s: seq<T>, p: T -> bool, i: nat) {
    i < |s| && p(s[i]) && forall j :: 0 <= j < |s| && j != i ==> !p(s[j])
  }

  /** A filter keeps one element exactly when one place satisfies `p`. */
  lemma {:induction false} FilterOne<T(!new)>(s: seq<T>, p: T -> bool)
    ensures |Filter(s, p)| == 1 <==> exists i :: OnlyPlace(s, p, i)
  {
    if s != [] {
      FilterOne(s[1..], p);
      if |Filter(s, p)| == 1 {
        if p(s[0]) {
          forall j | 0 < j < |s| ensures !p(s[j]) {
            assert s[j] == s[1..][j - 1] && Filter(s[1..], p) == [];
          }
          assert OnlyPlace(s, p, 0);
        } else {
          var i: nat :| OnlyPlace(s[1..], p, i);
          assert forall j :: 0 < j < |s| ==> s[j] == s[1..][j - 1];
          assert OnlyPlace(s, p, i + 1);
        }
      }
      if i: nat :| OnlyPlace(s, p, i) {
        assert forall j :: 0 <= j < |s[1..]| ==> s[1..][j] == s[j + 1];
        if i == 0 {
          FilterNone(s[1..], p);
        } else {
          assert OnlyPlace(s[1..], p, i - 1);
        }
      }
    }
  }

  /** The number of elements of `s` that satisfy `p`. */
  function Count<T>(s: seq<T>, p: T -> bool): nat {
    if s == [] then 0 else (if p(s[0]) then 1 else 0) + Count(s[1..], p)
  }

  /** The sum of `f` over `s`. */
  function Sum<T>(s: seq<T>, f: T -> nat): nat {
    if s == [] then 0 else f(s[0]) + Sum(s[1..], f)
  }

  lemma {:induction false} SumConcat<T>(a: seq<T>, b: seq<T>, f: T -> nat)
    ensures Sum(a + b, f) == Sum(a, f) + Sum(b, f)
  {
    if a == [] {
      assert a + b == b;
    } else {
      assert (a + b)[1..] == a[1..] + b;
      SumConcat(a[1..], b, f);
    }
  }

  /** A sum depends on the elements and their number only, never on their order. */
  lemma {:induction false} SumPermutation<T>(a: seq<T>, b: seq<T>, f: T -> nat)
    requires multiset(a) == multiset(b)
    ensures Sum(a, f) == Sum(b, f)
    decreases |a|
  {
    if a == [] {
      assert |b| == |multiset(b)| == 0;
    } else {
      assert a[0] in multiset(b);
      var i :| 0 <= i < |b| && b[i] == a[0];
      WithoutHead(a, b, i);
      SumPermutation(a[1..], b[..i] + b[i + 1..], f);
      SumAround(b, i, f);
    }
  }

  lemma WithoutHead<T>(a: seq<T>, b: seq<T>, i: nat)
    requires a != [] && i < |b| && b[i] == a[0] && multiset(a) == multiset(b)
    ensures multiset(a[1..]) == multiset(b[..i] + b[i + 1..])
  {
    var rest := b[..i] + b[i + 1..];
    assert a == [a[0]] + a[1..];
    assert b == b[..i] + ([b[i]] + b[i + 1..]);
    assert multiset(b) == multiset(b[..i]) + (multiset{b[i]} + multiset(b[i + 1..]));
    assert multiset(rest) == multiset(b[..i]) + multiset(b[i + 1..]);
    assert multiset(rest) == multiset(b) - multiset{b[i]};
    assert multiset(a[1..]) == multiset(a) - multiset{a[0]};
  }

  lemma SumAround<T>(b: seq<T>, i: nat, f: T -> nat)
    requires i < |b|
    ensures Sum(b, f) == f(b[i]) + Sum(b[..i] + b[i + 1..], f)
  {
    var tail := [b[i]] + b[i + 1..];
    assert b == b[..i] + tail && tail[1..] == b[i + 1..];
    SumConcat(b[..i], tail, f);
    SumConcat(b[..i], b[i + 1..], f);
  }

  lemma {:induction false} CountSame<T>(s: seq<T>, p: T -> bool, q: T -> bool)
    requires forall x :: x in s ==> p(x) == q(x)
    ensures Count(s, p) == Count(s, q)
  {
    if s != [] {
      CountSame(s[1..], p, q);
    }
  }

  lemma CountPermutation<T>(a: seq<T>, b: seq<T>, p: T -> bool)
    requires multiset(a) == multiset(b)
    ensures Count(a, p) == Count(b, p)
  {
    CountIsSum(a, p);
    CountIsSum(b, p);
    SumPermutation(a, b, x => if p(x) then 1 else 0);
  }

  lemma {:induction false} CountIsSum<T>(s: seq<T>, p: T -> bool)
    ensures Count(s, p) == Sum(s, x => if p(x) then 1 else 0)
  {
    if s != [] {
      CountIsSum(s[1..], p);
    }
  }

  lemma {:induction false} CountOneMore<T>(s: seq<T>, x: T, p: T -> bool)
    ensures Count(s + [x], p) == Count(s, p) + (if p(x) then 1 else 0)
  {
    if s == [] {
      assert s + [x] == [x] && [x][1..] == [];
    } else {
      assert (s + [x])[1..] == s[1..] + [x];
      CountOneMore(s[1..], x, p);
    }
  }

  /** Pairwise distinct. */
  ghost predicate Distinct<T>(s: seq<T>) {
    forall i, j :: 0 <= i < j < |s| ==> s[i] != s[j]
  }

  lemma {:induction false} DistinctCardinality<T>(s: seq<T>)
    requires Distinct(s)
    ensures |set x | x in s| == |s|
  {
    if s != [] {
      DistinctCardinality(s[1..]);
      var tail := set x | x in s[1..];
      assert s[0] !in tail;
      assert (set x | x in s) == {s[0]} + tail;
    } else {
      assert (set x | x in s) == {};
    }
  }
}
