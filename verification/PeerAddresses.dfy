/**
 * Peer address lists: normalizing first-occurrence merges, and the slot budget that coordinator
 * presence shares between fresh, protected and fallback addresses.
 */
module PeerAddresses {
  import opened Collections

  const MAX_PEER_ADDRESSES := 8
  const COORDINATOR_FALLBACK_ADDRESSES := 2

  /** URL handling as the merge sees it: normal form ("" when unusable), dedupe key, link-local test. */
  datatype Urls = Urls(norm: string -> string, key: string -> string, linkLocal: string -> bool)

  function KeySet(u: Urls, s: seq<string>): set<string> { set a | a in s :: u.key(a) }

  /** The merge without a limit: every usable address whose key is new, in order of first appearance. */
  function Merge(u: Urls, s: seq<string>): (r: seq<string>) {
    if s == [] then []
    else
      var before := Merge(u, s[..|s| - 1]);
      var cleaned := u.norm(s[|s| - 1]);
      if cleaned == "" || u.key(cleaned) in KeySet(u, before) then before else before + [cleaned]
  }

  /** At most `max` elements; zero is no limit. */
  function Limit(s: seq<string>, max: nat): seq<string> {
    if max == 0 || |s| <= max then s else s[..max]
  }

  /** `mergeAddresses`: the length-limited prefix of the unbounded merge. */
  method MergeAddresses(u: Urls, existing: seq<string>, candidates: seq<string>, max: nat)
    returns (normalized: seq<string>)
    ensures normalized == Limit(Merge(u, existing + candidates), max)
  {
    hide Merge; hide KeySet; hide Limit;
    normalized := [];
    var seen: set<string> := {};
    var all := existing + candidates;
    assert all[..0] == [];
    NothingMerged(u);
    for i := 0 to |all|
      invariant normalized == Merge(u, all[..i])
      invariant seen == KeySet(u, normalized)
      invariant max > 0 ==> |normalized| < max
    {
      MergeStep(u, all[..i], all[i]);
      assert all[..i + 1] == all[..i] + [all[i]];
      var cleaned := u.norm(all[i]);
      if cleaned != "" && u.key(cleaned) !in seen {
        seen := seen + {u.key(cleaned)};
        normalized := normalized + [cleaned];
        if max > 0 && |normalized| >= max {
          FullMerge(u, all, i + 1, max);
          return;
        }
      }
    }
    assert all[..|all|] == all;
    NotLimited(normalized, max);
  }

  /** A merge that has reached the limit is what the limit leaves of the whole. */
  lemma FullMerge(u: Urls, all: seq<string>, n: nat, max: nat)
    requires n <= |all| && |Merge(u, all[..n])| == max && max > 0
    ensures Limit(Merge(u, all), max) == Merge(u, all[..n])
  {
    hide Merge;
    MergeExtends(u, all[..n], all[n..]);
    assert all[..n] + all[n..] == all;
  }

  lemma NotLimited(s: seq<string>, max: nat)
    requires max > 0 ==> |s| < max
    ensures Limit(s, max) == s
  {
  }

  lemma NothingMerged(u: Urls)
    ensures Merge(u, []) == [] && KeySet(u, []) == {}
  {
  }

  lemma MergeStep(u: Urls, s: seq<string>, a: string)
    ensures Merge(u, s + [a]) == if u.norm(a) == "" || u.key(u.norm(a)) in KeySet(u, Merge(u, s))
                                 then Merge(u, s) else Merge(u, s) + [u.norm(a)]
    ensures KeySet(u, Merge(u, s) + [u.norm(a)]) == KeySet(u, Merge(u, s)) + {u.key(u.norm(a))}
  {
    assert (s + [a])[..|s|] == s;
  }

  // ---- Laws of the merge ------------------------------------------------------------------------------

  /** Later addresses never disturb what is already there. */
  lemma {:induction false} MergeExtends(u: Urls, a: seq<string>, b: seq<string>)
    ensures Merge(u, a) <= Merge(u, a + b)
    decreases |b|
  {
    if b == [] {
      assert a + b == a;
    } else {
      var front := b[..|b| - 1];
      assert (a + b)[..|a + b| - 1] == a + front;
      MergeExtends(u, a, front);
    }
  }

  ghost predicate DistinctKeys(u: Urls, s: seq<string>) {
    forall i, j :: 0 <= i < j < |s| ==> u.key(s[i]) != u.key(s[j])
  }

  /** The normal form of every listed address is its own normal form. */
  ghost predicate Stable(u: Urls, s: seq<string>) {
    forall a {:trigger a in s} :: a in s ==> u.norm(a) == "" || u.norm(u.norm(a)) == u.norm(a)
  }

  ghost predicate Normal(u: Urls, s: seq<string>) {
    forall a {:trigger a in s} :: a in s ==> a != "" && u.norm(a) == a
  }

  /** Keys are distinct, every element is the usable normal form of a listed address. */
  lemma {:induction false} MergeSound(u: Urls, s: seq<string>)
    ensures DistinctKeys(u, Merge(u, s))
    ensures forall r :: r in Merge(u, s) ==> r != "" && exists a :: a in s && u.norm(a) == r
    ensures |Merge(u, s)| <= |s|
    ensures Stable(u, s) ==> Normal(u, Merge(u, s))
  {
    if s != [] {
      var front, last := s[..|s| - 1], s[|s| - 1];
      MergeSound(u, front);
      assert forall a :: a in front ==> a in s;
      assert last in s;
      var before := Merge(u, front);
      forall r | r in Merge(u, s) ensures r != "" && exists a :: a in s && u.norm(a) == r {
        if r in before {
          var a :| a in front && u.norm(a) == r;
          assert a in s;
        }
      }
    }
  }

  /** No usable address is lost: its key is in the merge. */
  lemma {:induction false} MergeComplete(u: Urls, s: seq<string>, a: string)
    requires a in s && u.norm(a) != ""
    ensures u.key(u.norm(a)) in KeySet(u, Merge(u, s))
  {
    var front, last := s[..|s| - 1], s[|s| - 1];
    var before, after := Merge(u, front), Merge(u, s);
    assert forall r :: r in before ==> r in after;
    if a == last {
      assert u.norm(a) in after || u.key(u.norm(a)) in KeySet(u, before);
    } else {
      MergeComplete(u, front, a);
    }
  }

  /** A list that is already merged merges to itself. */
  lemma {:induction false} MergeFixpoint(u: Urls, s: seq<string>)
    requires Normal(u, s) && DistinctKeys(u, s)
    ensures Merge(u, s) == s
  {
    hide Merge; hide Normal; hide DistinctKeys; hide KeySet;
    if s == [] {
      NothingMerged(u);
    } else {
      var front, last := s[..|s| - 1], s[|s| - 1];
      assert s == front + [last];
      NewLast(u, front, last);
      MergeFixpoint(u, front);
      MergeStep(u, front, last);
    }
  }

  /** The last element of such a list is its own normal form and its key is new. */
  lemma NewLast(u: Urls, front: seq<string>, last: string)
    requires Normal(u, front + [last]) && DistinctKeys(u, front + [last])
    ensures Normal(u, front) && DistinctKeys(u, front)
    ensures last != "" && u.norm(last) == last && u.key(last) !in KeySet(u, front)
  {
    var s := front + [last];
    assert (forall a :: a in front ==> a in s) && last in s;
    forall i, j | 0 <= i < j < |front| ensures u.key(front[i]) != u.key(front[j]) {
      assert s[i] == front[i] && s[j] == front[j];
    }
    forall a | a in front ensures u.key(a) != u.key(last) {
      var i :| 0 <= i < |front| && front[i] == a;
      assert s[i] == a && s[|front|] == last;
    }
  }

  /** Merging more onto a merged list of at most `max` keeps that list in front and the limit. */
  lemma MergeOnto(u: Urls, base: seq<string>, more: seq<string>, max: nat)
    requires Normal(u, base) && DistinctKeys(u, base) && |base| <= max && Stable(u, more) && max > 0
    ensures var r := Limit(Merge(u, base + more), max);
            base <= r && |r| <= max && Normal(u, r) && DistinctKeys(u, r)
  {
    MergeFixpoint(u, base);
    MergeExtends(u, base, more);
    MergeSound(u, base + more);
    assert Stable(u, base + more);
    var all := Merge(u, base + more);
    assert forall a :: a in Limit(all, max) ==> a in all;
  }

  // ---- Which addresses a merge keeps, and in which order --------------------------------------------------

  /** Address `a` is the normal form of the k-th listed one, and none before it has that key. */
  ghost predicate FirstListed(u: Urls, s: seq<string>, k: nat, a: string) {
    && k < |s| && u.norm(s[k]) == a && a != ""
    && forall j :: 0 <= j < k && u.norm(s[j]) != "" ==> u.key(u.norm(s[j])) != u.key(a)
  }

  ghost predicate ListedFirst(u: Urls, s: seq<string>, a: string) { exists k: nat :: FirstListed(u, s, k, a) }

  /** Listed first, one before the other. */
  ghost predicate Earlier(u: Urls, s: seq<string>, a: string, b: string) {
    exists k: nat, l: nat :: FirstListed(u, s, k, a) && FirstListed(u, s, l, b) && k < l
  }

  lemma {:induction false} MergedKeys(u: Urls, s: seq<string>, key: string)
    ensures key in KeySet(u, Merge(u, s)) <==>
            exists j :: 0 <= j < |s| && u.norm(s[j]) != "" && u.key(u.norm(s[j])) == key
  {
    if s != [] {
      var front, last := s[..|s| - 1], s[|s| - 1];
      MergedKeys(u, front, key);
      assert s == front + [last];
      MergeStep(u, front, last);
      assert forall j :: 0 <= j < |front| ==> s[j] == front[j];
      assert s[|front|] == last;
    }
  }

  lemma FirstListedGrows(u: Urls, s: seq<string>, last: string, k: nat, a: string)
    ensures FirstListed(u, s + [last], k, a) <==>
            || FirstListed(u, s, k, a)
            || (k == |s| && a == u.norm(last) && a != "" && u.key(a) !in KeySet(u, Merge(u, s)))
  {
    var all := s + [last];
    assert forall j :: 0 <= j < |s| ==> all[j] == s[j];
    if k == |s| {
      MergedKeys(u, s, u.key(a));
    }
  }

  /** A merge lists exactly the addresses that are listed first under their keys, and lists them in that order. */
  lemma {:induction false} MergeInOrder(u: Urls, s: seq<string>)
    ensures forall a :: a in Merge(u, s) <==> ListedFirst(u, s, a)
    ensures forall i, j :: 0 <= i < j < |Merge(u, s)| ==> Earlier(u, s, Merge(u, s)[i], Merge(u, s)[j])
  {
    hide Merge; hide KeySet; hide FirstListed;
    if s == [] {
      NothingMerged(u);
      NothingListed(u);
    } else {
      var front, last := s[..|s| - 1], s[|s| - 1];
      assert s == front + [last];
      MergeInOrder(u, front);
      MergeStep(u, front, last);
      forall k: nat, a
        ensures FirstListed(u, s, k, a) <==>
                || FirstListed(u, front, k, a)
                || (k == |front| && a == u.norm(last) && a != "" && u.key(a) !in KeySet(u, Merge(u, front)))
      {
        FirstListedGrows(u, front, last, k, a);
      }
      forall a ensures a in Merge(u, s) <==> ListedFirst(u, s, a) {
        if a in Merge(u, front) {
          var k: nat :| FirstListed(u, front, k, a);
          assert FirstListed(u, s, k, a);
        } else if a in Merge(u, s) {
          assert a == u.norm(last) && a != "" by {
            MergeSound(u, s);
          }
          assert FirstListed(u, s, |front|, a);
        }
      }
      forall i, j | 0 <= i < j < |Merge(u, s)| ensures Earlier(u, s, Merge(u, s)[i], Merge(u, s)[j]) {
        OrderGrows(u, front, last, i, j);
      }
    }
  }

  lemma NothingListed(u: Urls)
    ensures forall k: nat, a :: !FirstListed(u, [], k, a)
  {
  }

  lemma FirstListedInside(u: Urls, s: seq<string>)
    ensures forall k: nat, a :: FirstListed(u, s, k, a) ==> k < |s|
  {
  }

  lemma OrderGrows(u: Urls, front: seq<string>, last: string, i: nat, j: nat)
    requires i < j < |Merge(u, front + [last])|
    requires forall a :: a in Merge(u, front) <==> ListedFirst(u, front, a)
    requires forall i, j :: 0 <= i < j < |Merge(u, front)| ==> Earlier(u, front, Merge(u, front)[i], Merge(u, front)[j])
    ensures Earlier(u, front + [last], Merge(u, front + [last])[i], Merge(u, front + [last])[j])
  {
    hide Merge; hide KeySet; hide FirstListed;
    MergeStep(u, front, last);
    FirstListedInside(u, front);
    var before, after := Merge(u, front), Merge(u, front + [last]);
    assert before[i] in before && after[i] == before[i];
    if j < |before| {
      var k: nat, l: nat :| FirstListed(u, front, k, before[i]) && FirstListed(u, front, l, before[j]) && k < l;
      FirstListedGrows(u, front, last, k, before[i]);
      FirstListedGrows(u, front, last, l, before[j]);
    } else {
      var k: nat :| FirstListed(u, front, k, before[i]);
      FirstListedGrows(u, front, last, k, before[i]);
      FirstListedGrows(u, front, last, |front|, after[j]);
    }
  }

  /** A merge has as many addresses as there are keys among the usable ones. */
  lemma MergeCounts(u: Urls, s: seq<string>)
    ensures |Merge(u, s)| == |set a | a in s && u.norm(a) != "" :: u.key(u.norm(a))|
  {
    hide Merge;
    MergeSound(u, s);
    var keys := set a | a in s && u.norm(a) != "" :: u.key(u.norm(a));
    var merged := Merge(u, s);
    var listed := seq(|merged|, i requires 0 <= i < |merged| => u.key(merged[i]));
    DistinctCardinality(listed);
    forall key ensures key in keys <==> key in listed {
      MergedKeys(u, s, key);
      if key in KeySet(u, merged) {
        var a :| a in merged && u.key(a) == key;
        var i :| 0 <= i < |merged| && merged[i] == a;
        assert listed[i] == key;
      }
      if key in listed {
        var i :| 0 <= i < |listed| && listed[i] == key;
        assert merged[i] in merged;
      }
    }
    assert keys == set key | key in listed;
  }

  /** Merging a list before more is merged onto it changes nothing. */
  lemma {:induction false} MergeAbsorbs(u: Urls, a: seq<string>, b: seq<string>)
    requires Stable(u, a)
    ensures Merge(u, Merge(u, a) + b) == Merge(u, a + b)
    decreases |b|
  {
    hide Merge; hide Stable; hide Normal; hide DistinctKeys; hide KeySet;
    if b == [] {
      MergeSound(u, a);
      MergeFixpoint(u, Merge(u, a));
      assert Merge(u, a) + b == Merge(u, a) && a + b == a;
    } else {
      var front, last := b[..|b| - 1], b[|b| - 1];
      assert a + b == (a + front) + [last] && Merge(u, a) + b == (Merge(u, a) + front) + [last];
      MergeAbsorbs(u, a, front);
      MergeStep(u, a + front, last);
      MergeStep(u, Merge(u, a) + front, last);
    }
  }

  /** Nor does limiting it first. */
  lemma LimitAbsorbs(u: Urls, a: seq<string>, b: seq<string>, max: nat)
    requires Stable(u, a) && max > 0
    ensures Limit(Merge(u, Limit(Merge(u, a), max) + b), max) == Limit(Merge(u, a + b), max)
  {
    hide Merge; hide Stable; hide Normal; hide DistinctKeys;
    var merged := Merge(u, a);
    if |merged| <= max {
      MergeAbsorbs(u, a, b);
    } else {
      MergeSound(u, a);
      var base := merged[..max];
      PrefixIsMerged(u, merged, max);
      MergeFixpoint(u, base);
      MergeExtends(u, base, b);
      MergeExtends(u, a, b);
      assert Limit(Merge(u, base + b), max) == base;
    }
  }

  lemma PrefixIsMerged(u: Urls, merged: seq<string>, max: nat)
    requires Normal(u, merged) && DistinctKeys(u, merged) && max <= |merged|
    ensures Normal(u, merged[..max]) && DistinctKeys(u, merged[..max])
  {
    assert forall a :: a in merged[..max] ==> a in merged;
  }

  // ---- The coordinator budget -----------------------------------------------------------------------------

  /** The in-place stable sort: link-local addresses last, otherwise in the given order. */
  function Ranked(u: Urls, s: seq<string>): seq<string> {
    Filter(s, a => !u.linkLocal(a)) + Filter(s, a => u.linkLocal(a))
  }

  lemma {:induction false} FilterCount(s: seq<string>, p: string -> bool, x: string)
    ensures multiset(Filter(s, p))[x] == if p(x) then multiset(s)[x] else 0
  {
    if s != [] {
      var head, rest := if p(s[0]) then [s[0]] else [], Filter(s[1..], p);
      assert Filter(s, p) == head + rest;
      hide Filter;
      FilterCount(s[1..], p, x);
      assert s == [s[0]] + s[1..];
    }
  }

  /** Ranking only reorders. */
  lemma RankedIsPermutation(u: Urls, s: seq<string>)
    ensures multiset(Ranked(u, s)) == multiset(s)
    ensures |Ranked(u, s)| == |s|
  {
    forall x ensures multiset(Ranked(u, s))[x] == multiset(s)[x] {
      FilterCount(s, a => !u.linkLocal(a), x);
      FilterCount(s, a => u.linkLocal(a), x);
    }
    assert |multiset(Ranked(u, s))| == |Ranked(u, s)| && |multiset(s)| == |s|;
  }

  /** Two places of a permutation of a list with distinct keys hold different keys. */
  lemma PermutedKeysDiffer(u: Urls, s: seq<string>, r: seq<string>, i: nat, j: nat)
    requires DistinctKeys(u, s) && multiset(r) == multiset(s) && i < j < |r|
    ensures u.key(r[i]) != u.key(r[j])
  {
    if r[i] == r[j] {
      TwiceInMultiset(r, i, j);
      OnceInDistinct(u, s, r[i]);
    } else {
      assert r[i] in multiset(s) && r[j] in multiset(s);
      var k :| 0 <= k < |s| && s[k] == r[i];
      var l :| 0 <= l < |s| && s[l] == r[j];
    }
  }

  lemma RankedKeepsShape(u: Urls, s: seq<string>)
    requires DistinctKeys(u, s)
    ensures DistinctKeys(u, Ranked(u, s)) && (Normal(u, s) ==> Normal(u, Ranked(u, s)))
  {
    RankedIsPermutation(u, s);
    hide Ranked;
    var r := Ranked(u, s);
    forall a | a in r ensures a in s {
      assert a in multiset(r);
    }
    forall i, j | 0 <= i < j < |r| ensures u.key(r[i]) != u.key(r[j]) {
      PermutedKeysDiffer(u, s, r, i, j);
    }
  }

  lemma TwiceInMultiset(s: seq<string>, i: nat, j: nat)
    requires i < j < |s| && s[i] == s[j]
    ensures multiset(s)[s[i]] >= 2
  {
    assert s == s[..i] + [s[i]] + s[i + 1..j] + [s[j]] + s[j + 1..];
  }

  lemma {:induction false} OnceInDistinct(u: Urls, s: seq<string>, a: string)
    requires DistinctKeys(u, s)
    ensures multiset(s)[a] <= 1
  {
    if s != [] {
      assert s == [s[0]] + s[1..];
      OnceInDistinct(u, s[1..], a);
      forall i | 0 <= i < |s[1..]| ensures s[1..][i] != s[0] {
        assert s[1..][i] == s[i + 1];
      }
    }
  }

  function Min(a: nat, b: nat): nat { if a <= b then a else b }

  function Max(a: nat, b: nat): nat { if a >= b then a else b }

  /** How many slots fresh addresses may take, for `fresh` candidates and `kept` protected addresses. */
  function FreshLimit(recent: nat, kept: nat, required: Option<nat>): nat
    requires kept <= MAX_PEER_ADDRESSES
  {
    var fallback := if kept > 0 then MAX_PEER_ADDRESSES - kept else MAX_PEER_ADDRESSES - COORDINATOR_FALLBACK_ADDRESSES;
    var coordinator :=
      if required.None? then Min(recent, MAX_PEER_ADDRESSES - COORDINATOR_FALLBACK_ADDRESSES) else 0;
    var wanted := if required.Some? then required.value else if recent > 0 then 1 else 0;
    Max(fallback, Max(coordinator, Min(wanted, MAX_PEER_ADDRESSES)))
  }

  /** Successful first, then the manual addresses, or the outer four of a large archive. */
  function Protected(u: Urls, manual: seq<string>, successful: Option<string>): seq<string> {
    var pinned := Merge(u, manual);
    var fallbacks := if |pinned| <= MAX_PEER_ADDRESSES then pinned
                     else Merge(u, pinned[..2] + pinned[|pinned| - 2..]);
    Limit(Merge(u, First(successful) + fallbacks), MAX_PEER_ADDRESSES)
  }

  function First(successful: Option<string>): seq<string> {
    if successful.Some? && successful.value != "" then [successful.value] else []
  }

  function Fresh(u: Urls, candidates: seq<string>, required: Option<nat>): seq<string> {
    var recent := Merge(u, candidates);
    if required.None? then Ranked(u, recent) else recent
  }

  /** The fresh prefix is in front, the protected prefix is represented, nothing is repeated or too long. */
  ghost predicate Budgeted(u: Urls, r: seq<string>, recent: seq<string>, kept: seq<string>,
                           freshSlots: nat, keptSlots: nat) {
    && |r| <= MAX_PEER_ADDRESSES && DistinctKeys(u, r)
    && freshSlots <= |recent| && recent[..freshSlots] <= r
    && keptSlots <= |kept| && (forall i :: 0 <= i < keptSlots ==> u.key(kept[i]) in KeySet(u, r))
  }

  /** Slots stay free only when nothing usable is left: then every address is represented. */
  ghost predicate NoneWasted(u: Urls, r: seq<string>, listed: seq<string>) {
    |r| < MAX_PEER_ADDRESSES ==>
      forall a :: a in listed && u.norm(a) != "" ==> u.key(u.norm(a)) in KeySet(u, r)
  }

  /** Nothing is invented. */
  ghost predicate DrawnFrom(u: Urls, r: seq<string>, recent: seq<string>, kept: seq<string>, existing: seq<string>) {
    forall x :: x in r ==> x in recent || x in kept || exists a :: a in existing && u.norm(a) == x
  }

  lemma KeptAlone(u: Urls, recent: seq<string>, kept: seq<string>)
    requires DistinctKeys(u, kept) && |kept| <= MAX_PEER_ADDRESSES
    ensures Budgeted(u, kept, recent, kept, 0, |kept|)
    ensures DrawnFrom(u, kept, recent, kept, [])
  {
  }

  lemma StableConcat(u: Urls, a: seq<string>, b: seq<string>)
    requires Stable(u, a) && Stable(u, b)
    ensures Stable(u, a + b)
  {
  }

  lemma NormalIsStable(u: Urls, a: seq<string>)
    requires Normal(u, a)
    ensures Stable(u, a)
  {
  }

  lemma NormalSlice(u: Urls, a: seq<string>, i: nat, j: nat)
    requires Normal(u, a) && i <= j <= |a|
    ensures Normal(u, a[i..j])
  {
    assert forall x :: x in a[i..j] ==> x in a;
  }

  lemma DistinctPrefix(u: Urls, a: seq<string>, j: nat)
    requires DistinctKeys(u, a) && j <= |a|
    ensures DistinctKeys(u, a[..j])
  {
  }

  /** The outer two addresses at each end of a large archive, merged. */
  lemma OuterIsNormal(u: Urls, pinned: seq<string>)
    requires Normal(u, pinned) && |pinned| > MAX_PEER_ADDRESSES
    ensures Normal(u, Merge(u, pinned[..2] + pinned[|pinned| - 2..]))
  {
    hide Merge; hide Normal; hide Stable;
    var n := |pinned|;
    assert pinned[..2] == pinned[0..2] && pinned[n - 2..] == pinned[n - 2..n];
    NormalSlice(u, pinned, 0, 2);
    NormalSlice(u, pinned, n - 2, n);
    NormalIsStable(u, pinned[..2]);
    NormalIsStable(u, pinned[n - 2..]);
    StableConcat(u, pinned[..2], pinned[n - 2..]);
    MergeSound(u, pinned[..2] + pinned[n - 2..]);
  }

  lemma LimitedMerge(u: Urls, s: seq<string>)
    ensures var r := Limit(Merge(u, s), MAX_PEER_ADDRESSES);
            |r| <= MAX_PEER_ADDRESSES && DistinctKeys(u, r) && (Stable(u, s) ==> Normal(u, r))
  {
    hide Merge; hide Normal; hide Stable; hide DistinctKeys;
    MergeSound(u, s);
    var merged := Merge(u, s);
    if |merged| > MAX_PEER_ADDRESSES {
      DistinctPrefix(u, merged, MAX_PEER_ADDRESSES);
      if Normal(u, merged) {
        NormalSlice(u, merged, 0, MAX_PEER_ADDRESSES);
        assert merged[0..MAX_PEER_ADDRESSES] == merged[..MAX_PEER_ADDRESSES];
      }
    }
  }

  lemma ProtectedIsMerged(u: Urls, manual: seq<string>, successful: Option<string>)
    ensures var kept := Protected(u, manual, successful);
            && |kept| <= MAX_PEER_ADDRESSES && DistinctKeys(u, kept)
            && (Stable(u, manual) && Stable(u, First(successful)) ==> Normal(u, kept))
  {
    var pinned := Merge(u, manual);
    hide Merge; hide Normal; hide Stable; hide DistinctKeys; hide Limit; hide First;
    var fallbacks := if |pinned| <= MAX_PEER_ADDRESSES then pinned else Merge(u, pinned[..2] + pinned[|pinned| - 2..]);
    LimitedMerge(u, First(successful) + fallbacks);
    if Stable(u, manual) && Stable(u, First(successful)) {
      MergeSound(u, manual);
      if |pinned| > MAX_PEER_ADDRESSES {
        OuterIsNormal(u, pinned);
      }
      NormalIsStable(u, fallbacks);
      StableConcat(u, First(successful), fallbacks);
    }
  }

  /** The last three merges: fresh and protected slots, then what was there, then the other fresh ones. */
  function Filled(u: Urls, existing: seq<string>, recent: seq<string>, kept: seq<string>, limit: nat): seq<string>
    requires limit <= MAX_PEER_ADDRESSES
  {
    var first := recent[..Min(|recent|, limit)];
    var second := kept[..Min(|kept|, MAX_PEER_ADDRESSES - limit)];
    var withManual := Limit(Merge(u, first + second), MAX_PEER_ADDRESSES);
    var withFallbacks := Limit(Merge(u, withManual + existing), MAX_PEER_ADDRESSES);
    Limit(Merge(u, withFallbacks + recent), MAX_PEER_ADDRESSES)
  }

  lemma FilledKeeps(u: Urls, existing: seq<string>, recent: seq<string>, kept: seq<string>, limit: nat)
    requires 0 < limit <= MAX_PEER_ADDRESSES
    requires Normal(u, recent) && DistinctKeys(u, recent) && Normal(u, kept) && DistinctKeys(u, kept)
    requires Stable(u, existing) && |kept| <= MAX_PEER_ADDRESSES
    ensures var r := Filled(u, existing, recent, kept, limit);
            && Budgeted(u, r, recent, kept, Min(|recent|, limit), Min(|kept|, MAX_PEER_ADDRESSES - limit))
            && NoneWasted(u, r, existing) && NoneWasted(u, r, recent)
            && DrawnFrom(u, r, recent, kept, existing)
  {
    hide Merge; hide Limit; hide KeySet;
    var first := recent[..Min(|recent|, limit)];
    var second := kept[..Min(|kept|, MAX_PEER_ADDRESSES - limit)];
    assert (forall a :: a in first ==> a in recent) && (forall a :: a in second ==> a in kept);
    MergeOnto(u, first, second, MAX_PEER_ADDRESSES);
    AllFit(u, first + second);
    var withManual := Limit(Merge(u, first + second), MAX_PEER_ADDRESSES);
    MergeOnto(u, withManual, existing, MAX_PEER_ADDRESSES);
    var withFallbacks := Limit(Merge(u, withManual + existing), MAX_PEER_ADDRESSES);
    MergeOnto(u, withFallbacks, recent, MAX_PEER_ADDRESSES);
    var r := Limit(Merge(u, withFallbacks + recent), MAX_PEER_ADDRESSES);
    PrefixKeys(u, withManual, r);
    PrefixKeys(u, withFallbacks, r);
    forall i | 0 <= i < |second| ensures u.key(kept[i]) in KeySet(u, r) {
      assert second[i] in first + second && second[i] in kept;
      MergeComplete(u, first + second, second[i]);
    }
    FillsUp(u, withManual, existing);
    FillsUp(u, withFallbacks, recent);
    LimitSound(u, first + second);
    LimitSound(u, withManual + existing);
    LimitSound(u, withFallbacks + recent);
  }

  lemma AllFit(u: Urls, s: seq<string>)
    requires |s| <= MAX_PEER_ADDRESSES
    ensures Limit(Merge(u, s), MAX_PEER_ADDRESSES) == Merge(u, s)
  {
    hide Merge;
    MergeSound(u, s);
  }

  lemma PrefixKeys(u: Urls, a: seq<string>, b: seq<string>)
    requires a <= b
    ensures KeySet(u, a) <= KeySet(u, b)
  {
    assert forall x :: x in a ==> x in b;
  }

  lemma FillsUp(u: Urls, base: seq<string>, more: seq<string>)
    ensures NoneWasted(u, Limit(Merge(u, base + more), MAX_PEER_ADDRESSES), more)
  {
    hide Merge; hide KeySet;
    var r := Limit(Merge(u, base + more), MAX_PEER_ADDRESSES);
    if |r| < MAX_PEER_ADDRESSES {
      forall a | a in more && u.norm(a) != "" ensures u.key(u.norm(a)) in KeySet(u, r) {
        MergeComplete(u, base + more, a);
      }
    }
  }

  lemma LimitSound(u: Urls, s: seq<string>)
    ensures forall x :: x in Limit(Merge(u, s), MAX_PEER_ADDRESSES) ==> exists a :: a in s && u.norm(a) == x
  {
    hide Merge;
    MergeSound(u, s);
    assert forall x :: x in Limit(Merge(u, s), MAX_PEER_ADDRESSES) ==> x in Merge(u, s);
  }

  // ---- Order and slots in candidates and numbers --------------------------------------------------------------

  /** Of two fresh addresses this one is dialed sooner: ranked, an address that is not link-local; then, as listed. */
  ghost predicate Sooner(u: Urls, candidates: seq<string>, ranked: bool, a: string, b: string) {
    if ranked && u.linkLocal(a) != u.linkLocal(b) then u.linkLocal(b) else Earlier(u, candidates, a, b)
  }

  lemma FilteredEarlier(u: Urls, candidates: seq<string>, p: string -> bool, i: nat, j: nat)
    requires i < j < |Filter(Merge(u, candidates), p)|
    ensures Earlier(u, candidates, Filter(Merge(u, candidates), p)[i], Filter(Merge(u, candidates), p)[j])
  {
    hide Merge; hide Earlier;
    MergeInOrder(u, candidates);
    var k, l := FilterOrder(Merge(u, candidates), p, i, j);
  }

  lemma RankedInOrder(u: Urls, candidates: seq<string>, i: nat, j: nat)
    requires i < j < |Ranked(u, Merge(u, candidates))|
    ensures Sooner(u, candidates, true, Ranked(u, Merge(u, candidates))[i], Ranked(u, Merge(u, candidates))[j])
  {
    hide Merge; hide Earlier; hide Filter;
    var merged := Merge(u, candidates);
    var others, locals := Filter(merged, a => !u.linkLocal(a)), Filter(merged, a => u.linkLocal(a));
    if j < |others| {
      assert others[i] in others && others[j] in others;
      FilteredEarlier(u, candidates, a => !u.linkLocal(a), i, j);
    } else if i < |others| {
      assert others[i] in others && locals[j - |others|] in locals;
    } else {
      assert locals[i - |others|] in locals && locals[j - |others|] in locals;
      FilteredEarlier(u, candidates, a => u.linkLocal(a), i - |others|, j - |others|);
    }
  }

  /**
   * The fresh addresses are the first listed of the candidates, each key once, the sooner ones first: ranked without
   * a required count, else as listed.
   */
  lemma FreshInOrder(u: Urls, candidates: seq<string>, required: Option<nat>)
    ensures var recent := Fresh(u, candidates, required);
            && |recent| == (|set a | a in candidates && u.norm(a) != "" :: u.key(u.norm(a))|)
            && (forall a :: a in recent <==> ListedFirst(u, candidates, a))
            && forall i, j :: 0 <= i < j < |recent| ==> Sooner(u, candidates, required.None?, recent[i], recent[j])
  {
    hide Merge; hide FirstListed; hide Earlier; hide Ranked; hide Sooner;
    var merged, recent := Merge(u, candidates), Fresh(u, candidates, required);
    MergeCounts(u, candidates);
    MergeInOrder(u, candidates);
    RankedIsPermutation(u, merged);
    forall a ensures a in recent <==> a in merged {
      assert a in multiset(recent) <==> a in multiset(merged);
    }
    forall i, j | 0 <= i < j < |recent| ensures Sooner(u, candidates, required.None?, recent[i], recent[j]) {
      if required.None? {
        RankedInOrder(u, candidates, i, j);
      } else {
        ListedSooner(u, candidates, recent[i], recent[j]);
      }
    }
  }

  lemma ListedSooner(u: Urls, candidates: seq<string>, a: string, b: string)
    requires Earlier(u, candidates, a, b)
    ensures Sooner(u, candidates, false, a, b)
  {
    hide Earlier;
  }

  /** The first `n` addresses are fresh, the soonest of all, soonest first. */
  ghost predicate SoonestFirst(u: Urls, r: seq<string>, candidates: seq<string>, ranked: bool, n: nat) {
    && n <= |r|
    && (forall i :: 0 <= i < n ==> ListedFirst(u, candidates, r[i]))
    && (forall i, j :: 0 <= i < j < n ==> Sooner(u, candidates, ranked, r[i], r[j]))
    && forall i, b, k: nat :: 0 <= i < n && FirstListed(u, candidates, k, b) && b !in r[..n] ==>
         Sooner(u, candidates, ranked, r[i], b)
  }

  lemma PrefixIsSoonest(u: Urls, r: seq<string>, candidates: seq<string>, required: Option<nat>, n: nat)
    requires n <= |Fresh(u, candidates, required)| && Fresh(u, candidates, required)[..n] <= r
    ensures SoonestFirst(u, r, candidates, required.None?, n)
  {
    hide FirstListed; hide Sooner; hide Fresh;
    FreshInOrder(u, candidates, required);
    var recent := Fresh(u, candidates, required);
    forall i | 0 <= i < n ensures r[i] == recent[i] && ListedFirst(u, candidates, r[i]) {
      assert r[i] == recent[..n][i];
      assert recent[i] in recent;
    }
    forall i, j | 0 <= i < j < n ensures Sooner(u, candidates, required.None?, r[i], r[j]) {
      assert r[i] == recent[i] && r[j] == recent[j];
    }
    forall j | 0 <= j < n ensures recent[j] in r[..n] {
      assert r[..n][j] == recent[j];
    }
    forall i, b, k: nat | 0 <= i < n && FirstListed(u, candidates, k, b) && b !in r[..n]
      ensures Sooner(u, candidates, required.None?, r[i], b)
    {
      assert b in recent;
      var j :| 0 <= j < |recent| && recent[j] == b;
    }
  }

  /** Six fresh slots, seven beside a single protected address; or what the required count and the protected leave. */
  ghost function FreshSlots(news: nat, kept: nat, required: Option<nat>): nat
    requires kept <= 8
  {
    match required
    case None => Min(news, if kept == 1 then 7 else 6)
    case Some(n) => Min(news, Max(Min(n, 8), if kept == 0 then 6 else 8 - kept))
  }

  /** All slots but those of up to six fresh addresses, or of the required ones. */
  ghost function KeptSlots(news: nat, kept: nat, required: Option<nat>): nat
    requires kept <= 8
  {
    match required
    case None => Min(kept, if news < 6 then 8 - news else 2)
    case Some(n) => Min(kept, if n < 8 then 8 - n else 0)
  }

  lemma SlotNumbers(recent: nat, kept: nat, required: Option<nat>)
    requires kept <= MAX_PEER_ADDRESSES
    ensures var limit := FreshLimit(recent, kept, required);
            && limit <= MAX_PEER_ADDRESSES
            && FreshSlots(recent, kept, required) == Min(recent, limit)
            && KeptSlots(recent, kept, required) == Min(kept, MAX_PEER_ADDRESSES - limit)
  {
  }

  /** The list is one merge, up to eight: fresh slots, protected slots, what was there, the other fresh addresses. */
  ghost predicate OneMerge(u: Urls, r: seq<string>, recent: seq<string>, kept: seq<string>, existing: seq<string>,
                           freshSlots: nat, keptSlots: nat) {
    && freshSlots <= |recent| && keptSlots <= |kept|
    && r == Limit(Merge(u, recent[..freshSlots] + kept[..keptSlots] + existing + recent), 8)
  }

  lemma FilledIsOneMerge(u: Urls, existing: seq<string>, recent: seq<string>, kept: seq<string>, limit: nat)
    requires limit <= MAX_PEER_ADDRESSES && Stable(u, existing) && Stable(u, recent) && Stable(u, kept)
    ensures OneMerge(u, Filled(u, existing, recent, kept, limit), recent, kept, existing,
                     Min(|recent|, limit), Min(|kept|, MAX_PEER_ADDRESSES - limit))
  {
    hide Merge; hide Limit; hide Stable;
    var front := recent[..Min(|recent|, limit)] + kept[..Min(|kept|, MAX_PEER_ADDRESSES - limit)];
    StablePrefix(u, recent, Min(|recent|, limit));
    StablePrefix(u, kept, Min(|kept|, MAX_PEER_ADDRESSES - limit));
    StableConcat(u, recent[..Min(|recent|, limit)], kept[..Min(|kept|, MAX_PEER_ADDRESSES - limit)]);
    StableConcat(u, front, existing);
    LimitAbsorbs(u, front, existing, MAX_PEER_ADDRESSES);
    LimitAbsorbs(u, front + existing, recent, MAX_PEER_ADDRESSES);
  }

  lemma StablePrefix(u: Urls, s: seq<string>, n: nat)
    requires Stable(u, s) && n <= |s|
    ensures Stable(u, s[..n])
  {
    assert forall a :: a in s[..n] ==> a in s;
  }

  lemma ListIsArranged(u: Urls, r: seq<string>, existing: seq<string>, candidates: seq<string>,
                       recent: seq<string>, kept: seq<string>, required: Option<nat>)
    requires recent == Fresh(u, candidates, required) && |kept| <= MAX_PEER_ADDRESSES
    requires Stable(u, existing) && Normal(u, recent) && DistinctKeys(u, recent)
    requires Normal(u, kept) && DistinctKeys(u, kept)
    requires var limit := FreshLimit(|recent|, |kept|, required);
             limit <= MAX_PEER_ADDRESSES && r == if limit == 0 then kept else Filled(u, existing, recent, kept, limit)
    ensures var n, m := FreshSlots(|recent|, |kept|, required), KeptSlots(|recent|, |kept|, required);
            SoonestFirst(u, r, candidates, required.None?, n) && OneMerge(u, r, recent, kept, existing, n, m)
  {
    hide Normal; hide DistinctKeys; hide Stable; hide Filled; hide SoonestFirst; hide OneMerge; hide Fresh;
    hide FreshSlots; hide KeptSlots; hide Budgeted; hide NoneWasted; hide DrawnFrom;
    var limit := FreshLimit(|recent|, |kept|, required);
    SlotNumbers(|recent|, |kept|, required);
    NormalIsStable(u, recent);
    NormalIsStable(u, kept);
    if limit == 0 {
      KeptIsOneMerge(u, existing, recent, kept);
      assert recent[..0] <= r;
    } else {
      FilledIsOneMerge(u, existing, recent, kept, limit);
      FilledKeeps(u, existing, recent, kept, limit);
      BudgetedPrefix(u, r, recent, kept, Min(|recent|, limit), Min(|kept|, MAX_PEER_ADDRESSES - limit));
    }
    PrefixIsSoonest(u, r, candidates, required, Min(|recent|, limit));
  }

  lemma BudgetedPrefix(u: Urls, r: seq<string>, recent: seq<string>, kept: seq<string>, freshSlots: nat, keptSlots: nat)
    requires Budgeted(u, r, recent, kept, freshSlots, keptSlots)
    ensures freshSlots <= |recent| && recent[..freshSlots] <= r
  {
    hide DistinctKeys; hide KeySet;
  }

  /** A full protected list with no fresh slots is that merge, too. */
  lemma KeptIsOneMerge(u: Urls, existing: seq<string>, recent: seq<string>, kept: seq<string>)
    requires Normal(u, kept) && DistinctKeys(u, kept) && |kept| == MAX_PEER_ADDRESSES
    ensures OneMerge(u, kept, recent, kept, existing, 0, |kept|)
  {
    hide Merge; hide Normal; hide DistinctKeys;
    MergeFixpoint(u, kept);
    MergeExtends(u, kept, existing + recent);
    assert recent[..0] + kept[..|kept|] + existing + recent == kept + (existing + recent);
  }

  /**
   * The protected addresses: the last successful one, then all manual ones or, from more than eight, the first two
   * and the last two of them.
   */
  lemma ProtectedMeans(u: Urls, manual: seq<string>, successful: Option<string>)
    requires Stable(u, manual) && Stable(u, First(successful))
    ensures var all := Merge(u, manual);
            var last := if successful == None || successful == Some("") then [] else [successful.value];
            Protected(u, manual, successful) ==
            if |all| > 8 then Merge(u, last + [all[0], all[1], all[|all| - 2], all[|all| - 1]])
            else Limit(Merge(u, last + manual), 8)
  {
    hide Merge; hide Stable; hide Normal; hide DistinctKeys;
    MergeSound(u, manual);
    var all := Merge(u, manual);
    if |all| > 8 {
      var n := |all|;
      var outer := [all[0], all[1], all[n - 2], all[n - 1]];
      assert all[..2] + all[n - 2..] == outer;
      OuterIsMerged(u, all, outer);
      MergeFixpoint(u, outer);
      AllFit(u, First(successful) + outer);
    } else {
      MergeAbsorbsAfter(u, First(successful), manual);
    }
  }

  lemma OuterIsMerged(u: Urls, all: seq<string>, outer: seq<string>)
    requires |all| > 8 && outer == [all[0], all[1], all[|all| - 2], all[|all| - 1]]
    requires Normal(u, all) && DistinctKeys(u, all)
    ensures Normal(u, outer) && DistinctKeys(u, outer)
  {
    assert forall i :: 0 <= i < |all| ==> all[i] in all;
  }

  lemma {:induction false} MergeAbsorbsAfter(u: Urls, a: seq<string>, b: seq<string>)
    requires Stable(u, b)
    ensures Merge(u, a + Merge(u, b)) == Merge(u, a + b)
    decreases |b|
  {
    hide Merge; hide Stable; hide KeySet;
    if b == [] {
      NothingMerged(u);
    } else {
      var front, last := b[..|b| - 1], b[|b| - 1];
      assert b == front + [last] && a + b == (a + front) + [last];
      StablePrefix(u, b, |b| - 1);
      MergeAbsorbsAfter(u, a, front);
      MergeStep(u, front, last);
      MergeStep(u, a + front, last);
      var cleaned := u.norm(last);
      if cleaned != "" {
        StableLast(u, front, last);
        assert a + (Merge(u, front) + [cleaned]) == (a + Merge(u, front)) + [cleaned];
        MergeStep(u, a + Merge(u, front), cleaned);
        if u.key(cleaned) in KeySet(u, Merge(u, front)) {
          KeysAlreadyThere(u, a, front, u.key(cleaned));
        }
      }
    }
  }

  lemma StableLast(u: Urls, front: seq<string>, last: string)
    requires Stable(u, front + [last]) && u.norm(last) != ""
    ensures u.norm(u.norm(last)) == u.norm(last)
  {
    assert last in front + [last];
  }

  lemma KeysAlreadyThere(u: Urls, a: seq<string>, b: seq<string>, key: string)
    requires key in KeySet(u, Merge(u, b))
    ensures key in KeySet(u, Merge(u, a + b))
  {
    hide Merge; hide KeySet;
    MergedKeys(u, b, key);
    MergedKeys(u, a + b, key);
    var j :| 0 <= j < |b| && u.norm(b[j]) != "" && u.key(u.norm(b[j])) == key;
    assert (a + b)[|a| + j] == b[j];
  }

  // ---- The operation -----------------------------------------------------------------------------------------

  /** Every listed address has a normal form that is its own normal form. */
  ghost predicate AllStable(u: Urls, existing: seq<string>, candidates: seq<string>, manual: seq<string>,
                            successful: Option<string>) {
    Stable(u, existing) && Stable(u, candidates) && Stable(u, manual) && Stable(u, First(successful))
  }

  /** The slots that fresh addresses may take in this call. */
  function LimitFor(u: Urls, candidates: seq<string>, manual: seq<string>,
                    required: Option<nat>, successful: Option<string>): nat {
    ProtectedIsMerged(u, manual, successful);
    FreshLimit(|Fresh(u, candidates, required)|, |Protected(u, manual, successful)|, required)
  }

  /** Coordinator presence: the first min(n, 6) of n fresh ones in front, min(p, max(2, 8 - n)) of p protected ones. */
  ghost predicate PresenceShares(u: Urls, r: seq<string>, recent: seq<string>, kept: seq<string>) {
    && recent[..Min(|recent|, 6)] <= r
    && forall i :: 0 <= i < Min(|kept|, if |recent| >= 6 then 2 else 8 - |recent|) ==> u.key(kept[i]) in KeySet(u, r)
  }

  /** A usable last-successful address is represented. */
  ghost predicate Survives(u: Urls, r: seq<string>, successful: Option<string>) {
    successful.Some? && successful.value != "" && u.norm(successful.value) != "" ==>
      u.key(u.norm(successful.value)) in KeySet(u, r)
  }

  /**
   * `mergeCoordinatorPeerAddresses`: never more than 8 addresses nor a repeated key, for any addresses; and
   * for addresses whose normal forms are stable, the slot budget, nothing wasted and nothing invented, and
   * without a required count what coordinator presence promises.
   */
  method MergeCoordinatorPeerAddresses(
    u: Urls, existing: seq<string>, candidates: seq<string>, manual: seq<string>,
    required: Option<nat>, successful: Option<string>)
    returns (r: seq<string>)
    ensures |r| <= MAX_PEER_ADDRESSES && DistinctKeys(u, r)
    ensures AllStable(u, existing, candidates, manual, successful) ==>
              var recent, kept := Fresh(u, candidates, required), Protected(u, manual, successful);
              var limit := LimitFor(u, candidates, manual, required, successful);
              && |kept| <= MAX_PEER_ADDRESSES && limit <= MAX_PEER_ADDRESSES
              && Budgeted(u, r, recent, kept, Min(|recent|, limit), Min(|kept|, MAX_PEER_ADDRESSES - limit))
              && NoneWasted(u, r, existing) && NoneWasted(u, r, recent) && DrawnFrom(u, r, recent, kept, existing)
    ensures AllStable(u, existing, candidates, manual, successful) ==>
              var recent, kept := Fresh(u, candidates, required), Protected(u, manual, successful);
              && |kept| <= 8
              && var n, m := FreshSlots(|recent|, |kept|, required), KeptSlots(|recent|, |kept|, required);
                 && SoonestFirst(u, r, candidates, required.None?, n) && OneMerge(u, r, recent, kept, existing, n, m)
    ensures AllStable(u, existing, candidates, manual, successful) && required.None? ==>
              && PresenceShares(u, r, Fresh(u, candidates, required), Protected(u, manual, successful))
              && Survives(u, r, successful)
  {
    hide Merge; hide Ranked; hide KeySet; hide Normal; hide DistinctKeys; hide Stable; hide Limit;
    hide Budgeted; hide NoneWasted; hide DrawnFrom; hide PresenceShares; hide Survives; hide Filled;
    hide SoonestFirst; hide OneMerge; hide FreshSlots; hide KeptSlots; hide Sooner;
    var pinned := MergeAddresses(u, manual, [], 0);
    assert manual + [] == manual;
    NoLimit(Merge(u, manual));
    var fallbacks := pinned;
    if |pinned| > MAX_PEER_ADDRESSES {
      fallbacks := MergeAddresses(u, pinned[..2], pinned[|pinned| - 2..], 0);
      NoLimit(Merge(u, pinned[..2] + pinned[|pinned| - 2..]));
    }
    var kept := MergeAddresses(u, First(successful), fallbacks, MAX_PEER_ADDRESSES);
    assert kept == Protected(u, manual, successful);
    ProtectedIsMerged(u, manual, successful);
    var recent := MergeAddresses(u, candidates, [], 0);
    assert candidates + [] == candidates;
    NoLimit(Merge(u, candidates));
    if required.None? {
      recent := Ranked(u, recent);
    }
    assert recent == Fresh(u, candidates, required);
    FreshIsMerged(u, candidates, required);
    var limit := FreshLimit(|recent|, |kept|, required);
    if limit == 0 {
      r := kept;
      KeptAlone(u, recent, kept);
      KeptIsFull(u, kept, existing, recent, required);
    } else {
      r := Fill(u, existing, recent, kept, limit);
      if AllStable(u, existing, candidates, manual, successful) {
        FilledKeeps(u, existing, recent, kept, limit);
      }
    }
    if AllStable(u, existing, candidates, manual, successful) {
      ListIsArranged(u, r, existing, candidates, recent, kept, required);
    }
    if AllStable(u, existing, candidates, manual, successful) && required.None? {
      PresencePromise(u, r, recent, kept);
      SuccessfulSurvives(u, r, recent, manual, successful);
    }
  }

  lemma NoLimit(s: seq<string>)
    ensures Limit(s, 0) == s
  {
  }

  lemma FreshIsMerged(u: Urls, candidates: seq<string>, required: Option<nat>)
    ensures var recent := Fresh(u, candidates, required);
            DistinctKeys(u, recent) && (Stable(u, candidates) ==> Normal(u, recent))
  {
    hide Merge; hide Ranked; hide Normal; hide DistinctKeys; hide Stable;
    MergeSound(u, candidates);
    RankedKeepsShape(u, Merge(u, candidates));
  }

  /** Without a slot for fresh addresses the protected ones fill the list. */
  lemma KeptIsFull(u: Urls, kept: seq<string>, existing: seq<string>, recent: seq<string>, required: Option<nat>)
    requires |kept| <= MAX_PEER_ADDRESSES && FreshLimit(|recent|, |kept|, required) == 0
    ensures |kept| == MAX_PEER_ADDRESSES && NoneWasted(u, kept, existing) && NoneWasted(u, kept, recent)
    ensures DrawnFrom(u, kept, recent, kept, existing)
  {
  }

  method Fill(u: Urls, existing: seq<string>, recent: seq<string>, kept: seq<string>, limit: nat)
    returns (r: seq<string>)
    requires 0 < limit <= MAX_PEER_ADDRESSES
    ensures r == Filled(u, existing, recent, kept, limit)
    ensures |r| <= MAX_PEER_ADDRESSES && DistinctKeys(u, r)
  {
    hide Merge; hide Limit; hide DistinctKeys; hide Stable; hide Normal;
    var front := recent[..Min(|recent|, limit)];
    var withManual := MergeAddresses(u, front, kept[..Min(|kept|, MAX_PEER_ADDRESSES - limit)], MAX_PEER_ADDRESSES);
    var withFallbacks := MergeAddresses(u, withManual, existing, MAX_PEER_ADDRESSES);
    r := MergeAddresses(u, withFallbacks, recent, MAX_PEER_ADDRESSES);
    LimitedMerge(u, withFallbacks + recent);
  }

  /** The budget of coordinator presence, in the numbers of the design. */
  lemma PresenceBudget(recent: nat, kept: nat)
    requires kept <= MAX_PEER_ADDRESSES
    ensures var limit := FreshLimit(recent, kept, None);
            && Min(recent, limit) >= Min(recent, 6)
            && Min(kept, MAX_PEER_ADDRESSES - limit) == Min(kept, if recent >= 6 then 2 else 8 - recent)
  {
  }

  lemma PresencePromise(u: Urls, r: seq<string>, recent: seq<string>, kept: seq<string>)
    requires |kept| <= MAX_PEER_ADDRESSES
    requires var limit := FreshLimit(|recent|, |kept|, None);
             && limit <= MAX_PEER_ADDRESSES
             && Budgeted(u, r, recent, kept, Min(|recent|, limit), Min(|kept|, MAX_PEER_ADDRESSES - limit))
    ensures PresenceShares(u, r, recent, kept)
  {
    hide KeySet; hide DistinctKeys;
    PresenceBudget(|recent|, |kept|);
    var front := recent[..Min(|recent|, FreshLimit(|recent|, |kept|, None))];
    assert recent[..Min(|recent|, 6)] <= front <= r;
  }

  /** The first protected slot is the last-successful address's own, and one such slot is always left. */
  lemma SuccessfulSurvives(u: Urls, r: seq<string>, recent: seq<string>, manual: seq<string>,
                           successful: Option<string>)
    requires PresenceShares(u, r, recent, Protected(u, manual, successful))
    ensures Survives(u, r, successful)
  {
    if successful.Some? && successful.value != "" && u.norm(successful.value) != "" {
      var kept := Protected(u, manual, successful);
      SuccessfulIsFirst(u, manual, successful.value);
      hide Protected; hide KeySet;
      assert u.key(kept[0]) in KeySet(u, r);
    }
  }

  lemma SuccessfulIsFirst(u: Urls, manual: seq<string>, address: string)
    requires address != "" && u.norm(address) != ""
    ensures Protected(u, manual, Some(address)) != [] && Protected(u, manual, Some(address))[0] == u.norm(address)
  {
    var pinned := Merge(u, manual);
    var fallbacks := if |pinned| <= MAX_PEER_ADDRESSES then pinned
                     else Merge(u, pinned[..2] + pinned[|pinned| - 2..]);
    assert [address][..0] == [];
    assert Merge(u, [address]) == [u.norm(address)];
    MergeExtends(u, [address], fallbacks);
  }
}
