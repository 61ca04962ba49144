/** The derived view `pubkeysOrderByLastStatusUpdateTimeAtom`: the pubkeys of
    the statuses map, most recently updated first, ties broken by pubkey. */
module Ordering {
  import opened Strings
  import opened Models

  /** The comparator: `a` sorts before `b` when it was updated more
      recently, or at the same time with a smaller pubkey. `localeCompare` is
      modelled as lexicographic order, which it agrees with on lower-case hex
      pubkeys. */
  predicate Before(a: UserStatus, b: UserStatus) {
    LastUpdateTime(a) > LastUpdateTime(b)
    || (LastUpdateTime(a) == LastUpdateTime(b) && LexLess(a.pubkey, b.pubkey))
  }

  lemma BeforeIrreflexive(a: UserStatus)
    ensures !Before(a, a)
  {
    LexLessIrreflexive(a.pubkey);
  }

  lemma BeforeTransitive(a: UserStatus, b: UserStatus, c: UserStatus)
    requires Before(a, b) && Before(b, c)
    ensures Before(a, c)
  {
    if LexLess(a.pubkey, b.pubkey) && LexLess(b.pubkey, c.pubkey) {
      LexLessTransitive(a.pubkey, b.pubkey, c.pubkey);
    }
  }

  /** On distinct pubkeys the comparator never returns 0: it is a strict
      total order, so the sort result does not depend on the input order. */
  lemma BeforeTotal(a: UserStatus, b: UserStatus)
    requires a.pubkey != b.pubkey
    ensures Before(a, b) || Before(b, a)
  {
    LexLessTotal(a.pubkey, b.pubkey);
  }

  lemma BeforeAsymmetric(a: UserStatus, b: UserStatus)
    requires Before(a, b)
    ensures !Before(b, a)
  {
    if LexLess(a.pubkey, b.pubkey) {
      LexLessAsymmetric(a.pubkey, b.pubkey);
    }
  }

  /** No two statuses share a pubkey, as holds for the values of a map filed
      by pubkey. */
  predicate DistinctPubkeys(s: seq<UserStatus>) {
    forall i, j :: 0 <= i < j < |s| ==> s[i].pubkey != s[j].pubkey
  }

  predicate Sorted(s: seq<UserStatus>) {
    forall i, j :: 0 <= i < j < |s| ==> Before(s[i], s[j])
  }

  /** `a` sorts before every element of `s`. */
  predicate AllAfter(a: UserStatus, s: seq<UserStatus>) {
    forall j :: 0 <= j < |s| ==> Before(a, s[j])
  }

  lemma SortedTail(s: seq<UserStatus>)
    requires |s| > 0 && Sorted(s)
    ensures Sorted(s[1..]) && AllAfter(s[0], s[1..])
  {
    assert forall i :: 0 <= i < |s| - 1 ==> s[1..][i] == s[i + 1];
  }

  /** Putting an element that sorts before all of a sorted sequence in
      front of it keeps it sorted. */
  lemma SortedCons(a: UserStatus, s: seq<UserStatus>)
    requires Sorted(s) && AllAfter(a, s)
    ensures Sorted([a] + s)
  {
    assert forall i :: 0 < i <= |s| ==> ([a] + s)[i] == s[i - 1];
  }

  /** An element that sorts before the head of a sorted sequence sorts
      before all of it. */
  lemma AllAfterHead(x: UserStatus, s: seq<UserStatus>)
    requires |s| > 0 && Sorted(s) && Before(x, s[0])
    ensures AllAfter(x, s)
  {
    forall j | 0 < j < |s|
      ensures Before(x, s[j])
    {
      BeforeTransitive(x, s[0], s[j]);
    }
  }

  /** `AllAfter` depends only on the elements. */
  lemma AllAfterSameElements(a: UserStatus, s: seq<UserStatus>, x: UserStatus, r: seq<UserStatus>)
    requires AllAfter(a, s) && Before(a, x)
    requires multiset(r) == multiset(s) + multiset{x}
    ensures AllAfter(a, r)
  {
    forall j | 0 <= j < |r|
      ensures Before(a, r[j])
    {
      assert r[j] in multiset(r);
      if r[j] != x {
        assert r[j] in multiset(s);
        var k :| 0 <= k < |s| && s[k] == r[j];
      }
    }
  }

  /** Inserting `x` into a sorted sequence. */
  function Insert(x: UserStatus, s: seq<UserStatus>): (r: seq<UserStatus>)
    requires Sorted(s)
    requires forall j :: 0 <= j < |s| ==> s[j].pubkey != x.pubkey
    ensures multiset(r) == multiset(s) + multiset{x}
    ensures Sorted(r)
  {
    if |s| == 0 then [x]
    else if Before(x, s[0]) then
      AllAfterHead(x, s);
      SortedCons(x, s);
      [x] + s
    else
      BeforeTotal(x, s[0]);
      SortedTail(s);
      var rest := Insert(x, s[1..]);
      assert s == [s[0]] + s[1..];
      AllAfterSameElements(s[0], s[1..], x, rest);
      SortedCons(s[0], rest);
      [s[0]] + rest
  }

  lemma DistinctTail(s: seq<UserStatus>)
    requires |s| > 0 && DistinctPubkeys(s)
    ensures DistinctPubkeys(s[1..])
    ensures forall j :: 0 <= j < |s[1..]| ==> s[1..][j].pubkey != s[0].pubkey
  {
  }

  /** `toSorted` with the comparator, as an insertion sort. */
  function Sort(s: seq<UserStatus>): (r: seq<UserStatus>)
    requires DistinctPubkeys(s)
    ensures multiset(r) == multiset(s)
    ensures Sorted(r)
  {
    if |s| == 0 then []
    else
      DistinctTail(s);
      var rest := Sort(s[1..]);
      assert s == [s[0]] + s[1..];
      PubkeyAbsentFromPermutation(s[0].pubkey, s[1..], rest);
      Insert(s[0], rest)
  }

  /** A pubkey that no element of `t` has, no rearrangement of `t` has. */
  lemma PubkeyAbsentFromPermutation(p: string, t: seq<UserStatus>, r: seq<UserStatus>)
    requires forall k :: 0 <= k < |t| ==> t[k].pubkey != p
    requires multiset(r) == multiset(t)
    ensures forall j :: 0 <= j < |r| ==> r[j].pubkey != p
  {
    forall j | 0 <= j < |r|
      ensures r[j].pubkey != p
    {
      assert r[j] in multiset(t);
      var k :| 0 <= k < |t| && t[k] == r[j];
    }
  }

  function Pubkeys(s: seq<UserStatus>): (r: seq<string>)
    ensures |r| == |s| && forall i :: 0 <= i < |s| ==> r[i] == s[i].pubkey
  {
    if |s| == 0 then [] else [s[0].pubkey] + Pubkeys(s[1..])
  }

  /** `r` lists the pubkeys of some arrangement of `values` that the
      comparator orders. */
  ghost predicate IsOrderedView(values: seq<UserStatus>, r: seq<string>) {
    exists s :: Sorted(s) && multiset(s) == multiset(values) && Pubkeys(s) == r
  }

  /** The view: the pubkeys of the statuses, in comparator order. */
  function OrderByLastUpdate(values: seq<UserStatus>): (r: seq<string>)
    requires DistinctPubkeys(values)
    ensures |r| == |values|
    ensures IsOrderedView(values, r)
  {
    var sorted := Sort(values);
    assert |sorted| == |values| by {
      assert |multiset(sorted)| == |multiset(values)|;
    }
    Pubkeys(sorted)
  }

  /** The view lists exactly the pubkeys of the statuses. */
  lemma OrderByLastUpdateMembers(values: seq<UserStatus>, p: string)
    requires DistinctPubkeys(values)
    ensures p in OrderByLastUpdate(values) <==> exists v :: v in values && v.pubkey == p
  {
    var sorted := Sort(values);
    var r := OrderByLastUpdate(values);
    if p in r {
      var i :| 0 <= i < |r| && r[i] == p;
      assert sorted[i] in multiset(values);
    }
    if exists v :: v in values && v.pubkey == p {
      var v :| v in values && v.pubkey == p;
      assert v in multiset(sorted);
      var i :| 0 <= i < |sorted| && sorted[i] == v;
      assert r[i] == p;
    }
  }

  /** No pubkey appears twice in the view. */
  lemma OrderByLastUpdateDistinct(values: seq<UserStatus>)
    requires DistinctPubkeys(values)
    ensures var r := OrderByLastUpdate(values);
            forall i, j :: 0 <= i < j < |r| ==> r[i] != r[j]
  {
    var sorted := Sort(values);
    var r := OrderByLastUpdate(values);
    assert forall i :: 0 <= i < |sorted| ==> sorted[i] in multiset(values);
    forall i, j | 0 <= i < j < |r|
      ensures r[i] != r[j]
    {
      if r[i] == r[j] {
        BeforeIrreflexive(sorted[i]);
        SameMemberSamePubkey(values, sorted[i], sorted[j]);
      }
    }
  }

  /** In a sequence with distinct pubkeys, a pubkey identifies the member. */
  lemma SameMemberSamePubkey(values: seq<UserStatus>, a: UserStatus, b: UserStatus)
    requires DistinctPubkeys(values)
    requires a in values && b in values && a.pubkey == b.pubkey
    ensures a == b
  {
  }

  /** Two sorted sequences with the same elements are equal. */
  lemma {:induction false} SortedUnique(a: seq<UserStatus>, b: seq<UserStatus>)
    requires Sorted(a) && Sorted(b) && multiset(a) == multiset(b)
    ensures a == b
  {
    if |a| > 0 {
      SameHead(a, b);
      SortedTail(a);
      SortedTail(b);
      SameTailElements(a, b);
      SortedUnique(a[1..], b[1..]);
      assert a == [a[0]] + a[1..] && b == [b[0]] + b[1..];
    }
  }

  /** Both heads are the element that sorts before all others. */
  lemma SameHead(a: seq<UserStatus>, b: seq<UserStatus>)
    requires |a| > 0 && Sorted(a) && Sorted(b) && multiset(a) == multiset(b)
    ensures |b| > 0 && a[0] == b[0]
  {
    assert a[0] in multiset(b);
    assert b[0] in multiset(a);
    if a[0] != b[0] {
      var i :| 0 <= i < |b| && b[i] == a[0];
      var j :| 0 <= j < |a| && a[j] == b[0];
      BeforeAsymmetric(a[0], a[j]);
    }
  }

  lemma SameTailElements(a: seq<UserStatus>, b: seq<UserStatus>)
    requires |a| > 0 && |b| > 0 && a[0] == b[0] && multiset(a) == multiset(b)
    ensures multiset(a[1..]) == multiset(b[1..])
  {
    assert a == [a[0]] + a[1..] && b == [b[0]] + b[1..];
    assert multiset(a[1..]) == multiset(a) - multiset{a[0]};
    assert multiset(b[1..]) == multiset(b) - multiset{b[0]};
  }

  /** The view is the same for any enumeration order of the map's values. */
  lemma OrderIndependent(v1: seq<UserStatus>, v2: seq<UserStatus>)
    requires DistinctPubkeys(v1) && DistinctPubkeys(v2)
    requires multiset(v1) == multiset(v2)
    ensures OrderByLastUpdate(v1) == OrderByLastUpdate(v2)
  {
    SortedUnique(Sort(v1), Sort(v2));
  }

  /** `values` lists the values of `statuses`, each once, in some order. */
  ghost predicate Enumerates(values: seq<UserStatus>, statuses: map<string, UserStatus>) {
    && (forall i :: 0 <= i < |values| ==> values[i].pubkey in statuses && statuses[values[i].pubkey] == values[i])
    && (forall p :: p in statuses ==> exists i :: 0 <= i < |values| && values[i] == statuses[p])
    && DistinctPubkeys(values)
  }

  /** For a map whose statuses are filed under their own pubkeys, the view
      lists exactly the map's keys. */
  lemma ViewListsKeys(values: seq<UserStatus>, statuses: map<string, UserStatus>, p: string)
    requires forall q :: q in statuses ==> statuses[q].pubkey == q
    requires Enumerates(values, statuses)
    ensures p in OrderByLastUpdate(values) <==> p in statuses
  {
    OrderByLastUpdateMembers(values, p);
    if p in statuses {
      var i :| 0 <= i < |values| && values[i] == statuses[p];
      assert values[i] in values && values[i].pubkey == p;
    }
  }
}
