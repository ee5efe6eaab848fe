/**
 Ordering nodes by XOR distance from a target: the comparison and the stable sort that the routing table and
 both lookups use, and the reference notion of "the `count` nearest".
 */
module Nearest {
  import opened Sequences
  import opened NodeIds
  import opened Buckets

  /** `target.distance(a) < target.distance(b)`. */
  predicate Closer(t: NodeId, a: NodeId, b: NodeId)
    ensures Closer(t, a, b) <==> Rank(t, a) < Rank(t, b)
  {
    LessIsNumeric(Xor(t, a), Xor(t, b));
    Less(Xor(t, a), Xor(t, b))
  }

  ghost predicate Sorted(t: NodeId, s: seq<NodeInfo>) {
    forall i, j :: 0 <= i < j < |s| ==> Rank(t, s[i].id) <= Rank(t, s[j].id)
  }

  ghost predicate StrictlySorted(t: NodeId, s: seq<NodeInfo>) {
    forall i, j :: 0 <= i < j < |s| ==> Rank(t, s[i].id) < Rank(t, s[j].id)
  }

  function Place(t: NodeId, s: seq<NodeInfo>, x: NodeInfo): (r: seq<NodeInfo>)
    ensures |r| == |s| + 1
    ensures multiset(r) == multiset(s) + multiset{x}
  {
    var n := |s| - 1;
    if s == [] then [x]
    else if !Closer(t, x.id, s[n].id) then s + [x]
    else
      assert s == s[..n] + [s[n]];
      Place(t, s[..n], x) + [s[n]]
  }

  /** The stable `sort_by` distance. */
  function SortByDistance(t: NodeId, s: seq<NodeInfo>): (r: seq<NodeInfo>)
    ensures |r| == |s|
    ensures multiset(r) == multiset(s)
  {
    if s == [] then []
    else
      assert s == s[..|s| - 1] + [s[|s| - 1]];
      Place(t, SortByDistance(t, s[..|s| - 1]), s[|s| - 1])
  }

  lemma PlaceMembers(t: NodeId, s: seq<NodeInfo>, x: NodeInfo)
    ensures forall y :: y in Place(t, s, x) <==> y in s || y == x
  {
    var r := Place(t, s, x);
    forall y ensures y in r <==> y in s || y == x {
      assert y in r <==> y in multiset(r);
    }
  }

  lemma {:induction false} PlaceKeepsSorted(t: NodeId, s: seq<NodeInfo>, x: NodeInfo)
    requires Sorted(t, s)
    ensures Sorted(t, Place(t, s, x))
  {
    var n := |s| - 1;
    if s != [] && Closer(t, x.id, s[n].id) {
      var front := s[..n];
      PlaceKeepsSorted(t, front, x);
      PlaceMembers(t, front, x);
      var r := Place(t, front, x);
      forall i | 0 <= i < |r| ensures Rank(t, r[i].id) <= Rank(t, s[n].id) {
        assert r[i] in r;
      }
    }
  }

  lemma {:induction false} PlaceKeepsDistinct(t: NodeId, s: seq<NodeInfo>, x: NodeInfo)
    requires Distinct(s) && !HasId(s, x.id)
    ensures Distinct(Place(t, s, x))
  {
    var n := |s| - 1;
    if s != [] && Closer(t, x.id, s[n].id) {
      PlaceKeepsDistinct(t, s[..n], x);
      PlaceMembers(t, s[..n], x);
      var r := Place(t, s[..n], x);
      forall i | 0 <= i < |r| ensures r[i].id != s[n].id {
        assert r[i] in r;
      }
    }
  }

  lemma {:induction false} SortSorts(t: NodeId, s: seq<NodeInfo>)
    ensures Sorted(t, SortByDistance(t, s))
    ensures forall y :: y in SortByDistance(t, s) <==> y in s
    ensures Distinct(s) ==> Distinct(SortByDistance(t, s)) && StrictlySorted(t, SortByDistance(t, s))
  {
    if s != [] {
      var n := |s| - 1;
      var front := SortByDistance(t, s[..n]);
      assert s == s[..n] + [s[n]];
      SortSorts(t, s[..n]);
      PlaceKeepsSorted(t, front, s[n]);
      PlaceMembers(t, front, s[n]);
      if Distinct(s) {
        forall i | 0 <= i < |front| ensures front[i].id != s[n].id { assert front[i] in s[..n]; }
        PlaceKeepsDistinct(t, front, s[n]);
        DistinctSortedIsStrict(t, SortByDistance(t, s));
      }
    }
  }

  lemma DistinctSortedIsStrict(t: NodeId, s: seq<NodeInfo>)
    requires Sorted(t, s)
    ensures Distinct(s) <==> StrictlySorted(t, s)
  {
    forall i, j | 0 <= i < j < |s|
      ensures Rank(t, s[i].id) < Rank(t, s[j].id) <==> s[i].id != s[j].id
    {
      RankInjective(t, s[i].id, s[j].id);
    }
  }

  lemma {:induction false} SortOfSorted(t: NodeId, s: seq<NodeInfo>)
    requires Sorted(t, s)
    ensures SortByDistance(t, s) == s
  {
    if s != [] {
      var front, last := s[..|s| - 1], s[|s| - 1];
      SortOfSorted(t, front);
      PlaceLast(t, front, last);
      assert s == front + [last];
    }
  }

  lemma PlaceLast(t: NodeId, s: seq<NodeInfo>, x: NodeInfo)
    requires s != [] ==> Rank(t, s[|s| - 1].id) <= Rank(t, x.id)
    ensures Place(t, s, x) == s + [x]
  {
  }

  // ----- the nearest nodes of a collection

  /**
   `r` consists of members of `all`, strictly by distance, `count` of them if there are that many, and
   every member left out is farther away than all of them.
   */
  ghost predicate AreNearest(t: NodeId, r: seq<NodeInfo>, all: seq<NodeInfo>, count: nat) {
    && StrictlySorted(t, r)
    && (forall x :: x in r ==> x in all)
    && |r| == (if |all| < count then |all| else count)
    && (forall x, i :: x in all && x !in r && 0 <= i < |r| ==> Rank(t, r[i].id) < Rank(t, x.id))
  }

  /** Sort everything and take the first `count`. */
  function FullSort(t: NodeId, all: seq<NodeInfo>, count: nat): seq<NodeInfo> {
    Truncate(SortByDistance(t, all), count)
  }

  lemma FullSortIsNearest(t: NodeId, all: seq<NodeInfo>, count: nat)
    requires Distinct(all)
    ensures AreNearest(t, FullSort(t, all, count), all, count)
  {
    SortSorts(t, all);
    var s, r := SortByDistance(t, all), FullSort(t, all, count);
    forall x | x in r ensures x in all { assert x in s; }
    forall i | 0 <= i < |r| ensures r[i] == s[i] && s[i] in r { assert r[i] in r; }
    forall x, i | x in all && x !in r && 0 <= i < |r| ensures Rank(t, r[i].id) < Rank(t, x.id) {
      assert x in s;
      var j :| 0 <= j < |s| && s[j] == x;
      assert j >= |r|;
      assert Rank(t, s[i].id) < Rank(t, s[j].id);
    }
  }

  lemma NearestAgreesAt(t: NodeId, r: seq<NodeInfo>, s: seq<NodeInfo>, n: nat)
    requires StrictlySorted(t, s) && StrictlySorted(t, r)
    requires n < |r| <= |s|
    requires forall i :: 0 <= i < n ==> r[i] == s[i]
    requires forall x :: x in r ==> x in s
    requires forall x, i :: x in s && x !in r && 0 <= i < |r| ==> Rank(t, r[i].id) < Rank(t, x.id)
    ensures r[n] == s[n]
  {
    var x, y := r[n], s[n];
    forall i | 0 <= i < n
      ensures r[i] == s[i] && Rank(t, r[i].id) < Rank(t, x.id) && Rank(t, s[i].id) < Rank(t, y.id) {}
    assert x in s;
    var p :| 0 <= p < |s| && s[p] == x;
    assert p >= n;
    assert Rank(t, y.id) <= Rank(t, x.id);
    if y in r {
      var q :| 0 <= q < |r| && r[q] == y;
      assert q >= n;
      assert Rank(t, x.id) <= Rank(t, y.id);
      assert p == n;
    }
  }

  lemma {:induction false} NearestPrefix(t: NodeId, r: seq<NodeInfo>, s: seq<NodeInfo>, n: nat)
    requires StrictlySorted(t, s) && StrictlySorted(t, r)
    requires n <= |r| <= |s|
    requires forall x :: x in r ==> x in s
    requires forall x, i :: x in s && x !in r && 0 <= i < |r| ==> Rank(t, r[i].id) < Rank(t, x.id)
    ensures forall i :: 0 <= i < n ==> r[i] == s[i]
  {
    if n > 0 {
      NearestPrefix(t, r, s, n - 1);
      NearestAgreesAt(t, r, s, n - 1);
    }
  }

  /** The nearest nodes are unique: a collection has them only as its full sort. */
  lemma NearestIffFullSort(t: NodeId, r: seq<NodeInfo>, all: seq<NodeInfo>, count: nat)
    requires Distinct(all)
    ensures AreNearest(t, r, all, count) <==> r == FullSort(t, all, count)
  {
    FullSortIsNearest(t, all, count);
    if AreNearest(t, r, all, count) {
      SortSorts(t, all);
      NearestPrefix(t, r, SortByDistance(t, all), |r|);
    }
  }

  lemma FullSortDistinct(t: NodeId, s: seq<NodeInfo>, count: nat)
    requires Distinct(s)
    ensures Distinct(FullSort(t, s, count))
  {
    SortSorts(t, s);
  }

  /** A sequence without repeated ids is no longer than one that contains it. */
  lemma {:induction false} DistinctFits(a: seq<NodeInfo>, b: seq<NodeInfo>)
    requires Distinct(a)
    requires forall x :: x in a ==> x in b
    ensures |a| <= |b|
  {
    if a != [] {
      var n := |a| - 1;
      assert a[n] in b;
      var p :| 0 <= p < |b| && b[p] == a[n];
      var rest := RemoveAt(b, p);
      forall x | x in a[..n] ensures x in rest {
        assert x in b && x != a[n];
        var q :| 0 <= q < |b| && b[q] == x;
        assert rest[if q < p then q else q - 1] == x;
      }
      DistinctFits(a[..n], rest);
    }
  }

  lemma NothingBeyondFound(all: seq<NodeInfo>, found: seq<NodeInfo>, u: NodeInfo)
    requires Distinct(all) && Distinct(found) && |all| <= |found|
    requires (forall x :: x in found ==> x in all) && u in all
    ensures u in found
  {
    if u !in found {
      var i :| 0 <= i < |all| && all[i] == u;
      var rest := RemoveAt(all, i);
      forall x | x in found ensures x in rest {
        var j :| 0 <= j < |all| && all[j] == x;
        assert rest[if j < i then j else j - 1] == x;
      }
      DistinctFits(found, rest);
    }
  }

  // ----- the sort is stable: the entries of each id, in their order, determine it

  /** The entries with this id, in order. */
  function Only(s: seq<NodeInfo>, id: NodeId): seq<NodeInfo> {
    if s == [] then []
    else
      var front, last := Only(s[..|s| - 1], id), s[|s| - 1];
      if last.id == id then front + [last] else front
  }

  lemma {:induction false} OnlyMembers(s: seq<NodeInfo>, id: NodeId)
    ensures forall x :: x in Only(s, id) <==> x in s && x.id == id
  {
    if s != [] {
      OnlyMembers(s[..|s| - 1], id);
      assert forall x :: x in s <==> x in s[..|s| - 1] || x == s[|s| - 1];
    }
  }

  lemma OnlyWithLast(s: seq<NodeInfo>, x: NodeInfo, id: NodeId)
    ensures Only(s + [x], id) == Only(s, id) + if x.id == id then [x] else []
  {
    assert (s + [x])[..|s|] == s;
  }

  lemma {:induction false} OnlyConcat(a: seq<NodeInfo>, b: seq<NodeInfo>, id: NodeId)
    ensures Only(a + b, id) == Only(a, id) + Only(b, id)
  {
    if b == [] {
      assert a + b == a;
    } else {
      var front, last := b[..|b| - 1], b[|b| - 1];
      OnlyConcat(a, front, id);
      assert b == front + [last] && a + b == (a + front) + [last];
      var tail := if last.id == id then [last] else [];
      OnlyWithLast(a + front, last, id);
      assert Only(b, id) == Only(front, id) + tail by { OnlyWithLast(front, last, id); }
      Associative(Only(a, id), Only(front, id), tail);
    }
  }

  lemma {:induction false} OnlyOfOneId(s: seq<NodeInfo>, id: NodeId)
    requires forall x :: x in s ==> x.id == id
    ensures Only(s, id) == s
  {
    if s != [] {
      var front, last := s[..|s| - 1], s[|s| - 1];
      assert s == front + [last] && last in s;
      OnlyOfOneId(front, id);
    }
  }

  lemma OnlyOfNone(s: seq<NodeInfo>, id: NodeId)
    requires !HasId(s, id)
    ensures Only(s, id) == []
  {
    OnlyMembers(s, id);
    if Only(s, id) != [] {
      assert Only(s, id)[0] in Only(s, id);
      HasIdOfMember(s, Only(s, id)[0]);
    }
  }

  lemma HasIdOfMember(s: seq<NodeInfo>, x: NodeInfo)
    requires x in s
    ensures HasId(s, x.id)
  {
  }

  lemma IndexWithLast(s: seq<NodeInfo>, x: NodeInfo, id: NodeId)
    ensures HasId(s, id) ==> HasId(s + [x], id) && IndexOf(s + [x], id) == IndexOf(s, id)
    ensures !HasId(s, id) ==> (HasId(s + [x], id) <==> x.id == id)
    ensures !HasId(s, id) && x.id == id ==> IndexOf(s + [x], id) == |s|
  {
    var r := s + [x];
    if HasId(s, id) {
      assert r[IndexOf(s, id)].id == id;
    } else if x.id == id {
      assert r[|s|].id == id;
    }
  }

  lemma {:induction false} OnlyStartsAtIndex(s: seq<NodeInfo>, id: NodeId)
    requires HasId(s, id)
    ensures Only(s, id) != [] && Only(s, id)[0] == s[IndexOf(s, id)]
  {
    var n := |s| - 1;
    var front := s[..n];
    assert s == front + [s[n]];
    IndexWithLast(front, s[n], id);
    OnlyWithLast(front, s[n], id);
    if HasId(front, id) {
      OnlyStartsAtIndex(front, id);
    } else {
      OnlyOfNone(front, id);
    }
  }

  lemma {:induction false} PlaceKeepsOnly(t: NodeId, s: seq<NodeInfo>, x: NodeInfo, id: NodeId)
    ensures Only(Place(t, s, x), id) == Only(s + [x], id)
  {
    var n := |s| - 1;
    if s != [] && Closer(t, x.id, s[n].id) {
      PlaceKeepsOnly(t, s[..n], x, id);
      OnlyWithLast(Place(t, s[..n], x), s[n], id);
      OnlyWithLast(s[..n], x, id);
      OnlyWithLast(s, x, id);
    }
  }

  lemma {:induction false} SortKeepsOnly(t: NodeId, s: seq<NodeInfo>, id: NodeId)
    ensures Only(SortByDistance(t, s), id) == Only(s, id)
  {
    if s != [] {
      var n := |s| - 1;
      SortKeepsOnly(t, s[..n], id);
      PlaceKeepsOnly(t, SortByDistance(t, s[..n]), s[n], id);
      OnlyWithLast(SortByDistance(t, s[..n]), s[n], id);
    }
  }

  ghost predicate SameOnly(a: seq<NodeInfo>, b: seq<NodeInfo>) {
    forall id :: Only(a, id) == Only(b, id)
  }

  /** The last entries of two sorted sequences with the same entries for every id are the same. */
  lemma SameLast(t: NodeId, a: seq<NodeInfo>, b: seq<NodeInfo>)
    requires Sorted(t, a) && Sorted(t, b) && SameOnly(a, b) && a != []
    ensures b != [] && a[|a| - 1] == b[|b| - 1]
  {
    var x := a[|a| - 1];
    OnlyMembers(a, x.id);
    OnlyMembers(b, x.id);
    assert x in Only(a, x.id) && x in Only(b, x.id);
    var y := b[|b| - 1];
    OnlyMembers(a, y.id);
    OnlyMembers(b, y.id);
    assert y in Only(b, y.id) && y in Only(a, y.id);
    LastIsFarthest(t, a, y);
    LastIsFarthest(t, b, x);
    RankInjective(t, x.id, y.id);
    assert Only(a, x.id)[|Only(a, x.id)| - 1] == x;
    assert Only(b, x.id)[|Only(b, x.id)| - 1] == y;
  }

  lemma LastIsFarthest(t: NodeId, s: seq<NodeInfo>, x: NodeInfo)
    requires Sorted(t, s) && x in s
    ensures Rank(t, x.id) <= Rank(t, s[|s| - 1].id)
  {
    var i :| 0 <= i < |s| && s[i] == x;
  }

  lemma SameFront(a: seq<NodeInfo>, b: seq<NodeInfo>, x: NodeInfo)
    requires SameOnly(a + [x], b + [x])
    ensures SameOnly(a, b)
  {
    forall id ensures Only(a, id) == Only(b, id) {
      assert Only(a + [x], id) == Only(b + [x], id);
      OnlyWithLast(a, x, id);
      OnlyWithLast(b, x, id);
      SameBefore(Only(a, id), Only(b, id), if x.id == id then [x] else []);
    }
  }

  lemma {:induction false} SortedByOnly(t: NodeId, a: seq<NodeInfo>, b: seq<NodeInfo>)
    requires Sorted(t, a) && Sorted(t, b) && SameOnly(a, b)
    ensures a == b
  {
    if a != [] {
      SameLast(t, a, b);
      var c, d, x := a[..|a| - 1], b[..|b| - 1], a[|a| - 1];
      assert a == c + [x] && b == d + [x];
      SameFront(c, d, x);
      SortedByOnly(t, c, d);
    } else if b != [] {
      SameLast(t, b, a);
    }
  }

  lemma SortDependsOnOnly(t: NodeId, a: seq<NodeInfo>, b: seq<NodeInfo>)
    requires SameOnly(a, b)
    ensures SortByDistance(t, a) == SortByDistance(t, b)
  {
    var c, d := SortByDistance(t, a), SortByDistance(t, b);
    SortSorts(t, a);
    SortSorts(t, b);
    forall id ensures Only(c, id) == Only(d, id) {
      assert Only(a, id) == Only(b, id);
      SortKeepsOnly(t, a, id);
      SortKeepsOnly(t, b, id);
    }
    SortedByOnly(t, c, d);
  }

  lemma {:induction false} PlaceInSecond(t: NodeId, a: seq<NodeInfo>, b: seq<NodeInfo>, x: NodeInfo)
    requires forall y :: y in a ==> Rank(t, y.id) <= Rank(t, x.id)
    ensures Place(t, a + b, x) == a + Place(t, b, x)
  {
    if b == [] {
      assert a + b == a;
      if a != [] { assert a[|a| - 1] in a; }
    } else {
      var front, last := b[..|b| - 1], b[|b| - 1];
      assert a + b == (a + front) + [last];
      assert (a + b)[..|a + b| - 1] == a + front;
      if Closer(t, x.id, last.id) {
        PlaceInSecond(t, a, front, x);
        Associative(a, Place(t, front, x), [last]);
      } else {
        Associative(a, b, [x]);
      }
    }
  }

  /** Sorting block by block, when every entry of one block is at most as far as every entry of the next. */
  lemma {:induction false} SortOfBlocks(t: NodeId, a: seq<NodeInfo>, b: seq<NodeInfo>)
    requires forall x, y :: x in a && y in b ==> Rank(t, x.id) <= Rank(t, y.id)
    ensures SortByDistance(t, a + b) == SortByDistance(t, a) + SortByDistance(t, b)
  {
    if b == [] {
      assert a + b == a;
      assert SortByDistance(t, a) + [] == SortByDistance(t, a);
    } else {
      var n := |b| - 1;
      assert (a + b)[..|a + b| - 1] == a + b[..n];
      SortOfBlocks(t, a, b[..n]);
      SortSorts(t, a);
      PlaceInSecond(t, SortByDistance(t, a), SortByDistance(t, b[..n]), b[n]);
    }
  }
}
