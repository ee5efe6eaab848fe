/**
 How one round of `iterative_find_node`, with its test against the last candidate, relates to the exact merge
 of `do_get_providers` from the same candidates and answers.
 */
module LookupComparison {
  import opened NodeIds
  import opened Buckets
  import opened Nearest
  import opened Routing
  import opened Lookups

  function Loose(l: Lookup): Lookup {
    l.(policy := BeatsLast)
  }

  function Exact(l: Lookup): Lookup {
    l.(policy := TakeAll)
  }

  /** The exact merge takes every id the other one takes. */
  lemma ExactTakesMore(l: Lookup, c: seq<NodeInfo>, nodes: seq<NodeInfo>)
    requires Distinct(c)
    ensures forall x :: x in OfferAll(Loose(l), c, nodes) ==> HasId(OfferAll(Exact(l), c, nodes), x.id)
  {
    OfferAllGrows(Loose(l), c, nodes);
    OfferAllGrows(Exact(l), c, nodes);
    forall x | x in OfferAll(Loose(l), c, nodes) ensures HasId(OfferAll(Exact(l), c, nodes), x.id) {
      if x in c {
        var i :| 0 <= i < |c| && c[i] == x;
        assert OfferAll(Exact(l), c, nodes)[i] == x;
      } else {
        OfferedIsMatched(Exact(l), c, nodes, x);
      }
    }
  }

  /** A round of `iterative_find_node` is never closer, position by position, than the exact merge. */
  lemma RoundNeverBeatsExact(l: Lookup, c: seq<NodeInfo>, nodes: seq<NodeInfo>)
    requires GoodSeeds(l, c)
    ensures var loose, exact := Settle(Loose(l), c, nodes), Settle(Exact(l), c, nodes);
            && |loose| <= |exact|
            && forall i :: 0 <= i < |loose| ==> Rank(l.target, exact[i].id) <= Rank(l.target, loose[i].id)
  {
    StrictIsDistinct(l.target, c);
    OfferAllGrows(Loose(l), c, nodes);
    OfferAllGrows(Exact(l), c, nodes);
    ExactTakesMore(l, c, nodes);
    MoreIdsAreNearer(l.target, OfferAll(Loose(l), c, nodes), OfferAll(Exact(l), c, nodes), l.k);
  }

  lemma MoreIdsAreNearer(t: NodeId, a: seq<NodeInfo>, b: seq<NodeInfo>, k: nat)
    requires Distinct(a) && Distinct(b) && forall x :: x in a ==> HasId(b, x.id)
    ensures |FullSort(t, a, k)| <= |FullSort(t, b, k)|
    ensures forall i :: 0 <= i < |FullSort(t, a, k)| ==>
              Rank(t, FullSort(t, b, k)[i].id) <= Rank(t, FullSort(t, a, k)[i].id)
  {
    SortIsStrict(t, a);
    SortIsStrict(t, b);
    var sa, sb := SortByDistance(t, a), SortByDistance(t, b);
    forall i | 0 <= i < |sa| ensures HasId(sb, sa[i].id) {
      SortKeepsIds(t, a, b, i);
    }
    SupersetIsNearer(t, sa, sb);
  }

  lemma SortIsStrict(t: NodeId, s: seq<NodeInfo>)
    requires Distinct(s)
    ensures StrictlySorted(t, SortByDistance(t, s))
  {
    SortSorts(t, s);
  }

  lemma SortKeepsIds(t: NodeId, a: seq<NodeInfo>, b: seq<NodeInfo>, i: nat)
    requires i < |SortByDistance(t, a)| && forall x :: x in a ==> HasId(b, x.id)
    ensures HasId(SortByDistance(t, b), SortByDistance(t, a)[i].id)
  {
    SortSorts(t, a);
    SortSorts(t, b);
    var sa, sb := SortByDistance(t, a), SortByDistance(t, b);
    assert sa[i] in sa;
    var y := b[IndexOf(b, sa[i].id)];
    assert y in sb;
    HasIdOfMember(sb, y);
  }

  // ----- the nearest node

  /** Both candidate lists hold the same entry, or none, for this id. */
  ghost predicate SameEntry(a: seq<NodeInfo>, b: seq<NodeInfo>, id: NodeId) {
    && (HasId(a, id) <==> HasId(b, id))
    && (HasId(a, id) ==> a[IndexOf(a, id)] == b[IndexOf(b, id)])
  }

  lemma OfferKeepsSameEntry(l: Lookup, a: seq<NodeInfo>, b: seq<NodeInfo>, x: NodeInfo, id: NodeId)
    requires l.k >= 1 && SameEntry(a, b, id)
    requires forall y :: y in a ==> Rank(l.target, id) <= Rank(l.target, y.id)
    ensures SameEntry(Offer(Loose(l), a, x), Offer(Exact(l), b, x), id)
  {
    IndexWithLast(a, x, id);
    IndexWithLast(b, x, id);
    if x.id == id && x.id != l.self && !HasId(a, id) && |a| >= l.k {
      var last := a[|a| - 1];
      assert last in a;
      RankInjective(l.target, id, last.id);
      assert Offer(Loose(l), a, x) == a + [x];
    }
  }

  /** A nearest id enters both lists on its first appearance, with the same contact data. */
  lemma {:induction false} NearestEntersBoth(l: Lookup, c: seq<NodeInfo>, nodes: seq<NodeInfo>, id: NodeId)
    requires l.k >= 1 && Distinct(c)
    requires forall x :: x in c || (x in nodes && x.id != l.self) ==> Rank(l.target, id) <= Rank(l.target, x.id)
    ensures SameEntry(OfferAll(Loose(l), c, nodes), OfferAll(Exact(l), c, nodes), id)
  {
    if nodes != [] {
      var n := |nodes| - 1;
      NearestEntersBoth(l, c, nodes[..n], id);
      OfferAllGrows(Loose(l), c, nodes[..n]);
      var a, b := OfferAll(Loose(l), c, nodes[..n]), OfferAll(Exact(l), c, nodes[..n]);
      forall y | y in a ensures Rank(l.target, id) <= Rank(l.target, y.id) {
        assert y in c || (y in nodes && y.id != l.self);
      }
      OfferKeepsSameEntry(l, a, b, nodes[n], id);
    }
  }

  lemma HeadOfSettle(l: Lookup, all: seq<NodeInfo>, h: NodeInfo)
    requires l.k >= 1 && Distinct(all) && h in all
    requires forall x :: x in all ==> Rank(l.target, h.id) <= Rank(l.target, x.id)
    ensures FullSort(l.target, all, l.k) != [] && FullSort(l.target, all, l.k)[0] == h
  {
    SortSorts(l.target, all);
    var s := SortByDistance(l.target, all);
    assert s[0] in s;
    var i :| 0 <= i < |s| && s[i] == h;
    assert forall j :: 0 < j < |s| ==> Rank(l.target, s[0].id) < Rank(l.target, s[j].id);
  }

  /** One round of either lookup puts the same node first. */
  lemma RoundAgreesOnNearest(l: Lookup, c: seq<NodeInfo>, nodes: seq<NodeInfo>)
    requires l.k >= 1 && GoodSeeds(l, c)
    ensures var loose, exact := Settle(Loose(l), c, nodes), Settle(Exact(l), c, nodes);
            (loose == [] <==> exact == []) && (loose != [] ==> loose[0] == exact[0])
  {
    var a, b := OfferAll(Loose(l), c, nodes), OfferAll(Exact(l), c, nodes);
    StrictIsDistinct(l.target, c);
    OfferAllGrows(Loose(l), c, nodes);
    OfferAllGrows(Exact(l), c, nodes);
    RoundNeverBeatsExact(l, c, nodes);
    if b != [] {
      SortSorts(l.target, b);
      var h := SortByDistance(l.target, b)[0];
      assert h in SortByDistance(l.target, b);
      HeadIsLeast(l, b, h);
      forall x | x in c || (x in nodes && x.id != l.self) ensures Rank(l.target, h.id) <= Rank(l.target, x.id) {
        if x in c {
          var i :| 0 <= i < |c| && c[i] == x;
          assert b[i] in b;
        } else {
          OfferedIsMatched(Exact(l), c, nodes, x);
        }
      }
      NearestEntersBoth(l, c, nodes, h.id);
      HasIdOfMember(b, h);
      DistinctEntry(b, h);
      assert a[IndexOf(a, h.id)] == h;
      HeadOfSettle(Loose(l), a, h);
      HeadOfSettle(Exact(l), b, h);
    }
  }

  lemma HeadIsLeast(l: Lookup, b: seq<NodeInfo>, h: NodeInfo)
    requires b != [] && h == SortByDistance(l.target, b)[0]
    ensures forall x :: x in b ==> Rank(l.target, h.id) <= Rank(l.target, x.id)
  {
    SortSorts(l.target, b);
    var s := SortByDistance(l.target, b);
    forall x | x in b ensures Rank(l.target, h.id) <= Rank(l.target, x.id) {
      assert x in s;
      var i :| 0 <= i < |s| && s[i] == x;
    }
  }

  lemma DistinctEntry(s: seq<NodeInfo>, x: NodeInfo)
    requires Distinct(s) && x in s
    ensures s[IndexOf(s, x.id)] == x
  {
    var i :| 0 <= i < |s| && s[i] == x;
  }

  // ----- complete agreement

  lemma {:induction false} DistinctFitsSet(s: seq<NodeInfo>, ids: set<NodeId>)
    requires Distinct(s)
    requires forall x :: x in s ==> x.id in ids
    ensures |s| <= |ids|
  {
    if s != [] {
      var n := |s| - 1;
      assert s[n] in s;
      forall x | x in s[..n] ensures x.id in ids - {s[n].id} { assert x in s; }
      DistinctFitsSet(s[..n], ids - {s[n].id});
    }
  }

  /** With at most `k` distinct ids in play, a round of either lookup gives the same list. */
  lemma {:induction false} FewIdsAgree(l: Lookup, c: seq<NodeInfo>, nodes: seq<NodeInfo>, ids: set<NodeId>)
    requires Distinct(c) && |ids| <= l.k
    requires forall x :: x in c || (x in nodes && x.id != l.self) ==> x.id in ids
    ensures OfferAll(Loose(l), c, nodes) == OfferAll(Exact(l), c, nodes)
  {
    if nodes != [] {
      var n := |nodes| - 1;
      var a, x := OfferAll(Loose(l), c, nodes[..n]), nodes[n];
      FewIdsAgree(l, c, nodes[..n], ids);
      OfferAllGrows(Loose(l), c, nodes[..n]);
      if x.id != l.self && !HasId(a, x.id) {
        DistinctFitsSet(a + [x], ids);
      }
    }
  }

  lemma RoundAgreesOnFewIds(l: Lookup, c: seq<NodeInfo>, nodes: seq<NodeInfo>)
    requires GoodSeeds(l, c)
    requires |IdSet(c) + (IdSet(nodes) - {l.self})| <= l.k
    ensures Settle(Loose(l), c, nodes) == Settle(Exact(l), c, nodes)
  {
    StrictIsDistinct(l.target, c);
    FewIdsAgree(l, c, nodes, IdSet(c) + (IdSet(nodes) - {l.self}));
  }

  // ----- exactly when a round is exact

  /** The returned nodes that are neither candidates nor the searching node, on their first appearance. */
  function Newcomers(l: Lookup, c: seq<NodeInfo>, nodes: seq<NodeInfo>): seq<NodeInfo> {
    if nodes == [] then []
    else
      var front, x := Newcomers(l, c, nodes[..|nodes| - 1]), nodes[|nodes| - 1];
      if x.id == l.self || HasId(c + front, x.id) then front else front + [x]
  }

  /** The exact merge takes them all. */
  lemma {:induction false} ExactTakesNewcomers(l: Lookup, c: seq<NodeInfo>, nodes: seq<NodeInfo>)
    ensures OfferAll(Exact(l), c, nodes) == c + Newcomers(l, c, nodes)
  {
    if nodes == [] {
      assert c + [] == c;
    } else {
      var front, x := Newcomers(l, c, nodes[..|nodes| - 1]), nodes[|nodes| - 1];
      ExactTakesNewcomers(l, c, nodes[..|nodes| - 1]);
      assert c + front + [x] == c + (front + [x]);
    }
  }

  /**
   Which entries of candidates and newcomers `iterative_find_node` holds before it sorts: the first `k`, and
   then those nearer than everything from the `k`-th on, the running minima.
   */
  ghost predicate Taken(l: Lookup, s: seq<NodeInfo>, p: nat)
    requires l.k >= 1 && p < |s|
  {
    p < l.k || forall q :: l.k - 1 <= q < p ==> Rank(l.target, s[p].id) < Rank(l.target, s[q].id)
  }

  ghost function TakenOnes(l: Lookup, s: seq<NodeInfo>): seq<NodeInfo>
    requires l.k >= 1
  {
    if s == [] then []
    else
      var n := |s| - 1;
      if Taken(l, s, n) then TakenOnes(l, s[..n]) + [s[n]] else TakenOnes(l, s[..n])
  }

  lemma {:induction false} TakenMembers(l: Lookup, s: seq<NodeInfo>)
    requires l.k >= 1
    ensures forall x :: x in TakenOnes(l, s) <==> exists p :: 0 <= p < |s| && s[p] == x && Taken(l, s, p)
    ensures |s| <= l.k ==> TakenOnes(l, s) == s
    ensures |s| >= l.k ==> |TakenOnes(l, s)| >= l.k
  {
    if s != [] {
      var n := |s| - 1;
      TakenMembers(l, s[..n]);
      forall x ensures x in TakenOnes(l, s) <==> exists p :: 0 <= p < |s| && s[p] == x && Taken(l, s, p) {
        TakenMember(l, s, x);
      }
    }
  }

  lemma TakenMember(l: Lookup, s: seq<NodeInfo>, x: NodeInfo)
    requires l.k >= 1 && s != []
    requires var front := s[..|s| - 1];
             x in TakenOnes(l, front) <==> exists p :: 0 <= p < |front| && front[p] == x && Taken(l, front, p)
    ensures x in TakenOnes(l, s) <==> exists p :: 0 <= p < |s| && s[p] == x && Taken(l, s, p)
  {
    var n := |s| - 1;
    forall p | 0 <= p < n ensures Taken(l, s[..n], p) == Taken(l, s, p) {
      assert forall q :: 0 <= q < n ==> s[..n][q] == s[q];
    }
    if x in TakenOnes(l, s[..n]) {
      var p :| 0 <= p < n && s[..n][p] == x && Taken(l, s[..n], p);
      assert s[p] == x && Taken(l, s, p);
    }
    if p :| 0 <= p < |s| && s[p] == x && Taken(l, s, p) {
      if p < n { assert s[..n][p] == x && Taken(l, s[..n], p); }
    }
  }

  /** `x` is no farther than any entry from the `k`-th on. */
  ghost predicate NoFarther(l: Lookup, s: seq<NodeInfo>, x: NodeInfo)
    requires l.k >= 1
  {
    forall q :: l.k - 1 <= q < |s| ==> Rank(l.target, x.id) <= Rank(l.target, s[q].id)
  }

  lemma RefusedIsNoNearer(l: Lookup, s: seq<NodeInfo>, y: NodeInfo, x: NodeInfo)
    requires 1 <= l.k <= |s| && NoFarther(l, s, x) && !Taken(l, s + [y], |s|)
    ensures NoFarther(l, s + [y], x)
  {
    assert forall q :: 0 <= q < |s| ==> (s + [y])[q] == s[q];
  }

  lemma TakenIsNearest(l: Lookup, s: seq<NodeInfo>, y: NodeInfo)
    requires 1 <= l.k <= |s| && Taken(l, s + [y], |s|)
    ensures NoFarther(l, s + [y], y)
  {
  }

  /** Once `k` are held, the one taken last is one of those from the `k`-th on, and the nearest of them. */
  lemma {:induction false} LastTaken(l: Lookup, s: seq<NodeInfo>)
    requires 1 <= l.k <= |s|
    ensures var a := TakenOnes(l, s);
            a != [] && NoFarther(l, s, a[|a| - 1]) && exists m :: l.k - 1 <= m < |s| && a[|a| - 1] == s[m]
  {
    var n := |s| - 1;
    var front := s[..n];
    assert s == front + [s[n]];
    if n < l.k {
      TakenMembers(l, s);
    } else if Taken(l, s, n) {
      assert TakenOnes(l, s)[|TakenOnes(l, s)| - 1] == s[n];
      TakenIsNearest(l, front, s[n]);
    } else {
      LastTaken(l, front);
      var a := TakenOnes(l, front);
      RefusedIsNoNearer(l, front, s[n], a[|a| - 1]);
      var m :| l.k - 1 <= m < n && a[|a| - 1] == front[m];
      assert s[m] == front[m];
    }
  }

  /** A round takes every newcomer until the list has `k`, and after that exactly the running minima. */
  lemma {:induction false} LooseTakesMinima(l: Lookup, c: seq<NodeInfo>, nodes: seq<NodeInfo>)
    requires 1 <= l.k && |c| <= l.k
    ensures OfferAll(Loose(l), c, nodes) == TakenOnes(l, c + Newcomers(l, c, nodes))
  {
    if nodes == [] {
      assert c + [] == c;
      TakenMembers(l, c);
    } else {
      var front, x := Newcomers(l, c, nodes[..|nodes| - 1]), nodes[|nodes| - 1];
      LooseTakesMinima(l, c, nodes[..|nodes| - 1]);
      assert c + (front + [x]) == c + front + [x];
      OfferedIsTaken(l, c + front, x);
    }
  }

  lemma OfferedIsTaken(l: Lookup, s: seq<NodeInfo>, x: NodeInfo)
    requires 1 <= l.k
    ensures Offer(Loose(l), TakenOnes(l, s), x)
         == TakenOnes(l, if x.id == l.self || HasId(s, x.id) then s else s + [x])
  {
    var a := TakenOnes(l, s);
    if HasId(s, x.id) {
      if x.id != l.self && !HasId(a, x.id) { RefusedAgain(l, s, x); }
    } else if x.id != l.self {
      NewIsOffered(l, s, x);
    }
  }

  lemma NewIsOffered(l: Lookup, s: seq<NodeInfo>, x: NodeInfo)
    requires 1 <= l.k && !HasId(s, x.id) && x.id != l.self
    ensures Offer(Loose(l), TakenOnes(l, s), x) == TakenOnes(l, s + [x])
  {
    NewToTaken(l, s, x.id);
    assert (s + [x])[..|s|] == s;
    NewIsTakenIff(l, s, x);
  }

  lemma NewToTaken(l: Lookup, s: seq<NodeInfo>, id: NodeId)
    requires l.k >= 1 && !HasId(s, id)
    ensures !HasId(TakenOnes(l, s), id)
  {
    TakenMembers(l, s);
    var a := TakenOnes(l, s);
    forall i | 0 <= i < |a| ensures a[i].id != id {
      assert a[i] in a;
    }
  }

  /** An id that was refused stays beyond the last candidate. */
  lemma RefusedAgain(l: Lookup, s: seq<NodeInfo>, x: NodeInfo)
    requires 1 <= l.k && HasId(s, x.id) && !HasId(TakenOnes(l, s), x.id)
    ensures var a := TakenOnes(l, s);
            |a| >= l.k && Rank(l.target, a[|a| - 1].id) <= Rank(l.target, x.id)
  {
    var p := IndexOf(s, x.id);
    if Taken(l, s, p) { TakenIsHeld(l, s, p); }
    TakenMembers(l, s);
    LastTaken(l, s);
  }

  lemma TakenIsHeld(l: Lookup, s: seq<NodeInfo>, p: nat)
    requires l.k >= 1 && p < |s| && Taken(l, s, p)
    ensures HasId(TakenOnes(l, s), s[p].id)
  {
    TakenMembers(l, s);
    HasIdOfMember(TakenOnes(l, s), s[p]);
  }

  lemma NewIsTakenIff(l: Lookup, s: seq<NodeInfo>, x: NodeInfo)
    requires 1 <= l.k
    ensures var a := TakenOnes(l, s);
            && (|s| < l.k ==> |a| < l.k)
            && (|s| >= l.k ==> |a| >= l.k)
            && (Taken(l, s + [x], |s|) <==>
                  |s| < l.k || Rank(l.target, x.id) < Rank(l.target, a[|a| - 1].id))
  {
    var a, all := TakenOnes(l, s), s + [x];
    TakenMembers(l, s);
    if |s| >= l.k {
      LastTaken(l, s);
      var m :| l.k - 1 <= m < |s| && a[|a| - 1] == s[m];
      assert all[m] == s[m] && all[|s|] == x;
      assert forall q :: 0 <= q < |s| ==> all[q] == s[q];
    }
  }

  /**
   For any candidates and any answers of any number of peers: the round gives what the exact merge gives if and
   only if every newcomer it refused is farther than the `k`-th nearest of the candidates and the newcomers it
   accepted.
   */
  lemma RoundExactIff(l: Lookup, c: seq<NodeInfo>, nodes: seq<NodeInfo>)
    requires l.k >= 1 && GoodSeeds(l, c)
    ensures var s := c + Newcomers(l, c, nodes);
            var r := FullSort(l.target, TakenOnes(l, s), l.k);
            Settle(Loose(l), c, nodes) == Settle(Exact(l), c, nodes) <==> RefusedAreFarther(l, s, r)
  {
    var s := c + Newcomers(l, c, nodes);
    StrictIsDistinct(l.target, c);
    OfferAllGrows(Exact(l), c, nodes);
    OfferAllGrows(Loose(l), c, nodes);
    ExactTakesNewcomers(l, c, nodes);
    LooseTakesMinima(l, c, nodes);
    TakenExactIff(l, s);
  }

  /** Every refused entry is farther than the `k`-th of `r`. */
  ghost predicate RefusedAreFarther(l: Lookup, s: seq<NodeInfo>, r: seq<NodeInfo>)
    requires l.k >= 1
  {
    forall p :: 0 <= p < |s| && !Taken(l, s, p) ==>
      |r| == l.k && Rank(l.target, r[l.k - 1].id) < Rank(l.target, s[p].id)
  }

  lemma TakenExactIff(l: Lookup, s: seq<NodeInfo>)
    requires l.k >= 1 && Distinct(s) && Distinct(TakenOnes(l, s))
    ensures var r := FullSort(l.target, TakenOnes(l, s), l.k);
            r == FullSort(l.target, s, l.k) <==> RefusedAreFarther(l, s, r)
  {
    var r := FullSort(l.target, TakenOnes(l, s), l.k);
    FullSortIsNearest(l.target, TakenOnes(l, s), l.k);
    NearestIffFullSort(l.target, r, s, l.k);
    if RefusedAreFarther(l, s, r) {
      TakenAreNearest(l, s, r);
    } else if AreNearest(l.target, r, s, l.k) {
      RefusedWereFarther(l, s, r);
    }
  }

  lemma TakenAreNearest(l: Lookup, s: seq<NodeInfo>, r: seq<NodeInfo>)
    requires l.k >= 1 && AreNearest(l.target, r, TakenOnes(l, s), l.k) && RefusedAreFarther(l, s, r)
    ensures AreNearest(l.target, r, s, l.k)
  {
    TakenMembers(l, s);
    forall x, i | x in s && x !in r && 0 <= i < |r| ensures Rank(l.target, r[i].id) < Rank(l.target, x.id) {
      LeftOutOfTaken(l, s, r, x, i);
    }
  }

  lemma RefusedWereFarther(l: Lookup, s: seq<NodeInfo>, r: seq<NodeInfo>)
    requires l.k >= 1 && Distinct(s)
    requires AreNearest(l.target, r, TakenOnes(l, s), l.k) && AreNearest(l.target, r, s, l.k)
    ensures RefusedAreFarther(l, s, r)
  {
    forall p | 0 <= p < |s| && !Taken(l, s, p)
      ensures |r| == l.k && Rank(l.target, r[l.k - 1].id) < Rank(l.target, s[p].id)
    {
      RefusedIsNotTaken(l, s, p);
      assert s[p] in s;
    }
  }

  lemma RefusedIsNotTaken(l: Lookup, s: seq<NodeInfo>, p: nat)
    requires l.k >= 1 && Distinct(s) && p < |s| && !Taken(l, s, p)
    ensures s[p] !in TakenOnes(l, s)
  {
    TakenMembers(l, s);
  }

  lemma LeftOutOfTaken(l: Lookup, s: seq<NodeInfo>, r: seq<NodeInfo>, x: NodeInfo, i: nat)
    requires l.k >= 1 && AreNearest(l.target, r, TakenOnes(l, s), l.k) && RefusedAreFarther(l, s, r)
    requires x in s && x !in r && i < |r|
    ensures Rank(l.target, r[i].id) < Rank(l.target, x.id)
  {
    if x !in TakenOnes(l, s) {
      var p :| 0 <= p < |s| && s[p] == x;
      if Taken(l, s, p) {
        TakenMembers(l, s);
      } else {
        assert i <= l.k - 1 == |r| - 1;
        assert Rank(l.target, r[i].id) <= Rank(l.target, r[l.k - 1].id);
      }
    }
  }

  /** Three ids at increasing distance, the farthest of them the only candidate: the round loses the second. */
  lemma RoundCanBeWorse(now: Instant)
    ensures var l := Lookup(BeatsLast, IdWithFirstByte(0), IdWithFirstByte(0x80), 2, 1);
            var x := NewNode(IdWithFirstByte(0x40), [], [], now);
            var y := NewNode(IdWithFirstByte(0x10), [], [], now);
            var z := NewNode(IdWithFirstByte(0x20), [], [], now);
            && GoodSeeds(l, [x])
            && Settle(Loose(l), [x], [y, z]) == [y, x]
            && Settle(Exact(l), [x], [y, z]) == [y, z]
  {
    var l := Lookup(BeatsLast, IdWithFirstByte(0), IdWithFirstByte(0x80), 2, 1);
    var x := NewNode(IdWithFirstByte(0x40), [], [], now);
    var y := NewNode(IdWithFirstByte(0x10), [], [], now);
    var z := NewNode(IdWithFirstByte(0x20), [], [], now);
    FirstByteDecides(0x10, 0x20);
    FirstByteDecides(0x20, 0x40);
    assert x.id[0] != l.self[0] && y.id[0] != l.self[0] && z.id[0] != l.self[0];
    MergesOfThree(l, x, y, z);
  }

  lemma FirstByteDecides(a: bv8, b: bv8)
    requires a < b
    ensures Rank(IdWithFirstByte(0), IdWithFirstByte(a)) < Rank(IdWithFirstByte(0), IdWithFirstByte(b))
  {
    var t := IdWithFirstByte(0);
    var x, y := Xor(t, IdWithFirstByte(a)), Xor(t, IdWithFirstByte(b));
    assert x[0] == a && y[0] == b;
    LessIsNumeric(x, y);
  }

  lemma MergesOfThree(l: Lookup, x: NodeInfo, y: NodeInfo, z: NodeInfo)
    requires l.k == 2 && x.id != l.self && y.id != l.self && z.id != l.self
    requires Rank(l.target, y.id) < Rank(l.target, z.id) < Rank(l.target, x.id)
    ensures Settle(Loose(l), [x], [y, z]) == [y, x]
    ensures Settle(Exact(l), [x], [y, z]) == [y, z]
  {
    OffersOfThree(l, x, y, z);
    SortsOfThree(l.target, x, y, z);
  }

  lemma OffersOfThree(l: Lookup, x: NodeInfo, y: NodeInfo, z: NodeInfo)
    requires l.k == 2 && x.id != l.self && y.id != l.self && z.id != l.self
    requires Rank(l.target, y.id) < Rank(l.target, z.id) < Rank(l.target, x.id)
    ensures OfferAll(Loose(l), [x], [y, z]) == [x, y]
    ensures OfferAll(Exact(l), [x], [y, z]) == [x, y, z]
  {
    var nodes := [y, z];
    assert nodes[..1] == [y] && nodes[1] == z && [y][..0] == [];
    assert OfferAll(Exact(l), [x], []) == [x] && OfferAll(Loose(l), [x], []) == [x];
    assert Offer(Exact(l), [x], y) == [x, y] && Offer(Loose(l), [x], y) == [x, y];
    assert OfferAll(Exact(l), [x], [y]) == [x, y] && OfferAll(Loose(l), [x], [y]) == [x, y];
    assert Offer(Exact(l), [x, y], z) == [x, y, z] && Offer(Loose(l), [x, y], z) == [x, y];
  }

  lemma SortsOfThree(t: NodeId, x: NodeInfo, y: NodeInfo, z: NodeInfo)
    requires Rank(t, y.id) < Rank(t, z.id) < Rank(t, x.id)
    ensures FullSort(t, [x, y], 2) == [y, x]
    ensures FullSort(t, [x, y, z], 2) == [y, z]
  {
    TwoNearest(t, [x, y], y, x, x);
    TwoNearest(t, [x, y, z], y, z, x);
  }

  /** The two nearest of a collection without repetitions, of which the rest are copies of `far`. */
  lemma TwoNearest(t: NodeId, all: seq<NodeInfo>, a: NodeInfo, b: NodeInfo, far: NodeInfo)
    requires Distinct(all) && |all| >= 2 && a in all && b in all
    requires Rank(t, a.id) < Rank(t, b.id) <= Rank(t, far.id)
    requires forall x :: x in all ==> x == a || x == b || (x == far && Rank(t, b.id) < Rank(t, far.id))
    ensures FullSort(t, all, 2) == [a, b]
  {
    assert AreNearest(t, [a, b], all, 2);
    NearestIffFullSort(t, [a, b], all, 2);
  }
}
