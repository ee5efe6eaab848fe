/**
 Nodes kept in rows, one row for each place, and what sorting some of the rows by distance has to do with sorting
 all of them.  The routing table's rows are the residents of its buckets.
 */
module Partitions {
  import opened Sequences
  import opened NodeIds
  import opened Buckets
  import opened Nearest

  type Rows = seq<seq<NodeInfo>>
  type Place = NodeId -> nat

  /** The nodes of rows `i` up to, but not including, `j`. */
  function Span(rows: Rows, i: nat, j: nat): seq<NodeInfo>
    requires i <= j <= |rows|
    decreases j - i
  {
    if i == j then [] else Span(rows, i, j - 1) + rows[j - 1]
  }

  ghost predicate InPlace(rows: Rows, place: Place) {
    forall i, x :: 0 <= i < |rows| && x in rows[i] ==> place(x.id) == i
  }

  /** `x` stands in its row, which is one of `i` up to `j`. */
  ghost predicate StandsIn(rows: Rows, place: Place, x: NodeInfo, i: int, j: int) {
    i <= place(x.id) < j && place(x.id) < |rows| && x in rows[place(x.id)]
  }

  lemma {:induction false} SpanMembers(rows: Rows, place: Place, i: nat, j: nat)
    requires InPlace(rows, place) && i <= j <= |rows|
    ensures forall x :: x in Span(rows, i, j) <==> StandsIn(rows, place, x, i, j)
    decreases j - i
  {
    if i < j {
      SpanMembers(rows, place, i, j - 1);
      forall x ensures x in Span(rows, i, j) <==> StandsIn(rows, place, x, i, j) {
        assert x in Span(rows, i, j) <==> x in Span(rows, i, j - 1) || x in rows[j - 1];
      }
    }
  }

  lemma {:induction false} SpanDistinct(rows: Rows, place: Place, i: nat, j: nat)
    requires InPlace(rows, place) && i <= j <= |rows|
    requires forall r :: 0 <= r < |rows| ==> Distinct(rows[r])
    ensures Distinct(Span(rows, i, j))
    decreases j - i
  {
    if i < j {
      SpanDistinct(rows, place, i, j - 1);
      SpanMembers(rows, place, i, j - 1);
      var front, last := Span(rows, i, j - 1), rows[j - 1];
      forall p, q | 0 <= p < |front| && 0 <= q < |last| ensures front[p].id != last[q].id {
        assert front[p] in front && last[q] in last;
      }
    }
  }

  lemma {:induction false} SpanContains(rows: Rows, i: nat, j: nat, r: nat)
    requires i <= r < j <= |rows|
    ensures |rows[r]| <= |Span(rows, i, j)|
    decreases j - i
  {
    if r < j - 1 { SpanContains(rows, i, j - 1, r); }
  }

  /** The entries of an id in its row. */
  function Own(rows: Rows, place: Place, id: NodeId): seq<NodeInfo> {
    if place(id) < |rows| then Only(rows[place(id)], id) else []
  }

  /** The entries a range of rows has for an id: those of its row, or none. */
  function OnlyIn(rows: Rows, place: Place, id: NodeId, i: int, j: int): seq<NodeInfo> {
    When(i <= place(id) < j, Own(rows, place, id))
  }

  function When<T>(c: bool, s: seq<T>): seq<T> {
    if c then s else []
  }

  lemma WhenJoins<T>(a: bool, b: bool, s: seq<T>)
    requires !(a && b)
    ensures When(a, s) + When(b, s) == When(a || b, s)
  {
  }

  lemma OnlyOfRow(rows: Rows, place: Place, r: nat, id: NodeId)
    requires InPlace(rows, place) && r < |rows|
    ensures Only(rows[r], id) == OnlyIn(rows, place, id, r, r + 1)
  {
    if place(id) != r {
      forall p | 0 <= p < |rows[r]| ensures rows[r][p].id != id { assert rows[r][p] in rows[r]; }
      OnlyOfNone(rows[r], id);
    }
  }

  lemma OnlyOfNext(rows: Rows, place: Place, front: seq<NodeInfo>, i: nat, j: nat, id: NodeId)
    requires InPlace(rows, place) && i <= j < |rows|
    requires Only(front, id) == OnlyIn(rows, place, id, i, j)
    ensures Only(front + rows[j], id) == OnlyIn(rows, place, id, i, j + 1)
  {
    OnlyOfRow(rows, place, j, id);
    OnlyConcat(front, rows[j], id);
    WhenJoins(i <= place(id) < j, j <= place(id) < j + 1, Own(rows, place, id));
  }

  lemma SpanNext(rows: Rows, i: nat, j: nat)
    requires i <= j < |rows|
    ensures Span(rows, i, i) == [] && Span(rows, i, j + 1) == Span(rows, i, j) + rows[j]
  {
  }

  lemma OnlyOfLonger(rows: Rows, place: Place, i: nat, j: nat, id: NodeId)
    requires InPlace(rows, place) && i <= j < |rows|
    requires Only(Span(rows, i, j), id) == OnlyIn(rows, place, id, i, j)
    ensures Only(Span(rows, i, j + 1), id) == OnlyIn(rows, place, id, i, j + 1)
  {
    SpanNext(rows, i, j);
    OnlyOfNext(rows, place, Span(rows, i, j), i, j, id);
  }

  lemma {:induction false} SpanBefore(rows: Rows, i: nat, j: nat)
    requires i < j <= |rows|
    ensures Span(rows, i, j) == rows[i] + Span(rows, i + 1, j)
    decreases j - i
  {
    if i + 1 < j {
      SpanBefore(rows, i, j - 1);
      Associative(rows[i], Span(rows, i + 1, j - 1), rows[j - 1]);
    } else {
      assert rows[i] + [] == rows[i] && [] + rows[i] == rows[i];
    }
  }

  lemma {:induction false} OnlyOfSpan(rows: Rows, place: Place, i: nat, j: nat, id: NodeId)
    requires InPlace(rows, place) && i <= j <= |rows|
    ensures Only(Span(rows, i, j), id) == OnlyIn(rows, place, id, i, j)
    decreases j - i
  {
    if i == j {
      OnlyOfNone([], id);
    } else {
      OnlyOfSpan(rows, place, i, j - 1, id);
      OnlyOfLonger(rows, place, i, j - 1, id);
    }
  }

  // ----- nodes collected from a range of rows in some other order

  /** `s` has of each id the entries that rows `i` up to `j` have. */
  ghost predicate IsSpan(s: seq<NodeInfo>, rows: Rows, place: Place, i: int, j: int) {
    forall id :: Only(s, id) == OnlyIn(rows, place, id, i, j)
  }

  /** `found` consists of rows `lo + 1` up to `hi`, the nodes of each row in their order. */
  ghost predicate Covers(rows: Rows, place: Place, lo: int, hi: int, found: seq<NodeInfo>) {
    -1 <= lo < hi <= |rows| && IsSpan(found, rows, place, lo + 1, hi)
  }

  lemma CoversNone(rows: Rows, place: Place, r: nat)
    requires r < |rows|
    ensures Covers(rows, place, r, r + 1, [])
  {
    forall id ensures Only([], id) == OnlyIn(rows, place, id, r + 1, r + 1) {
      OnlyOfNone([], id);
    }
  }

  lemma CoversAfterLow(rows: Rows, place: Place, lo: int, hi: int, found: seq<NodeInfo>)
    requires InPlace(rows, place) && lo >= 0 && Covers(rows, place, lo, hi, found)
    ensures Covers(rows, place, lo - 1, hi, found + rows[lo])
  {
    forall id ensures Only(found + rows[lo], id) == OnlyIn(rows, place, id, lo, hi) {
      assert Only(found, id) == OnlyIn(rows, place, id, lo + 1, hi);
      OnlyConcat(found, rows[lo], id);
      OnlyOfRow(rows, place, lo, id);
      WhenJoins(lo + 1 <= place(id) < hi, lo <= place(id) < lo + 1, Own(rows, place, id));
    }
  }

  lemma CoversAfterHigh(rows: Rows, place: Place, lo: int, hi: int, found: seq<NodeInfo>)
    requires InPlace(rows, place) && hi < |rows| && Covers(rows, place, lo, hi, found)
    ensures Covers(rows, place, lo, hi + 1, found + rows[hi])
  {
    forall id ensures Only(found + rows[hi], id) == OnlyIn(rows, place, id, lo + 1, hi + 1) {
      assert Only(found, id) == OnlyIn(rows, place, id, lo + 1, hi);
      OnlyOfNext(rows, place, found, lo + 1, hi, id);
    }
  }

  // ----- the parts into which a covered range splits the rows

  /** The rows that are, or are not, closer to the target than every row above. */
  function Part(rows: Rows, ahead: nat -> bool, which: bool): (part: Rows)
    ensures |part| == |rows|
  {
    seq(|rows|, i requires 0 <= i < |rows| => if ahead(i) == which then rows[i] else [])
  }

  /** Rows are ordered by distance as wholes: a row that is ahead comes before all rows above it, any other after. */
  ghost predicate Aligned(t: NodeId, rows: Rows, place: Place, ahead: nat -> bool) {
    forall x, y :: StandsIn(rows, place, x, 0, |rows|) && StandsIn(rows, place, y, 0, |rows|)
      && place(x.id) < place(y.id)
      ==> if ahead(place(x.id)) then Rank(t, x.id) < Rank(t, y.id) else Rank(t, y.id) < Rank(t, x.id)
  }

  /** Every entry of one sequence is closer to `t` than every entry of the other. */
  ghost predicate AllCloser(t: NodeId, a: seq<NodeInfo>, b: seq<NodeInfo>) {
    forall x, y :: x in a && y in b ==> Rank(t, x.id) < Rank(t, y.id)
  }

  lemma PartMembers(rows: Rows, place: Place, ahead: nat -> bool, which: bool, i: nat, j: nat)
    requires InPlace(rows, place) && i <= j <= |rows|
    ensures InPlace(Part(rows, ahead, which), place)
    ensures forall x :: x in Span(Part(rows, ahead, which), i, j)
              <==> StandsIn(rows, place, x, i, j) && ahead(place(x.id)) == which
  {
    SpanMembers(Part(rows, ahead, which), place, i, j);
  }

  lemma PartContains(rows: Rows, ahead: nat -> bool, which: bool, i: nat, j: nat, r: nat)
    requires i <= r < j <= |rows| && ahead(r) == which
    ensures |rows[r]| <= |Span(Part(rows, ahead, which), i, j)|
  {
    SpanContains(Part(rows, ahead, which), i, j, r);
  }

  lemma OnlyOfPart(rows: Rows, place: Place, ahead: nat -> bool, which: bool, i: nat, j: nat, id: NodeId)
    requires InPlace(rows, place) && i <= j <= |rows|
    ensures Only(Span(Part(rows, ahead, which), i, j), id) ==
              When(i <= place(id) < j && ahead(place(id)) == which, Own(rows, place, id))
  {
    PartMembers(rows, place, ahead, which, i, j);
    OnlyOfSpan(Part(rows, ahead, which), place, i, j, id);
    OnlyOfNone([], id);
  }

  /**
   The four parts: covered rows that are ahead, rows above the covered ones, covered rows that are not ahead, and
   rows below.
   */
  datatype Parts = Parts(ahead: seq<NodeInfo>, above: seq<NodeInfo>, behind: seq<NodeInfo>, below: seq<NodeInfo>) {
    function Known(): seq<NodeInfo> {
      ahead + behind
    }

    function All(): seq<NodeInfo> {
      ahead + (above + (behind + below))
    }

    /** They follow one another in distance. */
    ghost predicate Ordered(t: NodeId) {
      && AllCloser(t, ahead, above) && AllCloser(t, ahead, behind) && AllCloser(t, ahead, below)
      && AllCloser(t, above, behind) && AllCloser(t, above, below) && AllCloser(t, behind, below)
    }

    function Sort(t: NodeId): Parts {
      Parts(SortByDistance(t, ahead), SortByDistance(t, above), SortByDistance(t, behind), SortByDistance(t, below))
    }
  }

  function PartsOf(rows: Rows, ahead: nat -> bool, lo: int, hi: int): Parts
    requires -1 <= lo < hi <= |rows|
  {
    Parts(Span(Part(rows, ahead, true), lo + 1, hi), Span(rows, hi, |rows|),
          Span(Part(rows, ahead, false), lo + 1, hi), Span(rows, 0, lo + 1))
  }

  lemma PartsAreOrdered(t: NodeId, rows: Rows, place: Place, ahead: nat -> bool, lo: int, hi: int)
    requires InPlace(rows, place) && -1 <= lo < hi <= |rows|
    requires Aligned(t, rows, place, ahead) && forall r :: 0 <= r <= lo ==> !ahead(r)
    ensures PartsOf(rows, ahead, lo, hi).Ordered(t)
  {
    PartMembers(rows, place, ahead, true, lo + 1, hi);
    PartMembers(rows, place, ahead, false, lo + 1, hi);
    SpanMembers(rows, place, hi, |rows|);
    SpanMembers(rows, place, 0, lo + 1);
  }

  /** `s` has of each id the entries that those of rows `i` up to `j` have that are, or are not, ahead. */
  ghost predicate IsPart(s: seq<NodeInfo>, rows: Rows, place: Place, ahead: nat -> bool, which: bool, i: int, j: int) {
    forall id :: Only(s, id) == if ahead(place(id)) == which then OnlyIn(rows, place, id, i, j) else []
  }

  lemma SpanIsSpan(rows: Rows, place: Place, i: nat, j: nat)
    requires InPlace(rows, place) && i <= j <= |rows|
    ensures IsSpan(Span(rows, i, j), rows, place, i, j)
  {
    forall id ensures Only(Span(rows, i, j), id) == OnlyIn(rows, place, id, i, j) {
      OnlyOfSpan(rows, place, i, j, id);
    }
  }

  lemma PartIsPart(rows: Rows, place: Place, ahead: nat -> bool, which: bool, i: nat, j: nat)
    requires InPlace(rows, place) && i <= j <= |rows|
    ensures IsPart(Span(Part(rows, ahead, which), i, j), rows, place, ahead, which, i, j)
  {
    forall id ensures Only(Span(Part(rows, ahead, which), i, j), id)
              == if ahead(place(id)) == which then OnlyIn(rows, place, id, i, j) else []
    {
      OnlyOfPart(rows, place, ahead, which, i, j, id);
    }
  }

  /** The entries of each id are in one of the parts. */
  ghost predicate Splits(rows: Rows, place: Place, ahead: nat -> bool, lo: int, hi: int, p: Parts) {
    && IsPart(p.ahead, rows, place, ahead, true, lo + 1, hi)
    && IsPart(p.behind, rows, place, ahead, false, lo + 1, hi)
    && IsSpan(p.above, rows, place, hi, |rows|)
    && IsSpan(p.below, rows, place, 0, lo + 1)
  }

  lemma PartsSplit(rows: Rows, place: Place, ahead: nat -> bool, lo: int, hi: int)
    requires InPlace(rows, place) && -1 <= lo < hi <= |rows|
    ensures Splits(rows, place, ahead, lo, hi, PartsOf(rows, ahead, lo, hi))
  {
    PartIsPart(rows, place, ahead, true, lo + 1, hi);
    PartIsPart(rows, place, ahead, false, lo + 1, hi);
    SpanIsSpan(rows, place, hi, |rows|);
    SpanIsSpan(rows, place, 0, lo + 1);
  }

  lemma PartsAreAll(rows: Rows, place: Place, ahead: nat -> bool, lo: int, hi: int, p: Parts,
                    all: seq<NodeInfo>, found: seq<NodeInfo>)
    requires -1 <= lo < hi <= |rows| && Splits(rows, place, ahead, lo, hi, p)
    requires IsSpan(found, rows, place, lo + 1, hi) && IsSpan(all, rows, place, 0, |rows|)
    ensures SameOnly(found, p.Known()) && SameOnly(all, p.All())
  {
    forall id ensures Only(found, id) == Only(p.Known(), id) && Only(all, id) == Only(p.All(), id) {
      PartsJoin(p, id, Own(rows, place, id), ahead(place(id)), place(id), lo, hi, |rows|);
    }
  }

  lemma PartsJoin(p: Parts, id: NodeId, own: seq<NodeInfo>, ahead: bool, at: nat, lo: int, hi: int, n: nat)
    requires lo < hi <= n && (n <= at ==> own == [])
    requires Only(p.ahead, id) == if lo < at < hi && ahead then own else []
    requires Only(p.above, id) == if hi <= at < n then own else []
    requires Only(p.behind, id) == if lo < at < hi && !ahead then own else []
    requires Only(p.below, id) == if at <= lo then own else []
    ensures Only(p.Known(), id) == if lo < at < hi then own else []
    ensures Only(p.All(), id) == own
  {
    OnlyOfConcats(p, id);
    OneOfFour(Only(p.ahead, id), Only(p.above, id), Only(p.behind, id), Only(p.below, id),
              own, ahead, at, lo, hi, n);
  }

  lemma OnlyOfConcats(p: Parts, id: NodeId)
    ensures Only(p.Known(), id) == Only(p.ahead, id) + Only(p.behind, id)
    ensures Only(p.All(), id) == Only(p.ahead, id) + (Only(p.above, id) + (Only(p.behind, id) + Only(p.below, id)))
  {
    OnlyConcat(p.ahead, p.behind, id);
    OnlyConcat(p.behind, p.below, id);
    OnlyConcat(p.above, p.behind + p.below, id);
    OnlyConcat(p.ahead, p.above + (p.behind + p.below), id);
  }

  /** One of the four sequences is all of `own`, and the others are empty. */
  lemma OneOfFour<T>(a: seq<T>, b: seq<T>, c: seq<T>, d: seq<T>, own: seq<T>,
                     ahead: bool, at: nat, lo: int, hi: int, n: nat)
    requires lo < hi <= n && (n <= at ==> own == [])
    requires a == if lo < at < hi && ahead then own else []
    requires b == if hi <= at < n then own else []
    requires c == if lo < at < hi && !ahead then own else []
    requires d == if at <= lo then own else []
    ensures a + c == if lo < at < hi then own else []
    ensures a + (b + (c + d)) == own
  {
    if at <= lo {
      assert d == own && a == b == c == [];
    } else if at < hi {
      assert b == d == [];
    } else {
      assert b == own && a == c == d == [];
    }
  }

  /** Sorting the covered nodes, and sorting all, sorts the parts one by one. */
  lemma SortedParts(t: NodeId, rows: Rows, place: Place, ahead: nat -> bool, lo: int, hi: int, found: seq<NodeInfo>)
    requires InPlace(rows, place) && Covers(rows, place, lo, hi, found)
    requires Aligned(t, rows, place, ahead) && forall r :: 0 <= r <= lo ==> !ahead(r)
    ensures var p := PartsOf(rows, ahead, lo, hi);
            && p.Ordered(t)
            && SortByDistance(t, found) == p.Sort(t).Known()
            && SortByDistance(t, Span(rows, 0, |rows|)) == p.Sort(t).All()
  {
    var p, all := PartsOf(rows, ahead, lo, hi), Span(rows, 0, |rows|);
    PartsAreOrdered(t, rows, place, ahead, lo, hi);
    PartsSplit(rows, place, ahead, lo, hi);
    SpanIsSpan(rows, place, 0, |rows|);
    PartsAreAll(rows, place, ahead, lo, hi, p, all, found);
    SortDependsOnOnly(t, found, p.Known());
    SortDependsOnOnly(t, all, p.All());
    SortOfParts(t, p);
  }

  lemma SortOfParts(t: NodeId, p: Parts)
    requires p.Ordered(t)
    ensures SortByDistance(t, p.Known()) == p.Sort(t).Known()
    ensures SortByDistance(t, p.All()) == p.Sort(t).All()
  {
    SortOfBlocks(t, p.ahead, p.behind);
    SortOfBlocks(t, p.ahead, p.above + (p.behind + p.below));
    SortOfBlocks(t, p.above, p.behind + p.below);
    SortOfBlocks(t, p.behind, p.below);
  }

  // ----- cutting the sorted parts

  /** Cutting what is known gives what cutting all of it gives. */
  lemma PrefixIff(t: NodeId, p: Parts, count: nat)
    requires p.Ordered(t)
    requires |p.Known()| >= count || (p.above == [] && p.below == [])
    ensures Truncate(p.Known(), count) == Truncate(p.All(), count) <==> p.above == [] || |p.ahead| >= count
  {
    var known, all := p.Known(), p.All();
    if |p.ahead| >= count {
      assert known[..count] == p.ahead[..count] == all[..count];
    } else if p.above == [] {
      assert all == known + p.below;
      if |known| >= count { assert all[..count] == known[..count]; } else { assert all == known; }
    } else {
      var n := |p.ahead|;
      assert known[n] == p.behind[0] && all[n] == p.above[0];
      assert p.above[0] in p.above && p.behind[0] in p.behind;
      assert known[..count][n] != all[..count][n];
    }
  }

  /** What a cut of what is known is in any case. */
  lemma PrefixSound(t: NodeId, p: Parts, count: nat)
    requires p.Ordered(t) && Sorted(t, p.Known())
    requires |p.Known()| >= count || (p.above == [] && p.below == [])
    ensures var r := Truncate(p.Known(), count);
            && Sorted(t, r) && multiset(r) <= multiset(p.All())
            && |r| == (if |p.All()| < count then |p.All()| else count)
            && (forall x, y :: x in p.All() && x !in r && y in r && Rank(t, x.id) < Rank(t, y.id) ==> x in p.above)
  {
    var known := p.Known();
    var r := Truncate(known, count);
    PrefixIsPart(known, r);
    forall x, y | x in known && x !in r && y in r ensures Rank(t, y.id) <= Rank(t, x.id) {
      LeftOutIsLater(t, known, r, x, y);
    }
  }

  lemma LeftOutIsLater(t: NodeId, s: seq<NodeInfo>, r: seq<NodeInfo>, x: NodeInfo, y: NodeInfo)
    requires Sorted(t, s) && r <= s && x in s && x !in r && y in r
    ensures Rank(t, y.id) <= Rank(t, x.id)
  {
    var rest := s[|r|..];
    assert s == r + rest;
    var p :| 0 <= p < |rest| && rest[p] == x;
    var q :| 0 <= q < |r| && r[q] == y;
    assert s[|r| + p] == x && s[q] == y;
  }

  lemma PrefixIsPart(s: seq<NodeInfo>, r: seq<NodeInfo>)
    requires r <= s
    ensures multiset(r) <= multiset(s) && forall x :: x in r ==> x in s
  {
    assert s == r + s[|r|..];
  }

  /** What is known of distinct nodes is distinct. */
  lemma KnownIsDistinct(p: Parts)
    requires Distinct(p.All())
    ensures Distinct(p.Known())
  {
    var known, all := p.Known(), p.All();
    assert forall i :: 0 <= i < |known| ==> known[i] == all[if i < |p.ahead| then i else i + |p.above|];
  }

  lemma SortKeepsOrdered(t: NodeId, p: Parts)
    requires p.Ordered(t)
    ensures p.Sort(t).Ordered(t)
    ensures |p.Sort(t).ahead| == |p.ahead| && |p.Sort(t).above| == |p.above|
    ensures |p.Sort(t).behind| == |p.behind| && |p.Sort(t).below| == |p.below|
    ensures forall x :: x in p.Sort(t).above <==> x in p.above
  {
    SortSorts(t, p.ahead);
    SortSorts(t, p.above);
    SortSorts(t, p.behind);
    SortSorts(t, p.below);
  }

  /** A cut of the sorted covered nodes, when all nodes are distinct. */
  lemma DistinctCut(t: NodeId, p: Parts, found: seq<NodeInfo>, all: seq<NodeInfo>, count: nat)
    requires Distinct(all)
    requires SortByDistance(t, found) == p.Known() && SortByDistance(t, all) == p.All()
    ensures Distinct(FullSort(t, found, count)) && StrictlySorted(t, FullSort(t, found, count))
  {
    SortSorts(t, all);
    KnownIsDistinct(p);
    SortSorts(t, found);
    DistinctSortedIsStrict(t, p.Known());
    PrefixIsStrict(t, p.Known(), FullSort(t, found, count));
  }

  lemma PrefixIsStrict(t: NodeId, s: seq<NodeInfo>, r: seq<NodeInfo>)
    requires StrictlySorted(t, s) && Distinct(s) && r <= s
    ensures StrictlySorted(t, r) && Distinct(r)
  {
    assert forall i :: 0 <= i < |r| ==> r[i] == s[i];
  }

  /** When a cut of the sorted covered nodes is a cut of all sorted nodes. */
  lemma ExactCutIff(t: NodeId, p: Parts, found: seq<NodeInfo>, all: seq<NodeInfo>, count: nat)
    requires p.Ordered(t)
    requires SortByDistance(t, found) == p.Sort(t).Known() && SortByDistance(t, all) == p.Sort(t).All()
    requires |found| >= count || (p.above == [] && p.below == [])
    ensures FullSort(t, found, count) == FullSort(t, all, count) <==> p.above == [] || |p.ahead| >= count
  {
    SortKeepsOrdered(t, p);
    PrefixIff(t, p.Sort(t), count);
  }

  /** What a cut of the sorted covered nodes is in any case. */
  lemma SoundCut(t: NodeId, p: Parts, found: seq<NodeInfo>, all: seq<NodeInfo>, count: nat)
    requires p.Ordered(t)
    requires SortByDistance(t, found) == p.Sort(t).Known() && SortByDistance(t, all) == p.Sort(t).All()
    requires |found| >= count || (p.above == [] && p.below == [])
    ensures var r := FullSort(t, found, count);
            && Sorted(t, r) && multiset(r) <= multiset(all)
            && |r| == (if |all| < count then |all| else count)
            && (forall x, y :: x in all && x !in r && y in r && Rank(t, x.id) < Rank(t, y.id) ==> x in p.above)
  {
    SortKeepsOrdered(t, p);
    SortSorts(t, found);
    SortSorts(t, all);
    PrefixSound(t, p.Sort(t), count);
  }
}
