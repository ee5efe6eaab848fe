/**
 The routing table as a value (`src/routing/table.rs`): 256 buckets by common prefix length, and the outward
 walk of `closest_nodes` compared with sorting every node.
 */
module Routing {
  import opened Sequences
  import opened NodeIds
  import opened Addresses
  import opened Buckets
  import opened Nearest
  import opened Partitions

  datatype Table = Table(local: NodeId, k: nat, buckets: seq<Bucket>)

  /** Every entry lies in the bucket of its prefix length, and the local id is in none. */
  ghost predicate Placed(tb: Table) {
    && |tb.buckets| == ID_BITS
    && (forall i, x :: 0 <= i < ID_BITS && (x in tb.buckets[i].nodes || x in tb.buckets[i].cache) ==>
          x.id != tb.local && BucketIndex(tb.local, x.id) == i)
  }

  ghost predicate AllDistinct(tb: Table) {
    forall i :: 0 <= i < |tb.buckets| ==> Distinct(tb.buckets[i].nodes)
  }

  function ResidentRows(tb: Table): (rows: Rows)
    ensures |rows| == |tb.buckets|
  {
    seq(|tb.buckets|, i requires 0 <= i < |tb.buckets| => tb.buckets[i].nodes)
  }

  /** All residents, bucket by bucket: the snapshot of `all_nodes_serde`. */
  function AllNodes(tb: Table): seq<NodeInfo> {
    Span(ResidentRows(tb), 0, |tb.buckets|)
  }

  ghost predicate IsResident(tb: Table, x: NodeInfo)
    requires |tb.buckets| == ID_BITS
  {
    x in tb.buckets[BucketIndex(tb.local, x.id)].nodes
  }

  // ----- the table operations on values

  function InsertNode(tb: Table, node: NodeInfo, now: Instant): (Table, InsertResult)
    requires |tb.buckets| == ID_BITS && tb.k >= 1
  {
    if node.id == tb.local then
      (tb, Updated)
    else
      var i := BucketIndex(tb.local, node.id);
      var (b, result) := Insert(tb.buckets[i], tb.k, node, now);
      (tb.(buckets := tb.buckets[i := b]), result)
  }

  function EvictNode(tb: Table, failed: NodeId, node: NodeInfo): (Table, bool)
    requires |tb.buckets| == ID_BITS
  {
    var i := BucketIndex(tb.local, failed);
    var (b, evicted) := EvictAndInsert(tb.buckets[i], failed, node);
    (tb.(buckets := tb.buckets[i := b]), evicted)
  }

  function RemoveNode(tb: Table, id: NodeId): (Table, bool)
    requires |tb.buckets| == ID_BITS
  {
    var i := BucketIndex(tb.local, id);
    var (b, removed) := Remove(tb.buckets[i], id);
    (tb.(buckets := tb.buckets[i := b]), removed)
  }

  function FailNode(tb: Table, id: NodeId, maxFailures: nat): Table
    requires |tb.buckets| == ID_BITS
  {
    var i := BucketIndex(tb.local, id);
    tb.(buckets := tb.buckets[i := RecordFailure(tb.buckets[i], id, maxFailures)])
  }

  function IndexOfAddress(s: seq<NodeInfo>, addr: SocketAddr): (i: nat)
    ensures i <= |s|
    ensures i < |s| ==> addr in s[i].addresses
    ensures forall j :: 0 <= j < i ==> addr !in s[j].addresses
  {
    if s == [] then 0
    else if addr in s[0].addresses then 0
    else
      var i := IndexOfAddress(s[1..], addr);
      assert forall j :: 0 <= j < |s[1..]| ==> s[1..][j] == s[j + 1];
      1 + i
  }

  /** The first bucket from `i` on with a node at `addr`, or 256. */
  function BucketOfAddress(tb: Table, addr: SocketAddr, i: nat): (b: nat)
    requires |tb.buckets| == ID_BITS && i <= ID_BITS
    ensures i <= b <= ID_BITS
    ensures b < ID_BITS ==> IndexOfAddress(tb.buckets[b].nodes, addr) < |tb.buckets[b].nodes|
    decreases ID_BITS - i
  {
    if i == ID_BITS then i
    else if IndexOfAddress(tb.buckets[i].nodes, addr) < |tb.buckets[i].nodes| then i
    else BucketOfAddress(tb, addr, i + 1)
  }

  /** A failure at an address counts against the first resident, in bucket order, that lists it. */
  function FailAddress(tb: Table, addr: SocketAddr, maxFailures: nat): Table
    requires |tb.buckets| == ID_BITS
  {
    var i := BucketOfAddress(tb, addr, 0);
    if i < ID_BITS then
      var id := tb.buckets[i].nodes[IndexOfAddress(tb.buckets[i].nodes, addr)].id;
      tb.(buckets := tb.buckets[i := RecordFailure(tb.buckets[i], id, maxFailures)])
    else
      tb
  }

  function SeeNode(tb: Table, id: NodeId, now: Instant): Table
    requires |tb.buckets| == ID_BITS
  {
    var i := BucketIndex(tb.local, id);
    tb.(buckets := tb.buckets[i := MarkSeen(tb.buckets[i], id, now)])
  }

  /** No resident of bucket `i` before position `j` lists the address. */
  ghost predicate NoneLists(tb: Table, addr: SocketAddr, i: nat, j: nat)
    requires i < |tb.buckets| && j <= |tb.buckets[i].nodes|
  {
    forall p :: 0 <= p < j ==> addr !in tb.buckets[i].nodes[p].addresses
  }

  /** No resident of a bucket below `i` does. */
  ghost predicate NoneListsBelow(tb: Table, addr: SocketAddr, i: nat)
    requires i <= |tb.buckets|
  {
    forall b :: 0 <= b < i ==> NoneLists(tb, addr, b, |tb.buckets[b].nodes|)
  }

  lemma {:induction false} PositionOfAddress(s: seq<NodeInfo>, addr: SocketAddr, j: nat)
    requires j <= |s| && forall p :: 0 <= p < j ==> addr !in s[p].addresses
    requires j < |s| ==> addr in s[j].addresses
    ensures IndexOfAddress(s, addr) == j
  {
    if j > 0 {
      assert forall p :: 0 <= p < |s[1..]| ==> s[1..][p] == s[p + 1];
      PositionOfAddress(s[1..], addr, j - 1);
    }
  }

  /** The search for an address passes the buckets without it and stops at the first one with it. */
  lemma {:induction false} PlaceOfAddress(tb: Table, addr: SocketAddr, from: nat, i: nat)
    requires |tb.buckets| == ID_BITS && from <= i <= ID_BITS && NoneListsBelow(tb, addr, i)
    requires i < ID_BITS ==> IndexOfAddress(tb.buckets[i].nodes, addr) < |tb.buckets[i].nodes|
    ensures BucketOfAddress(tb, addr, from) == i
    decreases i - from
  {
    if from < i {
      assert NoneLists(tb, addr, from, |tb.buckets[from].nodes|);
      PositionOfAddress(tb.buckets[from].nodes, addr, |tb.buckets[from].nodes|);
      PlaceOfAddress(tb, addr, from + 1, i);
    }
  }

  /**
   A failure at an address is a failure of the first resident, by bucket and then by position, that lists it.
   */
  lemma FailAddressIsFailNode(tb: Table, addr: SocketAddr, maxFailures: nat, i: nat, j: nat)
    requires Placed(tb) && i < ID_BITS && j < |tb.buckets[i].nodes|
    requires addr in tb.buckets[i].nodes[j].addresses
    requires NoneLists(tb, addr, i, j) && NoneListsBelow(tb, addr, i)
    ensures FailAddress(tb, addr, maxFailures) == FailNode(tb, tb.buckets[i].nodes[j].id, maxFailures)
  {
    PositionOfAddress(tb.buckets[i].nodes, addr, j);
    PlaceOfAddress(tb, addr, 0, i);
    assert tb.buckets[i].nodes[j] in tb.buckets[i].nodes;
  }

  /** An address that no resident lists changes nothing. */
  lemma UnknownAddressIsIgnored(tb: Table, addr: SocketAddr, maxFailures: nat)
    requires |tb.buckets| == ID_BITS && NoneListsBelow(tb, addr, ID_BITS)
    ensures FailAddress(tb, addr, maxFailures) == tb
  {
    PlaceOfAddress(tb, addr, 0, ID_BITS);
  }

  // ----- the walk

  datatype Scan = Scan(found: seq<NodeInfo>, lo: int, hi: int)

  /** A round of the walk: the next bucket below, if any, and the next one above. */
  function NextScan(tb: Table, s: Scan): (s': Scan)
    requires |tb.buckets| == ID_BITS && -1 <= s.lo < ID_BITS && 0 <= s.hi <= ID_BITS
    ensures -1 <= s'.lo < ID_BITS && 0 <= s'.hi <= ID_BITS
  {
    var low := if s.lo >= 0 then Scan(s.found + tb.buckets[s.lo].nodes, s.lo - 1, s.hi) else s;
    if low.hi < ID_BITS then Scan(low.found + tb.buckets[low.hi].nodes, low.lo, low.hi + 1) else low
  }

  function Walk(tb: Table, count: nat, s: Scan): Scan
    requires |tb.buckets| == ID_BITS
    requires -1 <= s.lo < ID_BITS && 0 <= s.hi <= ID_BITS
    decreases s.lo + 1 + ID_BITS - s.hi
  {
    if |s.found| < count && (s.lo >= 0 || s.hi < ID_BITS) then Walk(tb, count, NextScan(tb, s)) else s
  }

  lemma WalkUnfolds(tb: Table, count: nat, s: Scan)
    requires |tb.buckets| == ID_BITS && -1 <= s.lo < ID_BITS && 0 <= s.hi <= ID_BITS
    ensures Walk(tb, count, s) ==
              if |s.found| < count && (s.lo >= 0 || s.hi < ID_BITS) then Walk(tb, count, NextScan(tb, s)) else s
  {
  }

  function ScanFor(tb: Table, t: NodeId, count: nat): Scan
    requires |tb.buckets| == ID_BITS
  {
    var center := BucketIndex(tb.local, t);
    Walk(tb, count, Scan([], center, center + 1))
  }

  function ClosestNodes(tb: Table, t: NodeId, count: nat): seq<NodeInfo>
    requires |tb.buckets| == ID_BITS
  {
    FullSort(t, ScanFor(tb, t, count).found, count)
  }

  // ----- the residents as rows

  function PlaceOf(local: NodeId): (place: Place)
    ensures forall id {:trigger place(id)} :: place(id) == BucketIndex(local, id)
  {
    (id: NodeId) => BucketIndex(local, id)
  }

  /** The bucket's nodes are closer to `t` than all nodes of higher buckets; those of other buckets are farther. */
  predicate IsAhead(local: NodeId, t: NodeId, b: nat) {
    b < ID_BITS && Bit(t, b) != Bit(local, b)
  }

  function AheadOf(local: NodeId, t: NodeId): (ahead: nat -> bool)
    ensures forall b {:trigger ahead(b)} :: ahead(b) == IsAhead(local, t, b)
  {
    (b: nat) => IsAhead(local, t, b)
  }

  lemma RowsInPlace(tb: Table)
    requires Placed(tb)
    ensures InPlace(ResidentRows(tb), PlaceOf(tb.local))
  {
  }

  lemma AllNodesAreResidents(tb: Table)
    requires Placed(tb)
    ensures forall x :: x in AllNodes(tb) <==> IsResident(tb, x)
  {
    RowsInPlace(tb);
    SpanMembers(ResidentRows(tb), PlaceOf(tb.local), 0, ID_BITS);
  }

  lemma AllNodesDistinct(tb: Table)
    requires Placed(tb) && AllDistinct(tb)
    ensures Distinct(AllNodes(tb))
  {
    RowsInPlace(tb);
    SpanDistinct(ResidentRows(tb), PlaceOf(tb.local), 0, ID_BITS);
  }

  lemma RowsAligned(tb: Table, t: NodeId)
    requires Placed(tb)
    ensures Aligned(t, ResidentRows(tb), PlaceOf(tb.local), AheadOf(tb.local, t))
  {
    var rows, place, ahead := ResidentRows(tb), PlaceOf(tb.local), AheadOf(tb.local, t);
    forall x, y | StandsIn(rows, place, x, 0, |rows|) && StandsIn(rows, place, y, 0, |rows|)
      && place(x.id) < place(y.id)
      ensures if ahead(place(x.id)) then Rank(t, x.id) < Rank(t, y.id) else Rank(t, y.id) < Rank(t, x.id)
    {
      ResidentsAligned(tb, t, x, y);
    }
  }

  lemma ResidentsAligned(tb: Table, t: NodeId, x: NodeInfo, y: NodeInfo)
    requires Placed(tb) && IsResident(tb, x) && IsResident(tb, y)
    requires BucketIndex(tb.local, x.id) < BucketIndex(tb.local, y.id)
    ensures if IsAhead(tb.local, t, BucketIndex(tb.local, x.id)) then Rank(t, x.id) < Rank(t, y.id)
            else Rank(t, y.id) < Rank(t, x.id)
  {
    BucketsAlignWithDistance(tb.local, t, x.id, y.id);
  }

  // ----- what the walk has seen

  ghost predicate Scanned(tb: Table, s: Scan)
    requires |tb.buckets| == ID_BITS
  {
    Covers(ResidentRows(tb), PlaceOf(tb.local), s.lo, s.hi, s.found)
  }

  lemma ScannedLow(tb: Table, s: Scan)
    requires Placed(tb) && Scanned(tb, s) && s.lo >= 0
    ensures Scanned(tb, Scan(s.found + tb.buckets[s.lo].nodes, s.lo - 1, s.hi))
  {
    RowsInPlace(tb);
    CoversAfterLow(ResidentRows(tb), PlaceOf(tb.local), s.lo, s.hi, s.found);
  }

  lemma ScannedHigh(tb: Table, s: Scan)
    requires Placed(tb) && Scanned(tb, s) && s.hi < ID_BITS
    ensures Scanned(tb, Scan(s.found + tb.buckets[s.hi].nodes, s.lo, s.hi + 1))
  {
    RowsInPlace(tb);
    CoversAfterHigh(ResidentRows(tb), PlaceOf(tb.local), s.lo, s.hi, s.found);
  }

  lemma NextIsScanned(tb: Table, s: Scan)
    requires Placed(tb) && Scanned(tb, s) && s.lo < ID_BITS
    ensures Scanned(tb, NextScan(tb, s))
  {
    var low := s;
    if s.lo >= 0 {
      ScannedLow(tb, s);
      low := Scan(s.found + tb.buckets[s.lo].nodes, s.lo - 1, s.hi);
    }
    if low.hi < ID_BITS { ScannedHigh(tb, low); }
  }

  lemma {:induction false} WalkScans(tb: Table, count: nat, s: Scan)
    requires Placed(tb) && Scanned(tb, s) && s.lo < ID_BITS
    ensures var w := Walk(tb, count, s);
            && Scanned(tb, w) && w.lo <= s.lo && s.hi <= w.hi
            && (|s.found| < count && s.lo >= 0 ==> w.lo < s.lo)
            && (|w.found| >= count || (w.lo == -1 && w.hi == ID_BITS))
    decreases s.lo + 1 + ID_BITS - s.hi
  {
    if |s.found| < count && (s.lo >= 0 || s.hi < ID_BITS) {
      NextIsScanned(tb, s);
      WalkScans(tb, count, NextScan(tb, s));
    }
  }

  lemma ScanScans(tb: Table, t: NodeId, count: nat)
    requires Placed(tb)
    ensures var w, c := ScanFor(tb, t, count), BucketIndex(tb.local, t);
            && -1 <= w.lo < w.hi <= ID_BITS && c < w.hi
            && (count == 0 ==> w.found == [])
            && (count > 0 ==> Scanned(tb, w) && w.lo < c)
            && (|w.found| >= count || (w.lo == -1 && w.hi == ID_BITS))
  {
    var c := BucketIndex(tb.local, t);
    CoversNone(ResidentRows(tb), PlaceOf(tb.local), c);
    WalkScans(tb, count, Scan([], c, c + 1));
  }

  // ----- how far the walk goes

  /** Where the cursors of a walk from `center` stand after `r` rounds. */
  function LoAfter(center: nat, r: nat): int {
    if center < r then -1 else center - r
  }

  function HiAfter(center: nat, r: nat): nat {
    if center + 1 + r > ID_BITS then ID_BITS else center + 1 + r
  }

  /** The residents within `r` rounds of `center`. */
  function Within(tb: Table, center: nat, r: nat): seq<NodeInfo>
    requires |tb.buckets| == ID_BITS && center < ID_BITS
  {
    Span(ResidentRows(tb), LoAfter(center, r) + 1, HiAfter(center, r))
  }

  /** After `r` rounds there are enough residents or no further buckets. */
  ghost predicate EnoughAfter(tb: Table, center: nat, count: nat, r: nat)
    requires |tb.buckets| == ID_BITS && center < ID_BITS
  {
    |Within(tb, center, r)| >= count || (LoAfter(center, r) == -1 && HiAfter(center, r) == ID_BITS)
  }

  /** The walk made `r` rounds, the fewest after which there are enough. */
  ghost predicate WentRounds(tb: Table, center: nat, count: nat, w: Scan, r: nat)
    requires |tb.buckets| == ID_BITS && center < ID_BITS
  {
    && w.lo == LoAfter(center, r) && w.hi == HiAfter(center, r) && |w.found| == |Within(tb, center, r)|
    && EnoughAfter(tb, center, count, r)
    && (forall m :: 0 <= m < r ==> !EnoughAfter(tb, center, count, m))
  }

  lemma NextIsWithin(tb: Table, center: nat, s: Scan, r: nat)
    requires |tb.buckets| == ID_BITS && center < ID_BITS
    requires s.lo == LoAfter(center, r) && s.hi == HiAfter(center, r) && |s.found| == |Within(tb, center, r)|
    ensures var s' := NextScan(tb, s);
            s'.lo == LoAfter(center, r + 1) && s'.hi == HiAfter(center, r + 1)
            && |s'.found| == |Within(tb, center, r + 1)|
  {
    var rows := ResidentRows(tb);
    var lo := LoAfter(center, r + 1);
    if s.lo >= 0 { SpanBefore(rows, s.lo, s.hi); }
    if s.hi < ID_BITS { SpanNext(rows, lo + 1, s.hi); }
  }

  lemma {:induction false} WalkWentRounds(tb: Table, center: nat, count: nat, s: Scan, r: nat) returns (total: nat)
    requires |tb.buckets| == ID_BITS && center < ID_BITS && r <= ID_BITS
    requires s.lo == LoAfter(center, r) && s.hi == HiAfter(center, r) && |s.found| == |Within(tb, center, r)|
    requires forall m :: 0 <= m < r ==> !EnoughAfter(tb, center, count, m)
    ensures WentRounds(tb, center, count, Walk(tb, count, s), total)
    decreases s.lo + 1 + ID_BITS - s.hi
  {
    WalkUnfolds(tb, count, s);
    if |s.found| < count && (s.lo >= 0 || s.hi < ID_BITS) {
      NextIsWithin(tb, center, s, r);
      total := WalkWentRounds(tb, center, count, NextScan(tb, s), r + 1);
    } else {
      total := r;
    }
  }

  /** The walk takes in one bucket on each side of the target's per round, and stops as soon as it has `count` nodes. */
  lemma ScanWentRounds(tb: Table, t: NodeId, count: nat)
    requires |tb.buckets| == ID_BITS
    ensures exists r :: WentRounds(tb, BucketIndex(tb.local, t), count, ScanFor(tb, t, count), r)
  {
    var c := BucketIndex(tb.local, t);
    var r := WalkWentRounds(tb, c, count, Scan([], c, c + 1), 0);
    assert WentRounds(tb, c, count, ScanFor(tb, t, count), r);
  }

  // ----- how good the answer is

  /** The residents by how they compare with those the walk has seen. */
  ghost function PartsFor(tb: Table, t: NodeId, w: Scan): Parts
    requires |tb.buckets| == ID_BITS && -1 <= w.lo < w.hi <= ID_BITS
  {
    PartsOf(ResidentRows(tb), AheadOf(tb.local, t), w.lo, w.hi)
  }

  /** The residents the walk left above it. */
  ghost function Above(tb: Table, w: Scan): seq<NodeInfo>
    requires |tb.buckets| == ID_BITS
    requires 0 <= w.hi <= ID_BITS
  {
    Span(ResidentRows(tb), w.hi, ID_BITS)
  }

  /** Scanned residents that are closer to `t` than any resident of an unscanned bucket above. */
  ghost function Ahead(tb: Table, t: NodeId, w: Scan): seq<NodeInfo>
    requires |tb.buckets| == ID_BITS
    requires -1 <= w.lo < w.hi <= ID_BITS
  {
    Span(Part(ResidentRows(tb), AheadOf(tb.local, t), true), w.lo + 1, w.hi)
  }

  lemma ScanSorts(tb: Table, t: NodeId, w: Scan)
    requires Placed(tb) && Scanned(tb, w) && w.lo < BucketIndex(tb.local, t)
    ensures var p := PartsFor(tb, t, w);
            && p.Ordered(t)
            && SortByDistance(t, w.found) == p.Sort(t).Known()
            && SortByDistance(t, AllNodes(tb)) == p.Sort(t).All()
  {
    RowsInPlace(tb);
    RowsAligned(tb, t);
    forall b | 0 <= b <= w.lo ensures !AheadOf(tb.local, t)(b) { TargetBits(tb.local, t, b); }
    SortedParts(t, ResidentRows(tb), PlaceOf(tb.local), AheadOf(tb.local, t), w.lo, w.hi, w.found);
  }

  /** The names of two of the parts, and what a walk to both ends leaves unscanned. */
  lemma PartsAre(tb: Table, t: NodeId, w: Scan)
    requires |tb.buckets| == ID_BITS && -1 <= w.lo < w.hi <= ID_BITS
    ensures PartsFor(tb, t, w).above == Above(tb, w) && PartsFor(tb, t, w).ahead == Ahead(tb, t, w)
    ensures w.lo == -1 && w.hi == ID_BITS ==> PartsFor(tb, t, w).above == [] && PartsFor(tb, t, w).below == []
  {
  }

  lemma ScanExactIff(tb: Table, t: NodeId, count: nat, w: Scan)
    requires Placed(tb) && Scanned(tb, w) && w.lo < BucketIndex(tb.local, t)
    requires |w.found| >= count || (w.lo == -1 && w.hi == ID_BITS)
    ensures FullSort(t, w.found, count) == FullSort(t, AllNodes(tb), count)
            <==> Above(tb, w) == [] || |Ahead(tb, t, w)| >= count
  {
    ScanSorts(tb, t, w);
    PartsAre(tb, t, w);
    ExactCutIff(t, PartsFor(tb, t, w), w.found, AllNodes(tb), count);
  }

  /**
   `closest_nodes` returns exactly the `count` nearest of all residents, in the order a full sort gives, if and
   only if the walk left no resident above it, or at least `count` scanned residents lie in buckets at whose bit
   the target differs from the local id.  Both can be read off the bucket sizes before the sort.
   */
  lemma ClosestNodesExactIff(tb: Table, t: NodeId, count: nat)
    requires Placed(tb)
    ensures var w := ScanFor(tb, t, count);
            && -1 <= w.lo < w.hi <= ID_BITS
            && (ClosestNodes(tb, t, count) == FullSort(t, AllNodes(tb), count)
                <==> Above(tb, w) == [] || |Ahead(tb, t, w)| >= count)
  {
    ScanScans(tb, t, count);
    if count > 0 { ScanExactIff(tb, t, count, ScanFor(tb, t, count)); }
  }

  /**
   What `closest_nodes` always returns: residents in order of distance, `count` of them if the table has that
   many, each no more often than the table has it and, if residents are distinct, at strictly increasing
   distance; and any resident it leaves out although it is closer than a returned one is among those the walk
   did not reach above the target's own bucket.
   */
  lemma ClosestNodesSound(tb: Table, t: NodeId, count: nat)
    requires Placed(tb)
    ensures var r, w := ClosestNodes(tb, t, count), ScanFor(tb, t, count);
            && BucketIndex(tb.local, t) < w.hi <= ID_BITS
            && Sorted(t, r) && multiset(r) <= multiset(AllNodes(tb))
            && (AllDistinct(tb) ==> Distinct(r) && StrictlySorted(t, r))
            && |r| == (if |AllNodes(tb)| < count then |AllNodes(tb)| else count)
            && (forall x, y :: x in AllNodes(tb) && x !in r && y in r && Rank(t, x.id) < Rank(t, y.id)
                  ==> x in Above(tb, w))
  {
    ScanScans(tb, t, count);
    if count > 0 {
      var w := ScanFor(tb, t, count);
      ScanSound(tb, t, count, w);
      if AllDistinct(tb) { ScanDistinct(tb, t, count, w); }
    }
  }

  lemma AnswersAreResidents(tb: Table, t: NodeId, count: nat)
    requires Placed(tb)
    ensures forall x :: x in ClosestNodes(tb, t, count) ==> IsResident(tb, x) && x.id != tb.local
  {
    AnswersAreNodes(tb, t, count);
    AllNodesAreResidents(tb);
  }

  lemma AnswersAreNodes(tb: Table, t: NodeId, count: nat)
    requires Placed(tb)
    ensures forall x :: x in ClosestNodes(tb, t, count) ==> x in AllNodes(tb)
  {
    ClosestNodesSound(tb, t, count);
    PartIsContained(ClosestNodes(tb, t, count), AllNodes(tb));
  }

  lemma PartIsContained(r: seq<NodeInfo>, s: seq<NodeInfo>)
    requires multiset(r) <= multiset(s)
    ensures forall x :: x in r ==> x in s
  {
    forall x | x in r ensures x in s {
      assert x in multiset(r) && x in multiset(s);
    }
  }

  lemma ScanSound(tb: Table, t: NodeId, count: nat, w: Scan)
    requires Placed(tb) && Scanned(tb, w) && w.lo < BucketIndex(tb.local, t)
    requires |w.found| >= count || (w.lo == -1 && w.hi == ID_BITS)
    ensures var r := FullSort(t, w.found, count);
            && Sorted(t, r) && multiset(r) <= multiset(AllNodes(tb))
            && |r| == (if |AllNodes(tb)| < count then |AllNodes(tb)| else count)
            && (forall x, y :: x in AllNodes(tb) && x !in r && y in r && Rank(t, x.id) < Rank(t, y.id)
                  ==> x in Above(tb, w))
  {
    ScanSorts(tb, t, w);
    PartsAre(tb, t, w);
    SoundCut(t, PartsFor(tb, t, w), w.found, AllNodes(tb), count);
  }

  lemma ScanDistinct(tb: Table, t: NodeId, count: nat, w: Scan)
    requires Placed(tb) && AllDistinct(tb) && Scanned(tb, w) && w.lo < BucketIndex(tb.local, t)
    ensures Distinct(FullSort(t, w.found, count)) && StrictlySorted(t, FullSort(t, w.found, count))
  {
    AllNodesDistinct(tb);
    ScanSorts(tb, t, w);
    DistinctCut(t, PartsFor(tb, t, w).Sort(t), w.found, AllNodes(tb), count);
  }

  /** Asking about the local id itself is always exact. */
  lemma ExactAtLocalId(tb: Table, count: nat)
    requires Placed(tb) && count > 0
    ensures ClosestNodes(tb, tb.local, count) == FullSort(tb.local, AllNodes(tb), count)
  {
    CplIsFirstDifference(tb.local, tb.local);
    ScanScans(tb, tb.local, count);
    ClosestNodesExactIff(tb, tb.local, count);
  }

  /** So is asking when the target's own bucket alone holds `count` nodes. */
  lemma ExactWhenBucketSuffices(tb: Table, t: NodeId, count: nat)
    requires Placed(tb) && count > 0
    requires |tb.buckets[BucketIndex(tb.local, t)].nodes| >= count
    ensures ClosestNodes(tb, t, count) == FullSort(t, AllNodes(tb), count)
  {
    if t == tb.local {
      ExactAtLocalId(tb, count);
    } else {
      ScanScans(tb, t, count);
      ClosestNodesExactIff(tb, t, count);
      TargetBits(tb.local, t, BucketIndex(tb.local, t));
      AheadContains(tb, t, ScanFor(tb, t, count), BucketIndex(tb.local, t));
    }
  }

  lemma AheadContains(tb: Table, t: NodeId, w: Scan, c: nat)
    requires |tb.buckets| == ID_BITS && -1 <= w.lo < c < w.hi <= ID_BITS && IsAhead(tb.local, t, c)
    ensures |tb.buckets[c].nodes| <= |Ahead(tb, t, w)|
  {
    PartContains(ResidentRows(tb), AheadOf(tb.local, t), true, w.lo + 1, w.hi, c);
  }

  /** And asking for at least as many nodes as there are. */
  lemma ExactWhenFewNodes(tb: Table, t: NodeId, count: nat)
    requires Placed(tb) && count > 0
    requires |AllNodes(tb)| <= count
    ensures ClosestNodes(tb, t, count) == FullSort(t, AllNodes(tb), count)
  {
    var w := ScanFor(tb, t, count);
    ScanScans(tb, t, count);
    ScanSorts(tb, t, w);
    ClosestNodesExactIff(tb, t, count);
    SortKeepsOrdered(t, PartsFor(tb, t, w));
    var p := PartsFor(tb, t, w).Sort(t);
    assert |w.found| == |p.Known()| && |AllNodes(tb)| == |p.All()|;
  }

  /**
   Asking for as many nodes as a resident's own id has entries, or fewer, gives entries of that id, in bucket
   order.  With `count` 1 this is the lookup of the ping target; if the id is resident twice, asking for two
   gives it twice.
   */
  lemma ResidentFindsItself(tb: Table, id: NodeId, count: nat)
    requires Placed(tb)
    requires 1 <= count <= |Only(tb.buckets[BucketIndex(tb.local, id)].nodes, id)|
    ensures ClosestNodes(tb, id, count) == Only(tb.buckets[BucketIndex(tb.local, id)].nodes, id)[..count]
  {
    var nodes := tb.buckets[BucketIndex(tb.local, id)].nodes;
    OnlyIsShorter(nodes, id);
    ExactWhenBucketSuffices(tb, id, count);
    OwnEntries(tb, id);
    OwnEntriesFirst(id, AllNodes(tb));
    PrefixOfPrefix(Only(nodes, id), SortByDistance(id, AllNodes(tb)), count);
  }

  lemma OwnEntries(tb: Table, id: NodeId)
    requires Placed(tb)
    ensures Only(AllNodes(tb), id) == Only(tb.buckets[BucketIndex(tb.local, id)].nodes, id)
  {
    RowsInPlace(tb);
    OnlyOfSpan(ResidentRows(tb), PlaceOf(tb.local), 0, ID_BITS, id);
  }

  lemma PrefixOfPrefix(r: seq<NodeInfo>, s: seq<NodeInfo>, count: nat)
    requires r <= s && count <= |r|
    ensures Truncate(s, count) == r[..count]
  {
  }

  /** The ping handler looks a resident up by its id and finds its first entry. */
  lemma PingTargetIsFound(tb: Table, id: NodeId)
    requires Placed(tb)
    requires HasId(tb.buckets[BucketIndex(tb.local, id)].nodes, id)
    ensures var nodes := tb.buckets[BucketIndex(tb.local, id)].nodes;
            ClosestNodes(tb, id, 1) == [nodes[IndexOf(nodes, id)]]
  {
    OnlyStartsAtIndex(tb.buckets[BucketIndex(tb.local, id)].nodes, id);
    ResidentFindsItself(tb, id, 1);
  }

  lemma {:induction false} OnlyIsShorter(s: seq<NodeInfo>, id: NodeId)
    ensures |Only(s, id)| <= |s|
  {
    if s != [] { OnlyIsShorter(s[..|s| - 1], id); }
  }

  lemma {:induction false} OnlyOfOthers(s: seq<NodeInfo>, id: NodeId, other: NodeId)
    requires other != id
    ensures Only(Without(s, id), other) == Only(s, other)
  {
    if s != [] {
      var front, last := s[..|s| - 1], s[|s| - 1];
      OnlyOfOthers(front, id, other);
      OnlyWithLast(Without(front, id), last, other);
    }
  }

  /** Sorted from an id's own point of view, its entries come first, in their order. */
  lemma OwnEntriesFirst(id: NodeId, all: seq<NodeInfo>)
    ensures Only(all, id) <= SortByDistance(id, all)
  {
    var own, others := Only(all, id), Without(all, id);
    OnlyMembers(all, id);
    forall x ensures Only(all, x) == Only(own + others, x) {
      OnlyConcat(own, others, x);
      if x == id {
        OnlyOfOneId(own, id);
        OnlyOfNone(others, id);
      } else {
        OnlyOfOthers(all, id, x);
        OnlyOfNone(own, x);
      }
    }
    SortDependsOnOnly(id, all, own + others);
    RankOfSelf(id);
    SortOfBlocks(id, own, others);
    SortOfSorted(id, own);
  }

  lemma RankOfSelf(t: NodeId)
    ensures Rank(t, t) == 0
  {
    ZeroValue(Xor(t, t), ID_BYTES);
  }

  lemma {:induction false} ZeroValue(d: Distance, n: nat)
    requires n <= ID_BYTES
    requires forall i :: 0 <= i < n ==> d[i] == 0
    ensures ValueOf(d, n) == 0
  {
    if n > 0 { ZeroValue(d, n - 1); }
  }

  // ----- the comment on closest_nodes promises more than the walk delivers

  function IdWithFirstByte(b: bv8): NodeId {
    seq(ID_BYTES, i => if i == 0 then b else 0)
  }

  function MissTable(far: NodeInfo, near: NodeInfo): Table {
    Table(IdWithFirstByte(0), 1, seq(ID_BITS, i =>
      if i == 1 then Bucket([far], []) else if i == 2 then Bucket([near], []) else Bucket([], [])))
  }

  /**
   Seen from local id 00.., target 80.. and residents 40.. and 20..: the walk stops after finding 40.. and
   returns it, although 20.. is nearer to the target.
   */
  lemma ClosestNodesCanMiss(now: Instant)
    ensures var far := NewNode(IdWithFirstByte(0x40), [], [], now);
            var near := NewNode(IdWithFirstByte(0x20), [], [], now);
            var tb, t := MissTable(far, near), IdWithFirstByte(0x80);
            && Placed(tb) && AllDistinct(tb) && near in AllNodes(tb)
            && Rank(t, near.id) < Rank(t, far.id)
            && ClosestNodes(tb, t, 1) == [far]
  {
    var local, t := IdWithFirstByte(0), IdWithFirstByte(0x80);
    var far := NewNode(IdWithFirstByte(0x40), [], [], now);
    var near := NewNode(IdWithFirstByte(0x20), [], [], now);
    FirstBytes();
    MissTablePlaced(far, near);
    BucketsAlignWithDistance(local, t, far.id, near.id);
    MissWalk(far, near);
  }

  lemma FirstBytes()
    ensures Cpl(IdWithFirstByte(0), IdWithFirstByte(0x40)) == 1
    ensures Cpl(IdWithFirstByte(0), IdWithFirstByte(0x20)) == 2
    ensures Cpl(IdWithFirstByte(0), IdWithFirstByte(0x80)) == 0
    ensures Bit(IdWithFirstByte(0x80), 1) == Bit(IdWithFirstByte(0), 1)
    ensures IdWithFirstByte(0) != IdWithFirstByte(0x40) && IdWithFirstByte(0) != IdWithFirstByte(0x20)
  {
    FirstByteCpl(0, 0x40, 1);
    FirstByteCpl(0, 0x20, 2);
    FirstByteCpl(0, 0x80, 0);
    FirstByteBit(0x80, 1);
    FirstByteBit(0, 1);
    assert IdWithFirstByte(0)[0] == 0 && IdWithFirstByte(0x40)[0] == 0x40 && IdWithFirstByte(0x20)[0] == 0x20;
  }

  lemma MissTablePlaced(far: NodeInfo, near: NodeInfo)
    requires Cpl(IdWithFirstByte(0), far.id) == 1 && Cpl(IdWithFirstByte(0), near.id) == 2
    ensures Placed(MissTable(far, near)) && AllDistinct(MissTable(far, near))
    ensures near in AllNodes(MissTable(far, near))
  {
    CplIsFirstDifference(IdWithFirstByte(0), far.id);
    CplIsFirstDifference(IdWithFirstByte(0), near.id);
    assert near in MissTable(far, near).buckets[2].nodes;
    AllNodesAreResidents(MissTable(far, near));
  }

  lemma MissWalk(far: NodeInfo, near: NodeInfo)
    requires BucketIndex(IdWithFirstByte(0), IdWithFirstByte(0x80)) == 0
    ensures ClosestNodes(MissTable(far, near), IdWithFirstByte(0x80), 1) == [far]
  {
    var tb := MissTable(far, near);
    assert [] + tb.buckets[0].nodes + tb.buckets[1].nodes == [far];
    assert NextScan(tb, Scan([], 0, 1)) == Scan([far], -1, 2);
    assert ScanFor(tb, IdWithFirstByte(0x80), 1) == Scan([far], -1, 2);
    assert SortByDistance(IdWithFirstByte(0x80), [far]) == [far];
  }

  lemma FirstByteBit(b: bv8, i: nat)
    requires i < 8
    ensures Bit(IdWithFirstByte(b), i) <==> b & Mask(i) != 0
  {
  }

  lemma FirstByteCpl(a: bv8, b: bv8, n: nat)
    requires n < 8
    requires forall i :: 0 <= i < n ==> (a & Mask(i) != 0) == (b & Mask(i) != 0)
    requires (a & Mask(n) != 0) != (b & Mask(n) != 0)
    ensures Cpl(IdWithFirstByte(a), IdWithFirstByte(b)) == n
  {
    var x, y := IdWithFirstByte(a), IdWithFirstByte(b);
    forall p | 0 <= p < n ensures Bit(x, p) == Bit(y, p) {
      FirstByteBit(a, p);
      FirstByteBit(b, p);
    }
    FirstByteBit(a, n);
    FirstByteBit(b, n);
    CplFromSplit(x, y, n);
  }
}
