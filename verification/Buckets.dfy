/**
 One k-bucket of the routing table (`src/routing/bucket.rs`): residents in admission order, a replacement
 cache, failure counting and address merging.  These are the operations as functions on the value of a
 bucket, with what each of them keeps; the class `KBucket` performs them in place.
 */
module Buckets {
  import opened Sequences
  import opened NodeIds
  import opened Addresses

  const MAX_PEER_ADDRS := 8

  type Instant = nat

  datatype NodeInfo = NodeInfo(
    id: NodeId, publicKey: seq<bv8>, addresses: seq<SocketAddr>, lastSeen: Instant, failCount: nat)
  {
    function MarkSeen(now: Instant): NodeInfo {
      this.(lastSeen := now, failCount := 0)
    }

    /** `fail_count.saturating_add(1)` on a `u8`. */
    function RecordFailure(): NodeInfo {
      this.(failCount := if failCount >= 255 then 255 else failCount + 1)
    }
  }

  function NewNode(id: NodeId, publicKey: seq<bv8>, addresses: seq<SocketAddr>, now: Instant): NodeInfo {
    NodeInfo(id, publicKey, addresses, now, 0)
  }

  datatype InsertResult = Inserted | BucketFull(lrs: NodeId) | Updated

  datatype Bucket = Bucket(nodes: seq<NodeInfo>, cache: seq<NodeInfo>)

  // ----- sequences of nodes, looked at through their ids

  predicate HasId(s: seq<NodeInfo>, id: NodeId) {
    exists i :: 0 <= i < |s| && s[i].id == id
  }

  predicate Distinct(s: seq<NodeInfo>) {
    forall i, j :: 0 <= i < j < |s| ==> s[i].id != s[j].id
  }

  predicate DisjointIds(s: seq<NodeInfo>, t: seq<NodeInfo>) {
    forall i, j :: 0 <= i < |s| && 0 <= j < |t| ==> s[i].id != t[j].id
  }

  /** The position of the first entry with this id, or the length. */
  function IndexOf(s: seq<NodeInfo>, id: NodeId): (i: nat)
    ensures i <= |s|
    ensures i < |s| ==> s[i].id == id
    ensures forall j :: 0 <= j < i ==> s[j].id != id
    ensures i < |s| <==> HasId(s, id)
  {
    if s == [] then 0
    else if s[0].id == id then 0
    else
      var i := IndexOf(s[1..], id);
      assert forall j :: 0 <= j < |s[1..]| ==> s[1..][j] == s[j + 1];
      1 + i
  }

  /** `retain(|n| n.node_id != id)`. */
  function Without(s: seq<NodeInfo>, id: NodeId): (r: seq<NodeInfo>)
    ensures |r| <= |s|
    ensures !HasId(r, id)
    ensures forall x :: x in r <==> x in s && x.id != id
    ensures !HasId(s, id) ==> r == s
  {
    if s == [] then []
    else
      var front, last := s[..|s| - 1], s[|s| - 1];
      var r := Without(front, id);
      assert s == front + [last];
      assert forall i :: 0 <= i < |r| ==> r[i] in front;
      if last.id == id then r else r + [last]
  }

  lemma DistinctWithNew(s: seq<NodeInfo>, x: NodeInfo)
    requires Distinct(s) && !HasId(s, x.id)
    ensures Distinct(s + [x])
  {
  }

  lemma {:induction false} WithoutKeepsDistinct(s: seq<NodeInfo>, id: NodeId)
    requires Distinct(s)
    ensures Distinct(Without(s, id))
  {
    if s != [] {
      var front, last := s[..|s| - 1], s[|s| - 1];
      WithoutKeepsDistinct(front, id);
      var r := Without(front, id);
      assert forall i :: 0 <= i < |r| ==> r[i] in front;
      if last.id != id { DistinctWithNew(r, last); }
    }
  }

  // ----- address merging

  predicate NoDuplicates<T(==)>(s: seq<T>) {
    forall i, j :: 0 <= i < j < |s| ==> s[i] != s[j]
  }

  function AddMissing(have: seq<SocketAddr>, more: seq<SocketAddr>): seq<SocketAddr>
    decreases |more|
  {
    if more == [] then have
    else AddMissing(if more[0] in have then have else have + [more[0]], more[1..])
  }

  function Select(s: seq<SocketAddr>, lan: bool): (r: seq<SocketAddr>)
    ensures |r| <= |s|
    ensures forall a :: a in r <==> a in s && IsLan(a) == lan
    ensures NoDuplicates(s) ==> NoDuplicates(r)
  {
    if s == [] then []
    else
      var r := Select(s[..|s| - 1], lan);
      if IsLan(s[|s| - 1]) == lan then r + [s[|s| - 1]] else r
  }

  /** The stable sort by `!is_lan_addr`. */
  function LanFirst(s: seq<SocketAddr>): seq<SocketAddr> {
    Select(s, true) + Select(s, false)
  }

  function MergeAddresses(have: seq<SocketAddr>, more: seq<SocketAddr>): seq<SocketAddr> {
    Truncate(LanFirst(AddMissing(have, more)), MAX_PEER_ADDRS)
  }

  lemma {:induction false} AddMissingIsUnion(have: seq<SocketAddr>, more: seq<SocketAddr>)
    ensures have <= AddMissing(have, more)
    ensures forall a :: a in AddMissing(have, more) <==> a in have || a in more
    ensures NoDuplicates(have) <==> NoDuplicates(AddMissing(have, more))
    decreases |more|
  {
    if more != [] {
      AddMissingIsUnion(if more[0] in have then have else have + [more[0]], more[1..]);
      assert more == [more[0]] + more[1..];
      if NoDuplicates(AddMissing(have, more)) {
        assert forall i :: 0 <= i < |have| ==> have[i] == AddMissing(have, more)[i];
      }
    }
  }

  /**
   A merge invents nothing, keeps at most eight addresses without repeating one, puts LAN addresses first,
   loses nothing while there is room, and gives up a LAN address only when all eight kept are LAN addresses.
   */
  lemma MergeKeepsLanAddresses(have: seq<SocketAddr>, more: seq<SocketAddr>)
    ensures var r := MergeAddresses(have, more);
            && |r| <= MAX_PEER_ADDRS
            && (forall a :: a in r ==> a in have || a in more)
            && (NoDuplicates(have) ==> NoDuplicates(r))
            && (forall i, j :: 0 <= i < j < |r| && IsLan(r[j]) ==> IsLan(r[i]))
            && (forall a :: (a in have || a in more) && a !in r ==>
                  |r| == MAX_PEER_ADDRS && (IsLan(a) ==> forall i :: 0 <= i < |r| ==> IsLan(r[i])))
  {
    AddMissingIsUnion(have, more);
    var all := AddMissing(have, more);
    var lan, wan := Select(all, true), Select(all, false);
    var r := MergeAddresses(have, more);
    assert forall i :: 0 <= i < |lan| ==> IsLan(lan[i]);
    assert forall i :: 0 <= i < |wan| ==> !IsLan(wan[i]);
    forall a | (a in have || a in more) && a !in r
      ensures |r| == MAX_PEER_ADDRS && (IsLan(a) ==> forall i :: 0 <= i < |r| ==> IsLan(r[i]))
    {
      assert a in lan + wan;
      if IsLan(a) {
        var p :| 0 <= p < |lan| && lan[p] == a;
        assert (lan + wan)[p] == a;
        assert p >= |r|;
      }
    }
  }

  /** `x` occurs in `s` before any occurrence of `a`. */
  ghost predicate Before(s: seq<SocketAddr>, x: SocketAddr, a: SocketAddr) {
    exists i :: 0 <= i < |s| && s[i] == x && a !in s[..i + 1]
  }

  lemma BeforeInLonger(s: seq<SocketAddr>, more: seq<SocketAddr>, x: SocketAddr, a: SocketAddr)
    requires Before(s, x, a)
    ensures Before(s + more, x, a)
  {
    var i :| 0 <= i < |s| && s[i] == x && a !in s[..i + 1];
    assert (s + more)[..i + 1] == s[..i + 1];
  }

  /** What comes before an address that a prefix has comes before it there. */
  lemma BeforeInPrefix(s: seq<SocketAddr>, r: seq<SocketAddr>, x: SocketAddr, a: SocketAddr)
    requires Before(s, x, a) && r <= s && a in r
    ensures Before(r, x, a)
  {
    var i :| 0 <= i < |s| && s[i] == x && a !in s[..i + 1];
    var p :| 0 <= p < |r| && r[p] == a;
    assert forall q :: 0 <= q <= i ==> s[q] == s[..i + 1][q] && s[q] != a;
    assert s[p] == a;
    assert r[..i + 1] == s[..i + 1];
  }

  lemma BeforeWithoutRepeat(s: seq<SocketAddr>, y: SocketAddr, more: seq<SocketAddr>, x: SocketAddr, a: SocketAddr)
    requires Before(s + [y] + more, x, a) && y in s
    ensures Before(s + more, x, a)
  {
    var all, rest := s + [y] + more, s + more;
    var i :| 0 <= i < |all| && all[i] == x && a !in all[..i + 1];
    if i < |s| {
      assert all[..i + 1] == rest[..i + 1];
    } else if i == |s| {
      var p :| 0 <= p < |s| && s[p] == y;
      assert all[..i + 1] == s + [y] && rest[..p + 1] == s[..p + 1];
      assert rest[p] == x;
    } else {
      assert rest[i - 1] == x;
      assert all[..i + 1] == s + [y] + more[..i - |s|];
      assert rest[..i] == s + more[..i - |s|];
    }
  }

  lemma {:induction false} AddMissingKeepsOrder(have: seq<SocketAddr>, more: seq<SocketAddr>,
                                                x: SocketAddr, a: SocketAddr)
    requires Before(have + more, x, a)
    ensures Before(AddMissing(have, more), x, a)
    decreases |more|
  {
    if more == [] {
      assert have + more == have;
    } else {
      assert have + more == have + [more[0]] + more[1..];
      if more[0] in have {
        BeforeWithoutRepeat(have, more[0], more[1..], x, a);
        AddMissingKeepsOrder(have, more[1..], x, a);
      } else {
        AddMissingKeepsOrder(have + [more[0]], more[1..], x, a);
      }
    }
  }

  lemma {:induction false} SelectKeepsOrder(s: seq<SocketAddr>, lan: bool, x: SocketAddr, a: SocketAddr)
    requires Before(s, x, a) && IsLan(x) == lan
    ensures Before(Select(s, lan), x, a)
  {
    var n := |s| - 1;
    var front, r := s[..n], Select(s[..n], lan);
    var i :| 0 <= i < |s| && s[i] == x && a !in s[..i + 1];
    if i < n {
      assert front[..i + 1] == s[..i + 1];
      SelectKeepsOrder(front, lan, x, a);
      BeforeInLonger(r, if IsLan(s[n]) == lan then [s[n]] else [], x, a);
      assert r + [] == r;
    } else {
      assert s[..i + 1] == s && s == front + [s[n]];
      assert a !in r;
      var all := r + [x];
      assert all[|r|] == x && all[..|r| + 1] == all;
    }
  }

  /** Among addresses of one kind, what came before a kept address is kept before it. */
  lemma MergeKeepsOrder(have: seq<SocketAddr>, more: seq<SocketAddr>, x: SocketAddr, a: SocketAddr)
    requires IsLan(x) == IsLan(a) && Before(have + more, x, a)
    requires a in MergeAddresses(have, more)
    ensures Before(MergeAddresses(have, more), x, a)
  {
    var all := AddMissing(have, more);
    AddMissingKeepsOrder(have, more, x, a);
    SelectKeepsOrder(all, IsLan(x), x, a);
    var lan, wan := Select(all, true), Select(all, false);
    if IsLan(x) {
      BeforeInLonger(lan, wan, x, a);
    } else {
      BeforeBehind(lan, wan, x, a);
    }
    BeforeInPrefix(lan + wan, MergeAddresses(have, more), x, a);
  }

  lemma BeforeBehind(front: seq<SocketAddr>, s: seq<SocketAddr>, x: SocketAddr, a: SocketAddr)
    requires Before(s, x, a) && a !in front
    ensures Before(front + s, x, a)
  {
    var i :| 0 <= i < |s| && s[i] == x && a !in s[..i + 1];
    var all := front + s;
    assert all[|front| + i] == x;
    assert all[..|front| + i + 1] == front + s[..i + 1];
  }

  // ----- the bucket operations on values

  /** Keep the newest `max` entries. */
  function TrimOldest<T>(s: seq<T>, max: nat): seq<T> {
    if |s| > max then s[|s| - max..] else s
  }

  function AddToCache(cache: seq<NodeInfo>, node: NodeInfo, max: nat): seq<NodeInfo> {
    TrimOldest(Without(cache, node.id) + [node], max)
  }

  function Insert(b: Bucket, k: nat, node: NodeInfo, now: Instant): (Bucket, InsertResult)
    requires k >= 1
  {
    var i := IndexOf(b.nodes, node.id);
    if i < |b.nodes| then
      var merged := MergeAddresses(b.nodes[i].addresses, node.addresses);
      (b.(nodes := b.nodes[i := b.nodes[i].MarkSeen(now).(addresses := merged)]), Updated)
    else if |b.nodes| < k then
      (b.(nodes := b.nodes + [node]), Inserted)
    else
      (b.(cache := AddToCache(b.cache, node, k)), BucketFull(b.nodes[0].id))
  }

  function EvictAndInsert(b: Bucket, failed: NodeId, node: NodeInfo): (Bucket, bool) {
    var i := IndexOf(b.nodes, failed);
    if i < |b.nodes| then
      (Bucket(RemoveAt(b.nodes, i) + [node], Without(b.cache, node.id)), true)
    else
      (b, false)
  }

  function Remove(b: Bucket, id: NodeId): (Bucket, bool) {
    var i := IndexOf(b.nodes, id);
    if i < |b.nodes| then
      if b.cache == [] then
        (b.(nodes := RemoveAt(b.nodes, i)), true)
      else
        var last := |b.cache| - 1;
        (Bucket(RemoveAt(b.nodes, i) + [b.cache[last]], b.cache[..last]), true)
    else
      (b, false)
  }

  function RecordFailure(b: Bucket, id: NodeId, maxFailures: nat): Bucket {
    var i := IndexOf(b.nodes, id);
    if i < |b.nodes| then
      var failed := b.nodes[i].RecordFailure();
      var counted := b.(nodes := b.nodes[i := failed]);
      if failed.failCount >= maxFailures then Remove(counted, id).0 else counted
    else
      b
  }

  function MarkSeen(b: Bucket, id: NodeId, now: Instant): Bucket {
    var i := IndexOf(b.nodes, id);
    if i < |b.nodes| then b.(nodes := b.nodes[i := b.nodes[i].MarkSeen(now)]) else b
  }

  // ----- what each operation does

  /**
   `r` is what merging `more` into `have` may give: nothing invented, at most eight addresses without repeating one,
   LAN addresses first, nothing lost while there is room, and a LAN address given up only for LAN addresses; among
   those of one kind, what came before a kept address is kept before it.
   */
  ghost predicate IsMerge(have: seq<SocketAddr>, more: seq<SocketAddr>, r: seq<SocketAddr>) {
    && |r| <= 8
    && (forall a :: a in r ==> a in have || a in more)
    && (NoDuplicates(have) ==> NoDuplicates(r))
    && (forall i, j :: 0 <= i < j < |r| && IsLan(r[j]) ==> IsLan(r[i]))
    && (forall a :: (a in have || a in more) && a !in r ==>
          |r| == 8 && (IsLan(a) ==> forall i :: 0 <= i < |r| ==> IsLan(r[i])))
    && (forall x, a :: x != a && IsLan(x) == IsLan(a) && Before(have + more, x, a) && a in r ==> Before(r, x, a))
  }

  /**
   A contact with a resident refreshes its first entry in place, with the addresses merged, and touches no other
   entry.
   */
  lemma InsertUpdates(b: Bucket, k: nat, node: NodeInfo, now: Instant, i: nat)
    requires k >= 1 && i < |b.nodes| && b.nodes[i].id == node.id
    requires forall j :: 0 <= j < i ==> b.nodes[j].id != node.id
    ensures var (after, result) := Insert(b, k, node, now);
            && result == Updated && after.cache == b.cache && |after.nodes| == |b.nodes|
            && (forall j :: 0 <= j < |b.nodes| && j != i ==> after.nodes[j] == b.nodes[j])
            && after.nodes[i].id == node.id && after.nodes[i].publicKey == b.nodes[i].publicKey
            && after.nodes[i].lastSeen == now && after.nodes[i].failCount == 0
            && IsMerge(b.nodes[i].addresses, node.addresses, after.nodes[i].addresses)
  {
    assert IndexOf(b.nodes, node.id) == i;
    MergeIsMerge(b.nodes[i].addresses, node.addresses);
  }

  lemma MergeIsMerge(have: seq<SocketAddr>, more: seq<SocketAddr>)
    ensures IsMerge(have, more, MergeAddresses(have, more))
  {
    MergeKeepsLanAddresses(have, more);
    var r := MergeAddresses(have, more);
    forall x, a | x != a && IsLan(x) == IsLan(a) && Before(have + more, x, a) && a in r ensures Before(r, x, a) {
      MergeKeepsOrder(have, more, x, a);
    }
  }

  /** A new node goes last while there is room; a full bucket puts it into the cache and names its first resident. */
  lemma InsertAdmits(b: Bucket, k: nat, node: NodeInfo, now: Instant)
    requires k >= 1 && forall j :: 0 <= j < |b.nodes| ==> b.nodes[j].id != node.id
    ensures var (after, result) := Insert(b, k, node, now);
            if |b.nodes| < k then
              result == Inserted && after.nodes == b.nodes + [node] && after.cache == b.cache
            else
              && result == BucketFull(b.nodes[0].id) && after.nodes == b.nodes
              && IsCacheWith(b.cache, node, k, after.cache)
  {
    if |b.nodes| >= k { CacheTakesNewest(b.cache, node, k); }
  }

  /**
   `r` is the cache after taking `node`: it goes last, an older entry of it is dropped, the others keep their order,
   and only when there are more than `max` entries are the oldest of them given up.
   */
  ghost predicate IsCacheWith(cache: seq<NodeInfo>, node: NodeInfo, max: nat, r: seq<NodeInfo>) {
    && 0 < |r| <= max && r[|r| - 1] == node
    && (forall i :: 0 <= i < |r| - 1 ==> r[i] in cache && r[i].id != node.id)
    && (Distinct(cache) ==> InOrderOf(cache, r[..|r| - 1]))
    && (forall x :: x in cache && x.id != node.id && x !in r ==>
          |r| == max && (Distinct(cache) ==>
            forall i :: 0 <= i < |r| - 1 ==> IndexOf(cache, x.id) < IndexOf(cache, r[i].id)))
  }

  /** The entries of `s` stand in the order they have in `all`. */
  ghost predicate InOrderOf(all: seq<NodeInfo>, s: seq<NodeInfo>) {
    forall i, j :: 0 <= i < j < |s| ==> IndexOf(all, s[i].id) < IndexOf(all, s[j].id)
  }

  lemma {:induction false} WithoutInOrder(s: seq<NodeInfo>, id: NodeId)
    requires Distinct(s)
    ensures InOrderOf(s, Without(s, id))
  {
    if s != [] {
      var front, last := s[..|s| - 1], s[|s| - 1];
      assert s == front + [last];
      WithoutInOrder(front, id);
      InOrderWithLast(front, last, Without(front, id));
    }
  }

  lemma InOrderWithLast(front: seq<NodeInfo>, last: NodeInfo, kept: seq<NodeInfo>)
    requires Distinct(front + [last]) && InOrderOf(front, kept) && forall x :: x in kept ==> x in front
    ensures InOrderOf(front + [last], kept) && InOrderOf(front + [last], kept + [last])
  {
    var s := front + [last];
    forall i | 0 <= i < |kept| ensures IndexOf(s, kept[i].id) == IndexOf(front, kept[i].id) < |front| {
      assert kept[i] in kept;
      IndexInFront(front, last, kept[i]);
    }
    assert s[|front|] == last;
    IndexIs(s, |front|);
    LastInOrder(s, kept, last);
  }

  lemma LastInOrder(all: seq<NodeInfo>, s: seq<NodeInfo>, x: NodeInfo)
    requires InOrderOf(all, s) && forall i :: 0 <= i < |s| ==> IndexOf(all, s[i].id) < IndexOf(all, x.id)
    ensures InOrderOf(all, s + [x])
  {
  }

  lemma IndexInFront(front: seq<NodeInfo>, last: NodeInfo, x: NodeInfo)
    requires x in front
    ensures IndexOf(front + [last], x.id) == IndexOf(front, x.id) < |front|
  {
    var i :| 0 <= i < |front| && front[i] == x;
    var s := front + [last];
    assert s[IndexOf(front, x.id)].id == x.id;
    assert forall j :: 0 <= j < |front| ==> s[j] == front[j];
  }

  /** Of a sequence cut in two, the entries of one part stand before those of the other in any common order. */
  lemma CutInOrder(all: seq<NodeInfo>, older: seq<NodeInfo>, newer: seq<NodeInfo>, x: NodeInfo)
    requires InOrderOf(all, older + newer) && x in older
    ensures InOrderOf(all, newer)
    ensures forall i :: 0 <= i < |newer| ==> IndexOf(all, x.id) < IndexOf(all, newer[i].id)
  {
    var s := older + newer;
    var p :| 0 <= p < |older| && older[p] == x;
    assert s[p] == x;
    assert forall i :: 0 <= i < |newer| ==> newer[i] == s[|older| + i];
  }

  lemma NewerInOrder(all: seq<NodeInfo>, older: seq<NodeInfo>, newer: seq<NodeInfo>)
    requires InOrderOf(all, older + newer)
    ensures InOrderOf(all, newer)
  {
    assert forall i :: 0 <= i < |newer| ==> newer[i] == (older + newer)[|older| + i];
  }

  lemma CacheIsCut(cache: seq<NodeInfo>, node: NodeInfo, max: nat, cut: nat)
    requires max >= 1
    requires cut == if |Without(cache, node.id)| + 1 > max then |Without(cache, node.id)| + 1 - max else 0
    ensures AddToCache(cache, node, max) == Without(cache, node.id)[cut..] + [node]
  {
    var others := Without(cache, node.id);
    assert (others + [node])[cut..] == others[cut..] + [node];
  }

  lemma CacheTakesNewest(cache: seq<NodeInfo>, node: NodeInfo, max: nat)
    requires max >= 1
    ensures IsCacheWith(cache, node, max, AddToCache(cache, node, max))
  {
    var others := Without(cache, node.id);
    var cut := if |others| + 1 > max then |others| + 1 - max else 0;
    var older, newer := others[..cut], others[cut..];
    CacheIsCut(cache, node, max, cut);
    assert others == older + newer;
    assert (newer + [node])[..|newer|] == newer;
    assert forall i :: 0 <= i < |newer| ==> newer[i] in others;
    if Distinct(cache) {
      WithoutInOrder(cache, node.id);
      NewerInOrder(cache, older, newer);
      forall x | x in older
        ensures forall i :: 0 <= i < |newer| ==> IndexOf(cache, x.id) < IndexOf(cache, newer[i].id)
      {
        CutInOrder(cache, older, newer, x);
      }
    }
  }

  /**
   An eviction removes the first entry of the failed node and puts the newcomer last; of the cache only the
   newcomer's entries go.
   */
  lemma EvictReplaces(b: Bucket, failed: NodeId, node: NodeInfo, i: nat)
    requires i < |b.nodes| && b.nodes[i].id == failed && forall j :: 0 <= j < i ==> b.nodes[j].id != failed
    ensures var (after, evicted) := EvictAndInsert(b, failed, node);
            && evicted && |after.nodes| == |b.nodes| && after.nodes[|b.nodes| - 1] == node
            && (forall j :: 0 <= j < |b.nodes| - 1 ==> after.nodes[j] == b.nodes[if j < i then j else j + 1])
            && (forall x :: x in after.cache <==> x in b.cache && x.id != node.id)
            && (Distinct(b.cache) ==> Distinct(after.cache) && InOrderOf(b.cache, after.cache))
  {
    assert IndexOf(b.nodes, failed) == i;
    if Distinct(b.cache) {
      WithoutInOrder(b.cache, node.id);
      WithoutKeepsDistinct(b.cache, node.id);
    }
  }

  /** A removal takes out the first entry of the id and moves the newest cached node, if any, to the end. */
  lemma RemovePromotes(b: Bucket, id: NodeId, i: nat)
    requires i < |b.nodes| && b.nodes[i].id == id && forall j :: 0 <= j < i ==> b.nodes[j].id != id
    ensures var (after, removed) := Remove(b, id);
            && removed
            && (forall j :: 0 <= j < |b.nodes| - 1 ==>
                  j < |after.nodes| && after.nodes[j] == b.nodes[if j < i then j else j + 1])
            && (if b.cache == [] then |after.nodes| == |b.nodes| - 1 && after.cache == []
                else |after.nodes| == |b.nodes| && after.cache + [after.nodes[|b.nodes| - 1]] == b.cache)
  {
    assert IndexOf(b.nodes, id) == i;
  }

  /** Who is no resident can be neither evicted, nor removed, nor fail, nor be seen. */
  lemma StrangersChangeNothing(b: Bucket, id: NodeId, node: NodeInfo, maxFailures: nat, now: Instant)
    requires forall j :: 0 <= j < |b.nodes| ==> b.nodes[j].id != id
    ensures EvictAndInsert(b, id, node) == (b, false) && Remove(b, id) == (b, false)
    ensures RecordFailure(b, id, maxFailures) == b && MarkSeen(b, id, now) == b
  {
  }

  /** A failure below the limit, and a contact, change one entry: its counter, and its counter and time. */
  lemma OneEntryChanges(b: Bucket, id: NodeId, maxFailures: nat, now: Instant, i: nat)
    requires i < |b.nodes| && b.nodes[i].id == id && forall j :: 0 <= j < i ==> b.nodes[j].id != id
    ensures MarkSeen(b, id, now) == b.(nodes := b.nodes[i := b.nodes[i].(lastSeen := now, failCount := 0)])
    ensures b.nodes[i].failCount + 1 < maxFailures <= 255 ==>
              RecordFailure(b, id, maxFailures)
                == b.(nodes := b.nodes[i := b.nodes[i].(failCount := b.nodes[i].failCount + 1)])
  {
    assert IndexOf(b.nodes, id) == i;
  }

  // ----- what every operation keeps

  /** The capacity discipline of a bucket; whether residents are distinct is stated apart. */
  ghost predicate WellFormed(b: Bucket, k: nat) {
    && |b.nodes| <= k
    && |b.cache| <= k
    && (b.cache != [] ==> |b.nodes| == k)
    && DisjointIds(b.nodes, b.cache)
    && Distinct(b.cache)
  }

  lemma RemoveAtKeeps(s: seq<NodeInfo>, i: nat)
    requires i < |s|
    ensures |RemoveAt(s, i)| == |s| - 1
    ensures forall x :: x in RemoveAt(s, i) ==> x in s
    ensures Distinct(s) ==> Distinct(RemoveAt(s, i)) && !HasId(RemoveAt(s, i), s[i].id)
    ensures forall id :: id != s[i].id ==> (HasId(s, id) <==> HasId(RemoveAt(s, i), id))
  {
    var r := RemoveAt(s, i);
    assert forall j :: 0 <= j < |r| ==> r[j] == if j < i then s[j] else s[j + 1];
    forall id | id != s[i].id && HasId(s, id) ensures HasId(r, id) {
      var j :| 0 <= j < |s| && s[j].id == id;
      assert r[if j < i then j else j - 1].id == id;
    }
  }

  lemma CacheKeeps(cache: seq<NodeInfo>, node: NodeInfo, max: nat)
    requires Distinct(cache)
    ensures |AddToCache(cache, node, max)| <= max && Distinct(AddToCache(cache, node, max))
    ensures forall i :: 0 <= i < |AddToCache(cache, node, max)| ==>
              AddToCache(cache, node, max)[i] in cache || AddToCache(cache, node, max)[i] == node
  {
    var full := Without(cache, node.id) + [node];
    WithoutKeepsDistinct(cache, node.id);
    DistinctWithNew(Without(cache, node.id), node);
    assert forall i :: 0 <= i < |full| ==> full[i] in cache || full[i] == node;
  }

  lemma InsertKeepsWellFormed(b: Bucket, k: nat, node: NodeInfo, now: Instant)
    requires k >= 1 && WellFormed(b, k)
    ensures WellFormed(Insert(b, k, node, now).0, k)
    ensures Distinct(b.nodes) ==> Distinct(Insert(b, k, node, now).0.nodes)
  {
    var i := IndexOf(b.nodes, node.id);
    if i < |b.nodes| {
      var updated := Insert(b, k, node, now).0.nodes;
      assert forall j :: 0 <= j < |updated| ==> updated[j].id == b.nodes[j].id;
    } else if |b.nodes| < k {
      if Distinct(b.nodes) { DistinctWithNew(b.nodes, node); }
    } else {
      CacheKeeps(b.cache, node, k);
    }
  }

  lemma RemoveKeepsWellFormed(b: Bucket, k: nat, id: NodeId)
    requires WellFormed(b, k)
    ensures WellFormed(Remove(b, id).0, k)
    ensures Distinct(b.nodes) ==> Distinct(Remove(b, id).0.nodes)
  {
    var i := IndexOf(b.nodes, id);
    if i < |b.nodes| {
      RemoveAtKeeps(b.nodes, i);
    }
  }

  lemma RecordFailureKeepsWellFormed(b: Bucket, k: nat, id: NodeId, maxFailures: nat)
    requires WellFormed(b, k)
    ensures WellFormed(RecordFailure(b, id, maxFailures), k)
    ensures Distinct(b.nodes) ==> Distinct(RecordFailure(b, id, maxFailures).nodes)
  {
    var i := IndexOf(b.nodes, id);
    if i < |b.nodes| {
      var counted := b.(nodes := b.nodes[i := b.nodes[i].RecordFailure()]);
      assert WellFormed(counted, k);
      RemoveKeepsWellFormed(counted, k, id);
    }
  }

  /**
   An eviction keeps the capacity discipline, and it keeps residents distinct exactly when the newcomer is
   not already a resident (or is the evicted node itself, or nothing is evicted): no membership check guards
   the push.
   */
  lemma EvictKeepsDistinctIff(b: Bucket, k: nat, failed: NodeId, node: NodeInfo)
    requires WellFormed(b, k) && Distinct(b.nodes)
    ensures WellFormed(EvictAndInsert(b, failed, node).0, k)
    ensures Distinct(EvictAndInsert(b, failed, node).0.nodes)
            <==> (!HasId(b.nodes, failed) || !HasId(b.nodes, node.id) || node.id == failed)
  {
    EvictKeepsWellFormed(b, k, failed, node);
    var i := IndexOf(b.nodes, failed);
    if i < |b.nodes| {
      RemoveAtKeeps(b.nodes, i);
      var rest := RemoveAt(b.nodes, i);
      var after := rest + [node];
      if HasId(rest, node.id) {
        var j :| 0 <= j < |rest| && rest[j].id == node.id;
        assert after[j].id == after[|rest|].id;
      }
    }
  }

  lemma EvictKeepsWellFormed(b: Bucket, k: nat, failed: NodeId, node: NodeInfo)
    requires WellFormed(b, k)
    ensures WellFormed(EvictAndInsert(b, failed, node).0, k)
  {
    var i := IndexOf(b.nodes, failed);
    if i < |b.nodes| {
      RemoveAtKeeps(b.nodes, i);
      WithoutKeepsDistinct(b.cache, node.id);
      SubsetsStayDisjoint(b.nodes, b.cache, RemoveAt(b.nodes, i), Without(b.cache, node.id));
    }
  }

  lemma SubsetsStayDisjoint(s: seq<NodeInfo>, t: seq<NodeInfo>, s': seq<NodeInfo>, t': seq<NodeInfo>)
    requires DisjointIds(s, t)
    requires (forall x :: x in s' ==> x in s) && (forall x :: x in t' ==> x in t)
    ensures DisjointIds(s', t')
  {
    forall i, j | 0 <= i < |s'| && 0 <= j < |t'| ensures s'[i].id != t'[j].id {
      assert s'[i] in s && t'[j] in t;
    }
  }

  // ----- order of residents

  /** The order the documentation promises: least recently seen first. */
  predicate OldestSeenFirst(s: seq<NodeInfo>) {
    forall i, j :: 0 <= i < j < |s| ==> s[i].lastSeen <= s[j].lastSeen
  }

  /** The entry at `i`, seen now, is the last one or followed by one seen at this very instant. */
  predicate SeenInOrder(s: seq<NodeInfo>, i: nat, now: Instant) {
    i + 1 >= |s| || s[i + 1].lastSeen == now
  }

  /** A node put at the end was seen no earlier than the one before it. */
  predicate AppendedInOrder(s: seq<NodeInfo>, x: NodeInfo) {
    s == [] || s[|s| - 1].lastSeen <= x.lastSeen
  }

  lemma AppendKeepsOrderIff(s: seq<NodeInfo>, x: NodeInfo)
    requires OldestSeenFirst(s)
    ensures OldestSeenFirst(s + [x]) <==> AppendedInOrder(s, x)
  {
    var r := s + [x];
    if s != [] && OldestSeenFirst(r) {
      assert r[|s| - 1].lastSeen <= r[|s|].lastSeen;
    }
  }

  lemma RemoveAtKeepsOrder(s: seq<NodeInfo>, i: nat)
    requires OldestSeenFirst(s) && i < |s|
    ensures OldestSeenFirst(RemoveAt(s, i))
  {
    var r := RemoveAt(s, i);
    assert forall j :: 0 <= j < |r| ==> r[j] == s[if j < i then j else j + 1];
  }

  /** Seeing the entry at `i` again leaves it in place. */
  lemma SeenKeepsOrderIff(s: seq<NodeInfo>, i: nat, x: NodeInfo, now: Instant)
    requires i < |s| && OldestSeenFirst(s) && x.lastSeen == now
    requires forall y :: y in s ==> y.lastSeen <= now
    ensures OldestSeenFirst(s[i := x]) <==> SeenInOrder(s, i, now)
  {
    var after := s[i := x];
    assert forall j :: 0 <= j < |s| ==> s[j] in s;
    if i + 1 < |s| && s[i + 1].lastSeen == now {
      assert forall j :: i + 1 <= j < |s| ==> s[j].lastSeen == now;
    }
    if i + 1 < |s| && OldestSeenFirst(after) {
      assert after[i].lastSeen <= after[i + 1].lastSeen;
    }
  }

  lemma InsertKeepsSeenOrderIff(b: Bucket, k: nat, node: NodeInfo, now: Instant)
    requires k >= 1 && OldestSeenFirst(b.nodes)
    requires forall x :: x in b.nodes ==> x.lastSeen <= now
    ensures OldestSeenFirst(Insert(b, k, node, now).0.nodes) <==>
              if HasId(b.nodes, node.id) then SeenInOrder(b.nodes, IndexOf(b.nodes, node.id), now)
              else |b.nodes| >= k || AppendedInOrder(b.nodes, node)
  {
    var i := IndexOf(b.nodes, node.id);
    if i < |b.nodes| {
      SeenKeepsOrderIff(b.nodes, i, Insert(b, k, node, now).0.nodes[i], now);
    } else {
      AppendKeepsOrderIff(b.nodes, node);
    }
  }

  lemma EvictKeepsSeenOrderIff(b: Bucket, failed: NodeId, node: NodeInfo)
    requires OldestSeenFirst(b.nodes)
    ensures OldestSeenFirst(EvictAndInsert(b, failed, node).0.nodes) <==>
              HasId(b.nodes, failed) ==> AppendedInOrder(RemoveAt(b.nodes, IndexOf(b.nodes, failed)), node)
  {
    if HasId(b.nodes, failed) {
      RemoveAtKeepsOrder(b.nodes, IndexOf(b.nodes, failed));
      AppendKeepsOrderIff(RemoveAt(b.nodes, IndexOf(b.nodes, failed)), node);
    }
  }

  /** What a removal promotes comes in order: there is nothing to promote, or it was seen late enough. */
  predicate PromotedInOrder(b: Bucket, id: NodeId) {
    HasId(b.nodes, id) && b.cache != [] ==>
      AppendedInOrder(RemoveAt(b.nodes, IndexOf(b.nodes, id)), b.cache[|b.cache| - 1])
  }

  lemma RemoveKeepsSeenOrderIff(b: Bucket, id: NodeId)
    requires OldestSeenFirst(b.nodes)
    ensures OldestSeenFirst(Remove(b, id).0.nodes) <==> PromotedInOrder(b, id)
  {
    if HasId(b.nodes, id) {
      RemoveAtKeepsOrder(b.nodes, IndexOf(b.nodes, id));
      if b.cache != [] {
        AppendKeepsOrderIff(RemoveAt(b.nodes, IndexOf(b.nodes, id)), b.cache[|b.cache| - 1]);
      }
    }
  }

  /** A failure of this resident that leads to its removal. */
  predicate FailsOut(b: Bucket, id: NodeId, maxFailures: nat) {
    HasId(b.nodes, id) && b.nodes[IndexOf(b.nodes, id)].RecordFailure().failCount >= maxFailures
  }

  lemma FailureKeepsSeenOrderIff(b: Bucket, id: NodeId, maxFailures: nat)
    requires OldestSeenFirst(b.nodes)
    ensures OldestSeenFirst(RecordFailure(b, id, maxFailures).nodes) <==>
              FailsOut(b, id, maxFailures) ==> PromotedInOrder(b, id)
  {
    var i := IndexOf(b.nodes, id);
    if i < |b.nodes| {
      var counted := b.(nodes := b.nodes[i := b.nodes[i].RecordFailure()]);
      assert forall j :: 0 <= j < |b.nodes| ==>
        counted.nodes[j].id == b.nodes[j].id && counted.nodes[j].lastSeen == b.nodes[j].lastSeen;
      assert IndexOf(counted.nodes, id) == i;
      assert RemoveAt(counted.nodes, i) == RemoveAt(b.nodes, i);
      RemoveKeepsSeenOrderIff(counted, id);
    }
  }

  /** If `x` was resident before, and not after `y`, it stands before `y` now. */
  ghost predicate KeepsAhead(before: seq<NodeInfo>, after: seq<NodeInfo>, x: NodeId, y: NodeId) {
    (HasId(before, x) && HasId(after, x) && HasId(after, y)
     && (HasId(before, y) ==> IndexOf(before, x) < IndexOf(before, y)))
    ==> IndexOf(after, x) < IndexOf(after, y)
  }

  /** What holds instead is admission order: survivors keep their order and newcomers go last. */
  ghost predicate AdmissionStep(before: seq<NodeInfo>, after: seq<NodeInfo>) {
    forall x, y :: KeepsAhead(before, after, x, y)
  }

  lemma IndexIs(s: seq<NodeInfo>, i: nat)
    requires i < |s| && Distinct(s)
    ensures IndexOf(s, s[i].id) == i
  {
  }

  lemma SameIdsIsAdmissionStep(before: seq<NodeInfo>, after: seq<NodeInfo>)
    requires |before| == |after|
    requires forall i :: 0 <= i < |before| ==> before[i].id == after[i].id
    ensures AdmissionStep(before, after)
  {
    forall x ensures HasId(before, x) == HasId(after, x) && IndexOf(before, x) == IndexOf(after, x) {
      var i, j := IndexOf(before, x), IndexOf(after, x);
      if i < |before| { assert after[i].id == x; }
      if j < |after| { assert before[j].id == x; }
    }
  }

  /** Without the entry at `i`, or all of the sequence when there is none, and with `added` at the end. */
  function Replace(s: seq<NodeInfo>, i: nat, added: seq<NodeInfo>): seq<NodeInfo>
    requires i <= |s|
  {
    (if i < |s| then RemoveAt(s, i) else s) + added
  }

  lemma ReplaceAt(s: seq<NodeInfo>, i: nat, added: seq<NodeInfo>, p: nat)
    requires i <= |s| && p < |Replace(s, i, added)|
    ensures var kept := |s| - (if i < |s| then 1 else 0);
            Replace(s, i, added)[p] ==
              if p >= kept then added[p - kept] else if p < i then s[p] else s[p + 1]
  {
  }

  /** The position before the replacement of the entry now at `p`. */
  lemma ReplaceCameFrom(s: seq<NodeInfo>, i: nat, added: seq<NodeInfo>, p: nat)
    requires Distinct(s) && i <= |s| && p < |Replace(s, i, added)| - |added|
    ensures IndexOf(s, Replace(s, i, added)[p].id) == if p < i then p else p + 1
  {
    ReplaceAt(s, i, added, p);
    IndexIs(s, if p < i then p else p + 1);
  }

  lemma ReplaceKeepsPair(before: seq<NodeInfo>, i: nat, added: seq<NodeInfo>, x: NodeId, y: NodeId)
    requires Distinct(before) && i <= |before|
    requires |added| <= 1 && DisjointIds(before, added)
    requires HasId(before, x) && HasId(Replace(before, i, added), x) && HasId(Replace(before, i, added), y)
    requires HasId(before, y) ==> IndexOf(before, x) < IndexOf(before, y)
    ensures IndexOf(Replace(before, i, added), x) < IndexOf(Replace(before, i, added), y)
  {
    var p, q := IndexOf(Replace(before, i, added), x), IndexOf(Replace(before, i, added), y);
    var kept := |Replace(before, i, added)| - |added|;
    assert p < kept by {
      ReplaceAt(before, i, added, p);
      assert before[IndexOf(before, x)].id == x;
    }
    ReplaceCameFrom(before, i, added, p);
    if q < kept { ReplaceCameFrom(before, i, added, q); }
  }

  lemma ReplaceIsAdmissionStep(before: seq<NodeInfo>, i: nat, added: seq<NodeInfo>)
    requires Distinct(before) && i <= |before|
    requires |added| <= 1 && DisjointIds(before, added)
    ensures AdmissionStep(before, Replace(before, i, added))
  {
    var after := Replace(before, i, added);
    forall x, y ensures KeepsAhead(before, after, x, y) {
      if HasId(before, x) && HasId(after, x) && HasId(after, y)
        && (HasId(before, y) ==> IndexOf(before, x) < IndexOf(before, y))
      {
        ReplaceKeepsPair(before, i, added, x, y);
      }
    }
  }

  /** An insertion, and an eviction whose newcomer is no resident, respect admission order. */
  lemma AdmissionsKeepOrder(b: Bucket, k: nat, failed: NodeId, node: NodeInfo, now: Instant)
    requires k >= 1 && Distinct(b.nodes)
    ensures AdmissionStep(b.nodes, Insert(b, k, node, now).0.nodes)
    ensures !HasId(b.nodes, node.id) ==> AdmissionStep(b.nodes, EvictAndInsert(b, failed, node).0.nodes)
  {
    SameIdsIsAdmissionStep(b.nodes, b.nodes);
    if HasId(b.nodes, node.id) {
      SameIdsIsAdmissionStep(b.nodes, Insert(b, k, node, now).0.nodes);
    } else {
      ReplaceIsAdmissionStep(b.nodes, |b.nodes|, [node]);
      ReplaceIsAdmissionStep(b.nodes, IndexOf(b.nodes, failed), [node]);
    }
  }

  /** So does a removal, which promotes the newest cached node to the last place. */
  lemma RemovalKeepsOrder(b: Bucket, id: NodeId)
    requires Distinct(b.nodes) && DisjointIds(b.nodes, b.cache)
    ensures AdmissionStep(b.nodes, Remove(b, id).0.nodes)
  {
    var i := IndexOf(b.nodes, id);
    SameIdsIsAdmissionStep(b.nodes, b.nodes);
    if i < |b.nodes| {
      var promoted := if b.cache == [] then [] else [b.cache[|b.cache| - 1]];
      ReplaceIsAdmissionStep(b.nodes, i, promoted);
      assert Remove(b, id).0.nodes == RemoveAt(b.nodes, i) + promoted;
    }
  }

  /** And so do contacts and failures: an updated resident is never moved. */
  lemma ContactsKeepOrder(b: Bucket, id: NodeId, maxFailures: nat, now: Instant)
    requires Distinct(b.nodes) && DisjointIds(b.nodes, b.cache)
    ensures AdmissionStep(b.nodes, MarkSeen(b, id, now).nodes)
    ensures AdmissionStep(b.nodes, RecordFailure(b, id, maxFailures).nodes)
  {
    var i := IndexOf(b.nodes, id);
    SameIdsIsAdmissionStep(b.nodes, MarkSeen(b, id, now).nodes);
    if i < |b.nodes| {
      var counted := b.(nodes := b.nodes[i := b.nodes[i].RecordFailure()]);
      SameIdsIsAdmissionStep(b.nodes, counted.nodes);
      RemovalKeepsOrder(b, id);
      assert IndexOf(counted.nodes, id) == i;
      assert RemoveAt(counted.nodes, i) == RemoveAt(b.nodes, i);
      assert Remove(counted, id).0.nodes == Remove(b, id).0.nodes;
    }
  }

  /** The step from state `p` to the next keeps `elder` ahead of `younger`. */
  ghost predicate StepKeepsAhead(states: nat -> seq<NodeInfo>, p: nat, elder: NodeId, younger: NodeId) {
    KeepsAhead(states(p), states(p + 1), elder, younger)
  }

  /**
   Over any number of such steps, a node that was resident before another one was admitted stays ahead of it:
   the bucket's first entry, the one reported for a ping, is its longest resident.
   */
  lemma {:induction false} ElderStaysAhead(states: nat -> seq<NodeInfo>, m: nat, n: nat, elder: NodeId, younger: NodeId)
    requires m <= n
    requires forall p {:trigger StepKeepsAhead(states, p, elder, younger)} :: m <= p < n ==>
               StepKeepsAhead(states, p, elder, younger)
    requires forall p {:trigger states(p)} :: m <= p <= n ==> HasId(states(p), elder)
    requires !HasId(states(m), younger) && HasId(states(n), younger)
    ensures IndexOf(states(n), elder) < IndexOf(states(n), younger)
    decreases n
  {
    assert m < n;
    if HasId(states(n - 1), younger) {
      ElderStaysAhead(states, m, n - 1, elder, younger);
    }
    assert StepKeepsAhead(states, n - 1, elder, younger);
  }
}
