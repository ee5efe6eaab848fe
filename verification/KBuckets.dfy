/**
 The bucket object of the routing table (`src/routing/bucket.rs`), updated in place.  Each method is tied to
 the function of the same name on the bucket's value.
 */
module KBuckets {
  import opened Sequences
  import opened NodeIds
  import opened Addresses
  import opened Buckets

  class KBucket {
    const k: nat
    const maxCacheSize: nat
    var nodes: seq<NodeInfo>
    var replacementCache: seq<NodeInfo>
    var lastUpdated: Instant

    ghost function Value(): Bucket
      reads this
    {
      Bucket(nodes, replacementCache)
    }

    ghost predicate Valid()
      reads this
    {
      maxCacheSize == k && WellFormed(Value(), k)
    }

    constructor (k: nat, now: Instant)
      ensures Valid() && this.k == k && Value() == Bucket([], [])
    {
      this.k := k;
      maxCacheSize := k;
      nodes, replacementCache, lastUpdated := [], [], now;
    }

    method Insert(node: NodeInfo, now: Instant) returns (result: InsertResult)
      requires Valid() && k >= 1
      modifies this
      ensures Valid() && (Value(), result) == Buckets.Insert(old(Value()), k, node, now)
      ensures lastUpdated == if result.BucketFull? then old(lastUpdated) else now
    {
      InsertKeepsWellFormed(Value(), k, node, now);
      var i := IndexOf(nodes, node.id);
      if i < |nodes| {
        var existing := nodes[i].MarkSeen(now);
        existing := MergeAddressesInto(existing, node.addresses);
        nodes := nodes[i := existing];
        lastUpdated := now;
        return Updated;
      }
      if |nodes| < k {
        nodes := nodes + [node];
        lastUpdated := now;
        return Inserted;
      }
      var lrs := nodes[0].id;
      AddToReplacementCache(node);
      return BucketFull(lrs);
    }

    static method MergeAddressesInto(node: NodeInfo, more: seq<SocketAddr>) returns (merged: NodeInfo)
      ensures merged == node.(addresses := MergeAddresses(node.addresses, more))
    {
      var addresses := node.addresses;
      for i := 0 to |more|
        invariant AddMissing(addresses, more[i..]) == AddMissing(node.addresses, more)
      {
        assert more[i..][1..] == more[i + 1..];
        if more[i] !in addresses {
          addresses := addresses + [more[i]];
        }
      }
      merged := node.(addresses := Truncate(LanFirst(addresses), MAX_PEER_ADDRS));
    }

    method AddToReplacementCache(node: NodeInfo)
      requires maxCacheSize == k
      modifies this`replacementCache
      ensures replacementCache == AddToCache(old(replacementCache), node, k)
    {
      replacementCache := Without(replacementCache, node.id);
      replacementCache := replacementCache + [node];
      ghost var full := replacementCache;
      while |replacementCache| > maxCacheSize
        invariant |replacementCache| <= |full|
        invariant replacementCache == full[|full| - |replacementCache|..]
        invariant |full| > k ==> |replacementCache| >= k
        invariant |full| <= k ==> replacementCache == full
      {
        ghost var cut := |full| - |replacementCache|;
        assert full[cut..][1..] == full[cut + 1..];
        replacementCache := replacementCache[1..];
      }
    }

    method EvictAndInsert(failed: NodeId, node: NodeInfo, now: Instant) returns (evicted: bool)
      requires Valid()
      modifies this
      ensures Valid() && (Value(), evicted) == Buckets.EvictAndInsert(old(Value()), failed, node)
      ensures lastUpdated == if evicted then now else old(lastUpdated)
    {
      EvictKeepsWellFormed(Value(), k, failed, node);
      var pos := IndexOf(nodes, failed);
      if pos < |nodes| {
        nodes := RemoveAt(nodes, pos);
        nodes := nodes + [node];
        replacementCache := Without(replacementCache, node.id);
        lastUpdated := now;
        return true;
      }
      return false;
    }

    method Remove(id: NodeId) returns (removed: bool)
      requires Valid()
      modifies this`nodes, this`replacementCache
      ensures Valid() && (Value(), removed) == Buckets.Remove(old(Value()), id)
    {
      RemoveKeepsWellFormed(Value(), k, id);
      var pos := IndexOf(nodes, id);
      if pos < |nodes| {
        nodes := RemoveAt(nodes, pos);
        if |replacementCache| > 0 {
          var replacement := replacementCache[|replacementCache| - 1];
          replacementCache := replacementCache[..|replacementCache| - 1];
          nodes := nodes + [replacement];
        }
        return true;
      }
      return false;
    }

    method RecordFailure(id: NodeId, maxFailures: nat)
      requires Valid()
      modifies this`nodes, this`replacementCache
      ensures Valid() && Value() == Buckets.RecordFailure(old(Value()), id, maxFailures)
    {
      RecordFailureKeepsWellFormed(Value(), k, id, maxFailures);
      var i := IndexOf(nodes, id);
      if i < |nodes| {
        nodes := nodes[i := nodes[i].RecordFailure()];
        assert Valid();
        if nodes[i].failCount >= maxFailures {
          var _ := Remove(nodes[i].id);
        }
      }
    }

    method MarkSeen(id: NodeId, now: Instant)
      requires Valid()
      modifies this`nodes
      ensures Valid() && Value() == Buckets.MarkSeen(old(Value()), id, now)
    {
      var i := IndexOf(nodes, id);
      if i < |nodes| {
        nodes := nodes[i := nodes[i].MarkSeen(now)];
      }
    }
  }
}
