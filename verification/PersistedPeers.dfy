/**
 Saving the routing table and loading it into an empty one at the next start (`src/node.rs`): every resident
 comes back to its bucket, in whatever order the rows are read.
 */
module PersistedPeers {
  import opened NodeIds
  import opened Buckets
  import opened Nearest
  import opened Routing
  import opened RoutingRuns

  /** A row keeps id, key and addresses; loading makes a new node of it. */
  function Reset(x: NodeInfo, now: Instant): NodeInfo {
    NewNode(x.id, x.publicKey, x.addresses, now)
  }

  function Loading(rows: seq<NodeInfo>, now: Instant): seq<Step> {
    seq(|rows|, i requires 0 <= i < |rows| => Learn(Reset(rows[i], now), now))
  }

  function Loaded(local: NodeId, k: nat, rows: seq<NodeInfo>, now: Instant): Table
    requires k >= 1
  {
    Run(local, k, 1, Loading(rows, now)).table
  }

  /** The rows that belong in bucket `i`, in order, as they are loaded. */
  function InBucket(local: NodeId, rows: seq<NodeInfo>, i: nat, now: Instant): seq<NodeInfo> {
    if rows == [] then []
    else
      var front, x := InBucket(local, rows[..|rows| - 1], i, now), rows[|rows| - 1];
      if BucketIndex(local, x.id) == i then front + [Reset(x, now)] else front
  }

  lemma {:induction false} InBucketMembers(local: NodeId, rows: seq<NodeInfo>, i: nat, now: Instant)
    requires Distinct(rows)
    ensures Distinct(InBucket(local, rows, i, now))
    ensures forall x :: x in InBucket(local, rows, i, now) <==>
              exists y :: y in rows && BucketIndex(local, y.id) == i && x == Reset(y, now)
  {
    if rows != [] {
      var n := |rows| - 1;
      var front := InBucket(local, rows[..n], i, now);
      InBucketMembers(local, rows[..n], i, now);
      forall j | 0 <= j < |front| ensures front[j].id != rows[n].id {
        assert front[j] in front;
        var y :| y in rows[..n] && BucketIndex(local, y.id) == i && front[j] == Reset(y, now);
        var p :| 0 <= p < n && rows[p] == y;
      }
      forall x ensures x in InBucket(local, rows, i, now) <==>
        exists y :: y in rows && BucketIndex(local, y.id) == i && x == Reset(y, now)
      {
        InBucketMember(local, rows, i, now, x);
      }
    }
  }

  lemma InBucketMember(local: NodeId, rows: seq<NodeInfo>, i: nat, now: Instant, x: NodeInfo)
    requires rows != []
    requires x in InBucket(local, rows[..|rows| - 1], i, now) <==>
               exists y :: y in rows[..|rows| - 1] && BucketIndex(local, y.id) == i && x == Reset(y, now)
    ensures x in InBucket(local, rows, i, now) <==>
              exists y :: y in rows && BucketIndex(local, y.id) == i && x == Reset(y, now)
  {
    var n := |rows| - 1;
    assert forall y :: y in rows <==> y in rows[..n] || y == rows[n];
  }

  /** As long as no bucket gets more than `k` rows, loading appends each row to its bucket. */
  lemma {:induction false} LoadingFills(local: NodeId, k: nat, rows: seq<NodeInfo>, now: Instant)
    requires k >= 1 && Distinct(rows) && !HasId(rows, local)
    requires forall i :: 0 <= i < ID_BITS ==> |InBucket(local, rows, i, now)| <= k
    ensures forall i :: 0 <= i < ID_BITS ==>
              Loaded(local, k, rows, now).buckets[i] == Bucket(InBucket(local, rows, i, now), [])
  {
    if rows != [] {
      var n := |rows| - 1;
      var front, x := rows[..n], rows[n];
      assert Loading(rows, now)[..n] == Loading(front, now);
      forall i | 0 <= i < ID_BITS ensures |InBucket(local, front, i, now)| <= k {
        assert |InBucket(local, rows, i, now)| <= k;
      }
      LoadingFills(local, k, front, now);
      RowIsNew(local, rows, now);
      assert x.id != local;
      var b := BucketIndex(local, x.id);
      assert |InBucket(local, rows, b, now)| == |InBucket(local, front, b, now)| + 1;
    }
  }

  lemma RowIsNew(local: NodeId, rows: seq<NodeInfo>, now: Instant)
    requires rows != [] && Distinct(rows)
    ensures var n := |rows| - 1;
            !HasId(InBucket(local, rows[..n], BucketIndex(local, rows[n].id), now), rows[n].id)
  {
    var n := |rows| - 1;
    var i := BucketIndex(local, rows[n].id);
    var front := InBucket(local, rows[..n], i, now);
    InBucketMembers(local, rows[..n], i, now);
    forall j | 0 <= j < |front| ensures front[j].id != rows[n].id {
      assert front[j] in front;
      var y :| y in rows[..n] && BucketIndex(local, y.id) == i && front[j] == Reset(y, now);
      var p :| 0 <= p < n && rows[p] == y;
    }
  }

  /** One row for every id that is resident, as the peer table of the database keeps them. */
  ghost predicate IsSnapshot(tb: Table, rows: seq<NodeInfo>)
    requires |tb.buckets| == ID_BITS
  {
    && Distinct(rows)
    && (forall x :: x in rows ==> IsResident(tb, x))
    && (forall x :: IsResident(tb, x) ==> HasId(rows, x.id))
  }

  /** `x` is the node of `y`, seen now for the first time. */
  ghost predicate IsCopy(x: NodeInfo, y: NodeInfo, now: Instant) {
    && x.id == y.id && x.publicKey == y.publicKey && x.addresses == y.addresses
    && x.lastSeen == now && x.failCount == 0
  }

  /**
   Loading the snapshot of a table, rows in any order, restores every resident to its bucket with a reset
   counter, admits nobody else, caches nobody, and leaves residents distinct even where they were not.
   */
  lemma ReloadRestoresResidents(tb: Table, rows: seq<NodeInfo>, now: Instant)
    requires tb.k >= 1 && Placed(tb) && IsSnapshot(tb, rows)
    requires forall i :: 0 <= i < ID_BITS ==> |tb.buckets[i].nodes| <= tb.k
    ensures forall i :: 0 <= i < ID_BITS ==>
              var b, nodes := Loaded(tb.local, tb.k, rows, now).buckets[i], tb.buckets[i].nodes;
              && b.cache == [] && Distinct(b.nodes)
              && (forall id :: HasId(b.nodes, id) <==> HasId(nodes, id))
              && (forall x :: x in b.nodes ==> exists y :: y in nodes && IsCopy(x, y, now))
              && (Distinct(nodes) ==>
                    && |b.nodes| == |nodes|
                    && forall y :: y in nodes ==> exists x :: x in b.nodes && IsCopy(x, y, now))
  {
    forall p | 0 <= p < |rows| ensures rows[p].id != tb.local { assert rows[p] in rows; }
    forall i | 0 <= i < ID_BITS ensures IsReloaded(tb.buckets[i].nodes, InBucket(tb.local, rows, i, now), now) {
      BucketRows(tb, rows, i, now);
    }
    forall i | 0 <= i < ID_BITS ensures |InBucket(tb.local, rows, i, now)| <= tb.k {
      assert IsReloaded(tb.buckets[i].nodes, InBucket(tb.local, rows, i, now), now);
    }
    LoadingFills(tb.local, tb.k, rows, now);
    forall i | 0 <= i < ID_BITS
      ensures IsReloaded(tb.buckets[i].nodes, Loaded(tb.local, tb.k, rows, now).buckets[i].nodes, now) {}
  }

  ghost predicate IsReloaded(nodes: seq<NodeInfo>, loaded: seq<NodeInfo>, now: Instant) {
    && Distinct(loaded) && |loaded| <= |nodes|
    && (forall id :: HasId(loaded, id) <==> HasId(nodes, id))
    && (forall x :: x in loaded ==> exists y :: y in nodes && IsCopy(x, y, now))
    && (Distinct(nodes) ==>
          && |loaded| == |nodes|
          && forall y :: y in nodes ==> exists x :: x in loaded && IsCopy(x, y, now))
  }

  function ResetAll(nodes: seq<NodeInfo>, now: Instant): (r: seq<NodeInfo>)
    ensures |r| == |nodes| && forall j :: 0 <= j < |nodes| ==> r[j] == Reset(nodes[j], now)
  {
    seq(|nodes|, j requires 0 <= j < |nodes| => Reset(nodes[j], now))
  }

  lemma BucketRows(tb: Table, rows: seq<NodeInfo>, i: nat, now: Instant)
    requires Placed(tb) && IsSnapshot(tb, rows) && i < ID_BITS
    ensures IsReloaded(tb.buckets[i].nodes, InBucket(tb.local, rows, i, now), now)
  {
    var loaded, nodes := InBucket(tb.local, rows, i, now), tb.buckets[i].nodes;
    InBucketMembers(tb.local, rows, i, now);
    LoadedIds(tb, rows, i, now);
    forall x | x in loaded
      ensures x in ResetAll(nodes, now) && exists y :: y in nodes && IsCopy(x, y, now)
    {
      var y :| y in rows && BucketIndex(tb.local, y.id) == i && x == Reset(y, now);
      assert y in nodes;
      var j :| 0 <= j < |nodes| && nodes[j] == y;
      assert ResetAll(nodes, now)[j] == x && IsCopy(x, y, now);
    }
    DistinctFits(loaded, ResetAll(nodes, now));
    if Distinct(nodes) {
      forall y | y in nodes ensures Reset(y, now) in loaded && IsCopy(Reset(y, now), y, now) {
        OnlyRowOf(tb, rows, i, y);
      }
      forall x | x in ResetAll(nodes, now) ensures x in loaded {
        var j :| 0 <= j < |nodes| && ResetAll(nodes, now)[j] == x;
        assert nodes[j] in nodes;
      }
      DistinctFits(ResetAll(nodes, now), loaded);
    }
  }

  lemma LoadedIds(tb: Table, rows: seq<NodeInfo>, i: nat, now: Instant)
    requires Placed(tb) && IsSnapshot(tb, rows) && i < ID_BITS
    ensures forall id :: HasId(InBucket(tb.local, rows, i, now), id) <==> HasId(tb.buckets[i].nodes, id)
  {
    var loaded, nodes := InBucket(tb.local, rows, i, now), tb.buckets[i].nodes;
    InBucketMembers(tb.local, rows, i, now);
    forall id | HasId(loaded, id) ensures HasId(nodes, id) {
      var x := loaded[IndexOf(loaded, id)];
      assert x in loaded;
      var y :| y in rows && BucketIndex(tb.local, y.id) == i && x == Reset(y, now);
      HasIdOfMember(nodes, y);
    }
    forall id | HasId(nodes, id) ensures HasId(loaded, id) {
      var x := nodes[IndexOf(nodes, id)];
      assert x in nodes && IsResident(tb, x);
      var y := rows[IndexOf(rows, id)];
      assert y in rows;
      HasIdOfMember(loaded, Reset(y, now));
    }
  }

  /** The row of a resident that has its id for itself is its own. */
  lemma OnlyRowOf(tb: Table, rows: seq<NodeInfo>, i: nat, y: NodeInfo)
    requires Placed(tb) && IsSnapshot(tb, rows) && i < ID_BITS
    requires y in tb.buckets[i].nodes && Distinct(tb.buckets[i].nodes)
    ensures y in rows && BucketIndex(tb.local, y.id) == i
  {
    assert IsResident(tb, y);
    var x := rows[IndexOf(rows, y.id)];
    assert x in rows;
    var nodes := tb.buckets[i].nodes;
    var p :| 0 <= p < |nodes| && nodes[p] == x;
    var q :| 0 <= q < |nodes| && nodes[q] == y;
  }
}
