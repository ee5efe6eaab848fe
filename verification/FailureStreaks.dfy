/**
 What a resident's failure counter means over a whole run of the routing table: the failures, by id or by
 address, since the node was admitted or last seen.
 */
module FailureStreaks {
  import opened Sequences
  import opened NodeIds
  import opened Addresses
  import opened Buckets
  import opened Routing
  import opened RoutingRuns

  // ----- counters in one bucket

  function CountIn(s: seq<NodeInfo>, id: NodeId): nat
    requires HasId(s, id)
  {
    s[IndexOf(s, id)].failCount
  }

  /** Cached nodes have never failed: failures reach residents only. */
  ghost predicate CacheUnfailed(b: Bucket) {
    forall x :: x in b.cache ==> x.failCount == 0
  }

  /** A contact or answer with this id, which resets its counter. */
  predicate Resets(op: BucketOp, id: NodeId) {
    (op.OpInsert? && op.node.id == id) || (op.OpSeen? && op.id == id)
  }

  /** New nodes come from `NodeInfo::new`, which starts the counter at zero. */
  ghost predicate NewUnfailed(op: BucketOp) {
    (op.OpInsert? || op.OpEvict?) ==> op.node.failCount == 0
  }

  lemma IndexInFront(s: seq<NodeInfo>, tail: seq<NodeInfo>, id: NodeId)
    requires HasId(s, id)
    ensures HasId(s + tail, id) && IndexOf(s + tail, id) == IndexOf(s, id)
  {
    assert (s + tail)[IndexOf(s, id)].id == id;
  }

  lemma IndexAfterRemoveAt(s: seq<NodeInfo>, i: nat, tail: seq<NodeInfo>, id: NodeId)
    requires i < |s| && Distinct(s) && s[i].id != id && HasId(s, id)
    ensures HasId(RemoveAt(s, i) + tail, id)
    ensures CountIn(RemoveAt(s, i) + tail, id) == CountIn(s, id)
  {
    var j, r := IndexOf(s, id), RemoveAt(s, i) + tail;
    var j' := if j < i then j else j - 1;
    assert r[j'] == s[j];
    assert forall p :: 0 <= p < j' ==> r[p] == s[if p < i then p else p + 1];
    assert IndexOf(r, id) == j';
  }

  lemma InsertCounts(b: Bucket, k: nat, node: NodeInfo, now: Instant, id: NodeId)
    requires k >= 1 && Distinct(b.nodes) && node.failCount == 0 && CacheUnfailed(b)
    ensures var after := Insert(b, k, node, now).0;
            && CacheUnfailed(after)
            && (HasId(b.nodes, id) ==> HasId(after.nodes, id))
            && (HasId(b.nodes, id) ==>
                  CountIn(after.nodes, id) == if node.id == id then 0 else CountIn(b.nodes, id))
            && (!HasId(b.nodes, id) && HasId(after.nodes, id) ==> CountIn(after.nodes, id) == 0)
  {
    var after, i := Insert(b, k, node, now).0, IndexOf(b.nodes, node.id);
    if i < |b.nodes| {
      assert forall j :: 0 <= j < |b.nodes| ==> after.nodes[j].id == b.nodes[j].id;
      assert IndexOf(after.nodes, id) == IndexOf(b.nodes, id);
    } else if |b.nodes| < k {
      if HasId(b.nodes, id) { IndexInFront(b.nodes, [node], id); }
    } else {
      var full := Without(b.cache, node.id) + [node];
      assert forall x :: x in full ==> x.failCount == 0;
      assert forall x :: x in AddToCache(b.cache, node, k) ==> x in full;
    }
  }

  lemma EvictCounts(b: Bucket, failed: NodeId, node: NodeInfo, id: NodeId)
    requires Distinct(b.nodes) && node.failCount == 0 && CacheUnfailed(b)
    requires !HasId(b.nodes, node.id) || !HasId(b.nodes, failed)
    ensures var after := EvictAndInsert(b, failed, node).0;
            && CacheUnfailed(after)
            && (HasId(b.nodes, id) && HasId(after.nodes, id) ==> CountIn(after.nodes, id) == CountIn(b.nodes, id))
            && (!HasId(b.nodes, id) && HasId(after.nodes, id) ==> CountIn(after.nodes, id) == 0)
  {
    var after, i := EvictAndInsert(b, failed, node).0, IndexOf(b.nodes, failed);
    if i < |b.nodes| {
      RemoveAtKeeps(b.nodes, i);
      if HasId(b.nodes, id) && id != failed {
        IndexAfterRemoveAt(b.nodes, i, [node], id);
      }
    }
  }

  lemma RemoveCounts(b: Bucket, removed: NodeId, id: NodeId)
    requires Distinct(b.nodes) && DisjointIds(b.nodes, b.cache) && CacheUnfailed(b)
    ensures var after := Remove(b, removed).0;
            && CacheUnfailed(after)
            && (HasId(b.nodes, id) ==> (HasId(after.nodes, id) <==> id != removed))
            && (HasId(b.nodes, id) && id != removed ==> CountIn(after.nodes, id) == CountIn(b.nodes, id))
            && (!HasId(b.nodes, id) && HasId(after.nodes, id) ==> CountIn(after.nodes, id) == 0)
  {
    var after, i := Remove(b, removed).0, IndexOf(b.nodes, removed);
    if i < |b.nodes| {
      RemoveAtKeeps(b.nodes, i);
      var tail := if b.cache == [] then [] else [b.cache[|b.cache| - 1]];
      assert after.nodes == RemoveAt(b.nodes, i) + tail;
      if HasId(b.nodes, id) && id != removed { IndexAfterRemoveAt(b.nodes, i, tail, id); }
      if HasId(b.nodes, id) && id == removed {
        assert !HasId(tail, id);
      }
    }
  }

  lemma FailCounts(b: Bucket, failed: NodeId, maxFailures: nat, id: NodeId)
    requires Distinct(b.nodes) && DisjointIds(b.nodes, b.cache) && CacheUnfailed(b)
    requires 1 <= maxFailures <= 255
    requires HasId(b.nodes, id) ==> CountIn(b.nodes, id) < maxFailures
    ensures var after := RecordFailure(b, failed, maxFailures);
            && CacheUnfailed(after)
            && (HasId(b.nodes, id) ==> (HasId(after.nodes, id)
                  <==> id != failed || CountIn(b.nodes, id) + 1 < maxFailures))
            && (HasId(b.nodes, id) && HasId(after.nodes, id) ==>
                  CountIn(after.nodes, id) == CountIn(b.nodes, id) + if id == failed then 1 else 0)
            && (!HasId(b.nodes, id) && HasId(after.nodes, id) ==> CountIn(after.nodes, id) == 0)
  {
    var i := IndexOf(b.nodes, failed);
    if i < |b.nodes| {
      var counted := b.(nodes := b.nodes[i := b.nodes[i].RecordFailure()]);
      assert forall j :: 0 <= j < |b.nodes| ==> counted.nodes[j].id == b.nodes[j].id;
      assert IndexOf(counted.nodes, id) == IndexOf(b.nodes, id);
      RemoveCounts(counted, failed, id);
    }
  }

  lemma SeenCounts(b: Bucket, seen: NodeId, now: Instant, id: NodeId)
    requires CacheUnfailed(b)
    ensures var after := MarkSeen(b, seen, now);
            && CacheUnfailed(after)
            && (HasId(b.nodes, id) <==> HasId(after.nodes, id))
            && (HasId(b.nodes, id) ==> CountIn(after.nodes, id) == if id == seen then 0 else CountIn(b.nodes, id))
  {
    var after := MarkSeen(b, seen, now);
    assert forall j :: 0 <= j < |b.nodes| ==> after.nodes[j].id == b.nodes[j].id;
    assert IndexOf(after.nodes, id) == IndexOf(b.nodes, id);
  }

  /** How any operation changes the counter of any id. */
  lemma OperationCounts(b: Bucket, k: nat, maxFailures: nat, op: BucketOp, id: NodeId)
    requires k >= 1 && WellFormed(b, k) && Distinct(b.nodes) && CacheUnfailed(b)
    requires NewUnfailed(op) && (op.OpEvict? ==> !HasId(b.nodes, op.node.id) || !HasId(b.nodes, op.failed))
    requires 1 <= maxFailures <= 255
    requires HasId(b.nodes, id) ==> CountIn(b.nodes, id) < maxFailures
    ensures var after := Apply(b, k, maxFailures, op);
            && CacheUnfailed(after)
            && (!HasId(b.nodes, id) && HasId(after.nodes, id) ==> CountIn(after.nodes, id) == 0)
            && (HasId(b.nodes, id) && HasId(after.nodes, id) ==>
                  CountIn(after.nodes, id) ==
                    if Resets(op, id) then 0
                    else if op == OpFail(id) then CountIn(b.nodes, id) + 1
                    else CountIn(b.nodes, id))
            && (HasId(b.nodes, id) && op == OpFail(id) ==>
                  (HasId(after.nodes, id) <==> CountIn(b.nodes, id) + 1 < maxFailures))
  {
    match op
    case OpInsert(node, now) => InsertCounts(b, k, node, now, id);
    case OpEvict(failed, node) => EvictCounts(b, failed, node, id);
    case OpRemove(removed) => RemoveCounts(b, removed, id);
    case OpFail(failed) => FailCounts(b, failed, maxFailures, id);
    case OpSeen(seen, now) => SeenCounts(b, seen, now, id);
    case OpNone =>
  }

  // ----- counters over a run

  function BucketOf(tb: Table, id: NodeId): Bucket
    requires |tb.buckets| == ID_BITS
  {
    tb.buckets[BucketIndex(tb.local, id)]
  }

  ghost function FailCount(tb: Table, id: NodeId): nat
    requires |tb.buckets| == ID_BITS && Resident(tb, id)
  {
    CountIn(BucketOf(tb, id).nodes, id)
  }

  /** Every node offered to the table was made by `NodeInfo::new`. */
  ghost predicate FreshStep(step: Step) {
    (step.Contact? || step.Learn?) ==> step.node.failCount == 0
  }

  /**
   The failures recorded for `id`, by id or by address, since it was admitted or last seen: a count over the
   history that never looks at a counter.
   */
  ghost function Streak(local: NodeId, k: nat, maxFailures: nat, steps: seq<Step>, id: NodeId): nat
    requires k >= 1
  {
    if steps == [] then 0
    else
      var before := Run(local, k, maxFailures, steps[..|steps| - 1]);
      var op := OperationOf(before, steps[|steps| - 1]);
      if !Resident(before.table, id) || Resets(op, id) then 0
      else
        Streak(local, k, maxFailures, steps[..|steps| - 1], id) + if op == OpFail(id) then 1 else 0
  }

  /** What a clean run keeps in bucket `i`, pending pings included. */
  ghost predicate Sound(s: State, maxFailures: nat, i: nat) {
    && Ok(s) && i < ID_BITS && Distinct(s.table.buckets[i].nodes) && CacheUnfailed(s.table.buckets[i])
    && (forall id :: HasId(s.table.buckets[i].nodes, id) ==> CountIn(s.table.buckets[i].nodes, id) < maxFailures)
    && (forall p :: 0 <= p < |s.pending| ==> s.pending[p].newcomer.failCount == 0)
  }

  lemma NewIsUnfailed(s: State, step: Step, maxFailures: nat, i: nat)
    requires Sound(s, maxFailures, i) && FreshStep(step)
    ensures NewUnfailed(OperationOf(s, step))
  {
  }

  lemma CountStep(s: State, step: Step, maxFailures: nat, i: nat, id: NodeId)
    requires 1 <= maxFailures <= 255 && Sound(s, maxFailures, i)
    requires FreshStep(step) && !AdmitsResident(s, step, i)
    ensures var op, b := OperationOf(s, step), s.table.buckets[i];
            var after := Next(s, step, maxFailures).table.buckets[i];
            var here := !op.OpNone? && BucketIndex(s.table.local, SubjectOf(op)) == i;
            && CacheUnfailed(after)
            && (!HasId(b.nodes, id) && HasId(after.nodes, id) ==> CountIn(after.nodes, id) == 0)
            && (HasId(b.nodes, id) && HasId(after.nodes, id) ==>
                  CountIn(after.nodes, id) ==
                    if here && Resets(op, id) then 0
                    else CountIn(b.nodes, id) + if here && op == OpFail(id) then 1 else 0)
            && (HasId(b.nodes, id) && here && op == OpFail(id) ==>
                  (HasId(after.nodes, id) <==> CountIn(b.nodes, id) + 1 < maxFailures))
  {
    var op := OperationOf(s, step);
    NextIsBucketOperation(s, step, maxFailures);
    NewIsUnfailed(s, step, maxFailures, i);
    if !op.OpNone? && BucketIndex(s.table.local, SubjectOf(op)) == i {
      OperationCounts(s.table.buckets[i], s.table.k, maxFailures, op, id);
    }
  }

  lemma StepKeepsSound(s: State, step: Step, maxFailures: nat, i: nat)
    requires 1 <= maxFailures <= 255 && Sound(s, maxFailures, i)
    requires FreshStep(step) && !AdmitsResident(s, step, i)
    ensures Sound(Next(s, step, maxFailures), maxFailures, i)
  {
    var s' := Next(s, step, maxFailures);
    var b, b' := s.table.buckets[i], s'.table.buckets[i];
    StepKeepsOk(s, step, maxFailures);
    StepKeepsDistinctIff(s, step, maxFailures, i);
    CountStep(s, step, maxFailures, i, s.table.local);
    forall id | HasId(b'.nodes, id) ensures CountIn(b'.nodes, id) < maxFailures {
      CountStep(s, step, maxFailures, i, id);
    }
    PendingStaysUnfailed(s, step, maxFailures, i);
  }

  lemma PendingStaysUnfailed(s: State, step: Step, maxFailures: nat, i: nat)
    requires Sound(s, maxFailures, i) && FreshStep(step)
    ensures var s' := Next(s, step, maxFailures);
            forall p :: 0 <= p < |s'.pending| ==> s'.pending[p].newcomer.failCount == 0
  {
    var s' := Next(s, step, maxFailures);
    PendingComesFrom(s, step, maxFailures);
    forall p | 0 <= p < |s'.pending| ensures s'.pending[p].newcomer.failCount == 0 {
      assert s'.pending[p] in s'.pending;
    }
  }

  lemma {:induction false} RunsKeepSound(local: NodeId, k: nat, maxFailures: nat, steps: seq<Step>, i: nat)
    requires k >= 1 && 1 <= maxFailures <= 255 && i < ID_BITS
    requires Clean(local, k, maxFailures, steps, i)
    requires forall n :: 0 <= n < |steps| ==> FreshStep(steps[n])
    ensures Sound(Run(local, k, maxFailures, steps), maxFailures, i)
  {
    if steps != [] {
      var front := steps[..|steps| - 1];
      RunsKeepSound(local, k, maxFailures, front, i);
      StepKeepsSound(Run(local, k, maxFailures, front), steps[|steps| - 1], maxFailures, i);
    }
  }

  /**
   In every run that is clean for a node's bucket, with `maxFailures` between 1 and 255, the counter of a resident
   is its streak of failures, it stays below `maxFailures`, and so the saturating `u8` never saturates.
   */
  lemma {:induction false} FailCountIsStreak(local: NodeId, k: nat, maxFailures: nat, steps: seq<Step>, id: NodeId)
    requires k >= 1 && 1 <= maxFailures <= 255
    requires Clean(local, k, maxFailures, steps, BucketIndex(local, id))
    requires forall n :: 0 <= n < |steps| ==> FreshStep(steps[n])
    ensures var t := Run(local, k, maxFailures, steps).table;
            Resident(t, id) ==>
              FailCount(t, id) == Streak(local, k, maxFailures, steps, id) && FailCount(t, id) < maxFailures
  {
    var i := BucketIndex(local, id);
    if steps != [] {
      var front := steps[..|steps| - 1];
      FailCountIsStreak(local, k, maxFailures, front, id);
      RunsKeepSound(local, k, maxFailures, front, i);
      StreakStep(Run(local, k, maxFailures, front), steps[|steps| - 1], maxFailures, id,
                 Streak(local, k, maxFailures, front, id));
    }
  }

  lemma StreakStep(s: State, step: Step, maxFailures: nat, id: NodeId, streak: nat)
    requires 1 <= maxFailures <= 255 && Sound(s, maxFailures, BucketIndex(s.table.local, id))
    requires FreshStep(step) && !AdmitsResident(s, step, BucketIndex(s.table.local, id))
    requires Resident(s.table, id) ==> FailCount(s.table, id) == streak
    ensures var op, t := OperationOf(s, step), Next(s, step, maxFailures).table;
            Resident(t, id) ==>
              && FailCount(t, id) < maxFailures
              && FailCount(t, id) == if !Resident(s.table, id) || Resets(op, id) then 0
                                     else streak + if op == OpFail(id) then 1 else 0
  {
    CountStep(s, step, maxFailures, BucketIndex(s.table.local, id), id);
    StepKeepsSound(s, step, maxFailures, BucketIndex(s.table.local, id));
  }

  /**
   A failure of a resident evicts it exactly when it is the `maxFailures`-th in a row; then the newest cached
   node, if any, takes the free slot at the end.
   */
  lemma EvictedOnLastFailure(local: NodeId, k: nat, maxFailures: nat, steps: seq<Step>, step: Step, id: NodeId)
    requires k >= 1 && 1 <= maxFailures <= 255
    requires Clean(local, k, maxFailures, steps, BucketIndex(local, id))
    requires forall n :: 0 <= n < |steps| ==> FreshStep(steps[n])
    requires var s := Run(local, k, maxFailures, steps);
             Resident(s.table, id) && OperationOf(s, step) == OpFail(id)
    ensures var b := BucketOf(Run(local, k, maxFailures, steps).table, id);
            var b' := BucketOf(Run(local, k, maxFailures, steps + [step]).table, id);
            if Streak(local, k, maxFailures, steps, id) + 1 < maxFailures then
              HasId(b'.nodes, id) && b'.cache == b.cache
            else
              && !HasId(b'.nodes, id)
              && b'.nodes == RemoveAt(b.nodes, IndexOf(b.nodes, id))
                             + (if b.cache == [] then [] else [b.cache[|b.cache| - 1]])
              && b'.cache == if b.cache == [] then [] else b.cache[..|b.cache| - 1]
  {
    var s := Run(local, k, maxFailures, steps);
    RunWith(local, k, maxFailures, steps, step);
    FailCountIsStreak(local, k, maxFailures, steps, id);
    RunsKeepSound(local, k, maxFailures, steps, BucketIndex(local, id));
    FailureStep(s, step, maxFailures, id);
    FailureEvicts(BucketOf(s.table, id), id, maxFailures);
  }

  lemma FailureStep(s: State, step: Step, maxFailures: nat, id: NodeId)
    requires Ok(s) && OperationOf(s, step) == OpFail(id)
    ensures BucketOf(Next(s, step, maxFailures).table, id) == RecordFailure(BucketOf(s.table, id), id, maxFailures)
  {
    NextIsBucketOperation(s, step, maxFailures);
  }

  lemma FailureEvicts(b: Bucket, id: NodeId, maxFailures: nat)
    requires 1 <= maxFailures <= 255
    requires HasId(b.nodes, id) && Distinct(b.nodes) && DisjointIds(b.nodes, b.cache) && CacheUnfailed(b)
    requires CountIn(b.nodes, id) < maxFailures
    ensures var b' := RecordFailure(b, id, maxFailures);
            if CountIn(b.nodes, id) + 1 < maxFailures then
              HasId(b'.nodes, id) && b'.cache == b.cache
            else
              && !HasId(b'.nodes, id)
              && b'.nodes == RemoveAt(b.nodes, IndexOf(b.nodes, id))
                             + (if b.cache == [] then [] else [b.cache[|b.cache| - 1]])
              && b'.cache == if b.cache == [] then [] else b.cache[..|b.cache| - 1]
  {
    var i := IndexOf(b.nodes, id);
    var counted := b.(nodes := b.nodes[i := b.nodes[i].RecordFailure()]);
    FailCounts(b, id, maxFailures, id);
    assert forall j :: 0 <= j < |b.nodes| ==> counted.nodes[j].id == b.nodes[j].id;
    assert IndexOf(counted.nodes, id) == i;
    assert RemoveAt(counted.nodes, i) == RemoveAt(b.nodes, i);
  }
}
