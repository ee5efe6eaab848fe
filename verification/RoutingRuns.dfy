/**
 Runs of the routing table under the inbound-message protocol (`src/node.rs`): contacts, full buckets whose
 first resident is pinged while the table lock is released, lost pings, failures and removals, in any order.
 */
module RoutingRuns {
  import opened Sequences
  import opened NodeIds
  import opened Addresses
  import opened Buckets
  import opened Nearest
  import opened Routing

  /** A handler that found the bucket of `newcomer` full and is waiting for `lrs` to answer a ping. */
  datatype Ping = Ping(lrs: NodeId, newcomer: NodeInfo)

  datatype State = State(table: Table, pending: seq<Ping>)

  datatype Step =
    | Contact(node: NodeInfo, now: Instant)  // inbound message: insert, and ping if the bucket is full
    | Learn(node: NodeInfo, now: Instant)    // bootstrap, lookup answer, persisted peer: insert only
    | PingKept(i: nat)                       // the pinged node answered (or was not found any more)
    | PingLost(i: nat)                       // the ping failed: evict and insert
    | Drop(id: NodeId)
    | Fail(id: NodeId)
    | FailAt(addr: SocketAddr)
    | Seen(id: NodeId, now: Instant)

  ghost predicate SameShape(a: Table, b: Table) {
    |a.buckets| == ID_BITS && |b.buckets| == ID_BITS && a.local == b.local && a.k == b.k
  }

  function Next(s: State, step: Step, maxFailures: nat): (s': State)
    requires |s.table.buckets| == ID_BITS && s.table.k >= 1
    ensures SameShape(s.table, s'.table)
  {
    match step
    case Contact(node, now) =>
      var (table, result) := InsertNode(s.table, node, now);
      State(table, if result.BucketFull? then s.pending + [Ping(result.lrs, node)] else s.pending)
    case Learn(node, now) => s.(table := InsertNode(s.table, node, now).0)
    case PingKept(i) => if i < |s.pending| then s.(pending := RemoveAt(s.pending, i)) else s
    case PingLost(i) =>
      if i < |s.pending| then
        State(EvictNode(s.table, s.pending[i].lrs, s.pending[i].newcomer).0, RemoveAt(s.pending, i))
      else s
    case Drop(id) => s.(table := RemoveNode(s.table, id).0)
    case Fail(id) => s.(table := FailNode(s.table, id, maxFailures))
    case FailAt(addr) => s.(table := FailAddress(s.table, addr, maxFailures))
    case Seen(id, now) => s.(table := SeeNode(s.table, id, now))
  }

  function EmptyTable(local: NodeId, k: nat): Table {
    Table(local, k, seq(ID_BITS, _ => Bucket([], [])))
  }

  function Run(local: NodeId, k: nat, maxFailures: nat, steps: seq<Step>): (s: State)
    requires k >= 1
    ensures SameShape(s.table, EmptyTable(local, k))
  {
    if steps == [] then State(EmptyTable(local, k), [])
    else Next(Run(local, k, maxFailures, steps[..|steps| - 1]), steps[|steps| - 1], maxFailures)
  }

  // ----- each step is one operation on one bucket

  datatype BucketOp =
    | OpInsert(node: NodeInfo, now: Instant)
    | OpEvict(failed: NodeId, node: NodeInfo)
    | OpRemove(id: NodeId)
    | OpFail(id: NodeId)
    | OpSeen(id: NodeId, now: Instant)
    | OpNone

  function Apply(b: Bucket, k: nat, maxFailures: nat, op: BucketOp): Bucket
    requires k >= 1
  {
    match op
    case OpInsert(node, now) => Insert(b, k, node, now).0
    case OpEvict(failed, node) => EvictAndInsert(b, failed, node).0
    case OpRemove(id) => Remove(b, id).0
    case OpFail(id) => RecordFailure(b, id, maxFailures)
    case OpSeen(id, now) => MarkSeen(b, id, now)
    case OpNone => b
  }

  function OperationOf(s: State, step: Step): BucketOp
    requires |s.table.buckets| == ID_BITS
  {
    match step
    case Contact(node, now) => if node.id == s.table.local then OpNone else OpInsert(node, now)
    case Learn(node, now) => if node.id == s.table.local then OpNone else OpInsert(node, now)
    case PingKept(_) => OpNone
    case PingLost(i) =>
      if i < |s.pending| then OpEvict(s.pending[i].lrs, s.pending[i].newcomer) else OpNone
    case Drop(id) => OpRemove(id)
    case Fail(id) => OpFail(id)
    case FailAt(addr) =>
      var i := BucketOfAddress(s.table, addr, 0);
      if i < ID_BITS then OpFail(s.table.buckets[i].nodes[IndexOfAddress(s.table.buckets[i].nodes, addr)].id)
      else OpNone
    case Seen(id, now) => OpSeen(id, now)
  }

  /** The id whose bucket an operation works on. */
  function SubjectOf(op: BucketOp): NodeId
    requires !op.OpNone?
  {
    match op
    case OpInsert(node, _) => node.id
    case OpEvict(failed, _) => failed
    case OpRemove(id) => id
    case OpFail(id) => id
    case OpSeen(id, _) => id
  }

  lemma NextIsBucketOperation(s: State, step: Step, maxFailures: nat)
    requires s.table.k >= 1 && Placed(s.table)
    ensures var op := OperationOf(s, step);
            Next(s, step, maxFailures).table ==
              if op.OpNone? then s.table
              else
                var i := BucketIndex(s.table.local, SubjectOf(op));
                s.table.(buckets := s.table.buckets[i := Apply(s.table.buckets[i], s.table.k, maxFailures, op)])
  {
    if step.FailAt? {
      var i := BucketOfAddress(s.table, step.addr, 0);
      if i < ID_BITS {
        var x := s.table.buckets[i].nodes[IndexOfAddress(s.table.buckets[i].nodes, step.addr)];
        assert x in s.table.buckets[i].nodes;
      }
    }
  }

  /** A failure reaches the table, by id or by address, and no ping. */
  lemma FailuresReachTable(s: State, id: NodeId, addr: SocketAddr, maxFailures: nat)
    requires |s.table.buckets| == ID_BITS && s.table.k >= 1
    ensures Next(s, FailAt(addr), maxFailures) == State(FailAddress(s.table, addr, maxFailures), s.pending)
    ensures Next(s, Fail(id), maxFailures) == State(FailNode(s.table, id, maxFailures), s.pending)
  {
  }

  /** So does a sign of life. */
  lemma SeenReachesTable(s: State, id: NodeId, now: Instant, maxFailures: nat)
    requires |s.table.buckets| == ID_BITS && s.table.k >= 1
    ensures Next(s, Seen(id, now), maxFailures) == State(SeeNode(s.table, id, now), s.pending)
  {
  }

  /** A ping that is over is waited for no more, and only a lost one touches the table. */
  lemma PingsEndOnce(s: State, i: nat, maxFailures: nat)
    requires |s.table.buckets| == ID_BITS && s.table.k >= 1 && i < |s.pending|
    ensures Next(s, PingKept(i), maxFailures).table == s.table
    ensures Next(s, PingLost(i), maxFailures).pending == Next(s, PingKept(i), maxFailures).pending
    ensures var after := Next(s, PingKept(i), maxFailures).pending;
            && |after| == |s.pending| - 1
            && forall j :: 0 <= j < |after| ==> after[j] == s.pending[if j < i then j else j + 1]
  {
  }

  lemma PendingComesFrom(s: State, step: Step, maxFailures: nat)
    requires |s.table.buckets| == ID_BITS && s.table.k >= 1
    ensures forall p :: p in Next(s, step, maxFailures).pending ==>
              p in s.pending || (step.Contact? && p.newcomer == step.node)
  {
  }

  // ----- what every operation on a bucket keeps

  /** The one node an operation may add to a bucket. */
  ghost function Added(op: BucketOp): set<NodeId> {
    if op.OpInsert? || op.OpEvict? then {op.node.id} else {}
  }

  ghost function IdsOf(s: seq<NodeInfo>): set<NodeId> {
    set i | 0 <= i < |s| :: s[i].id
  }

  ghost function AllIds(b: Bucket): set<NodeId> {
    IdsOf(b.nodes) + IdsOf(b.cache)
  }

  lemma IdsOfMember(s: seq<NodeInfo>)
    ensures forall x :: x in s ==> x.id in IdsOf(s)
    ensures forall id :: id in IdsOf(s) <==> HasId(s, id)
  {
  }

  lemma IdsOfSubset(s: seq<NodeInfo>, t: seq<NodeInfo>, id: NodeId)
    requires forall x :: x in s ==> x in t || x.id == id
    ensures IdsOf(s) <= IdsOf(t) + {id}
  {
    forall j | j in IdsOf(s) ensures j in IdsOf(t) + {id} {
      var i :| 0 <= i < |s| && s[i].id == j;
      assert s[i] in s;
      IdsOfMember(t);
    }
  }

  lemma SameIds(s: seq<NodeInfo>, t: seq<NodeInfo>)
    requires |s| == |t| && forall i :: 0 <= i < |s| ==> s[i].id == t[i].id
    ensures IdsOf(s) == IdsOf(t)
  {
  }

  lemma IdsWithin(s: seq<NodeInfo>, b: Bucket)
    requires forall x :: x in s ==> x in b.nodes || x in b.cache
    ensures IdsOf(s) <= AllIds(b)
  {
    forall j | j in IdsOf(s) ensures j in AllIds(b) {
      var i :| 0 <= i < |s| && s[i].id == j;
      assert s[i] in s;
      IdsOfMember(b.nodes);
      IdsOfMember(b.cache);
    }
  }

  lemma RemoveIds(b: Bucket, id: NodeId)
    ensures AllIds(Remove(b, id).0) <= AllIds(b)
  {
    var i := IndexOf(b.nodes, id);
    if i < |b.nodes| {
      RemoveAtKeeps(b.nodes, i);
      IdsWithin(Remove(b, id).0.nodes, b);
      IdsWithin(Remove(b, id).0.cache, b);
    }
  }

  lemma InsertIds(b: Bucket, k: nat, node: NodeInfo, now: Instant)
    requires k >= 1
    ensures AllIds(Insert(b, k, node, now).0) <= AllIds(b) + {node.id}
  {
    if HasId(b.nodes, node.id) {
      SameIds(Insert(b, k, node, now).0.nodes, b.nodes);
    } else if |b.nodes| < k {
      IdsOfSubset(b.nodes + [node], b.nodes, node.id);
    } else {
      IdsOfSubset(AddToCache(b.cache, node, k), b.cache, node.id);
    }
  }

  lemma EvictIds(b: Bucket, failed: NodeId, node: NodeInfo)
    ensures AllIds(EvictAndInsert(b, failed, node).0) <= AllIds(b) + {node.id}
  {
    var i := IndexOf(b.nodes, failed);
    if i < |b.nodes| {
      RemoveAtKeeps(b.nodes, i);
      IdsOfSubset(RemoveAt(b.nodes, i) + [node], b.nodes, node.id);
      IdsOfSubset(Without(b.cache, node.id), b.cache, node.id);
    }
  }

  lemma OperationIds(b: Bucket, k: nat, maxFailures: nat, op: BucketOp)
    requires k >= 1
    ensures AllIds(Apply(b, k, maxFailures, op)) <= AllIds(b) + Added(op)
  {
    var after := Apply(b, k, maxFailures, op);
    match op
    case OpInsert(node, now) => InsertIds(b, k, node, now);
    case OpEvict(failed, node) => EvictIds(b, failed, node);
    case OpRemove(id) => RemoveIds(b, id);
    case OpFail(id) =>
      var i := IndexOf(b.nodes, id);
      if i < |b.nodes| {
        var counted := b.(nodes := b.nodes[i := b.nodes[i].RecordFailure()]);
        SameIds(counted.nodes, b.nodes);
        RemoveIds(counted, id);
      }
    case OpSeen(id, now) => SameIds(after.nodes, b.nodes);
    case OpNone =>
  }

  lemma OperationKeepsWellFormed(b: Bucket, k: nat, maxFailures: nat, op: BucketOp)
    requires k >= 1 && WellFormed(b, k)
    ensures WellFormed(Apply(b, k, maxFailures, op), k)
  {
    match op
    case OpInsert(node, now) => InsertKeepsWellFormed(b, k, node, now);
    case OpEvict(failed, node) => EvictKeepsWellFormed(b, k, failed, node);
    case OpRemove(id) => RemoveKeepsWellFormed(b, k, id);
    case OpFail(id) => RecordFailureKeepsWellFormed(b, k, id, maxFailures);
    case OpSeen(id, now) =>
    case OpNone =>
  }

  /** Pushing a resident a second time, the one way to lose distinctness. */
  ghost predicate PushesResident(b: Bucket, op: BucketOp) {
    op.OpEvict? && HasId(b.nodes, op.failed) && HasId(b.nodes, op.node.id) && op.node.id != op.failed
  }

  lemma OperationKeepsDistinctIff(b: Bucket, k: nat, maxFailures: nat, op: BucketOp)
    requires k >= 1 && WellFormed(b, k) && Distinct(b.nodes)
    ensures Distinct(Apply(b, k, maxFailures, op).nodes) <==> !PushesResident(b, op)
  {
    match op
    case OpInsert(node, now) => InsertKeepsWellFormed(b, k, node, now);
    case OpEvict(failed, node) => EvictKeepsDistinctIff(b, k, failed, node);
    case OpRemove(id) => RemoveKeepsWellFormed(b, k, id);
    case OpFail(id) => RecordFailureKeepsWellFormed(b, k, id, maxFailures);
    case OpSeen(id, now) =>
    case OpNone =>
  }

  // ----- what every run keeps

  ghost predicate PingOk(local: NodeId, p: Ping) {
    && p.lrs != local && p.newcomer.id != local && p.lrs != p.newcomer.id
    && BucketIndex(local, p.lrs) == BucketIndex(local, p.newcomer.id)
  }

  /** Capacity, placement and disjointness of the whole table, and the shape of pending pings. */
  ghost predicate Ok(s: State) {
    && s.table.k >= 1
    && Placed(s.table)
    && (forall i :: 0 <= i < ID_BITS ==> WellFormed(s.table.buckets[i], s.table.k))
    && (forall i :: 0 <= i < |s.pending| ==> PingOk(s.table.local, s.pending[i]))
  }

  lemma UpdateKeepsPlaced(tb: Table, i: nat, b: Bucket, added: set<NodeId>)
    requires Placed(tb) && i < ID_BITS
    requires AllIds(b) <= AllIds(tb.buckets[i]) + added
    requires forall id :: id in added ==> id != tb.local && BucketIndex(tb.local, id) == i
    ensures Placed(tb.(buckets := tb.buckets[i := b]))
  {
    forall x | x in b.nodes || x in b.cache ensures x.id != tb.local && BucketIndex(tb.local, x.id) == i {
      IdsOfMember(b.nodes);
      IdsOfMember(b.cache);
      assert x.id in AllIds(tb.buckets[i]) + added;
      if x.id !in added { PlacedIds(tb, i, x.id); }
    }
  }

  lemma PlacedIds(tb: Table, i: nat, id: NodeId)
    requires Placed(tb) && i < ID_BITS && id in AllIds(tb.buckets[i])
    ensures id != tb.local && BucketIndex(tb.local, id) == i
  {
    var b := tb.buckets[i];
    if id in IdsOf(b.nodes) {
      var j :| 0 <= j < |b.nodes| && b.nodes[j].id == id;
      assert b.nodes[j] in b.nodes;
    } else {
      var j :| 0 <= j < |b.cache| && b.cache[j].id == id;
      assert b.cache[j] in b.cache;
    }
  }

  lemma ContactPings(s: State, node: NodeInfo, now: Instant)
    requires Ok(s)
    ensures var result := InsertNode(s.table, node, now).1;
            result.BucketFull? ==> PingOk(s.table.local, Ping(result.lrs, node))
  {
    var result := InsertNode(s.table, node, now).1;
    if result.BucketFull? {
      var i := BucketIndex(s.table.local, node.id);
      assert s.table.buckets[i].nodes[0] in s.table.buckets[i].nodes;
    }
  }

  lemma StepKeepsOk(s: State, step: Step, maxFailures: nat)
    requires Ok(s)
    ensures Ok(Next(s, step, maxFailures))
  {
    StepKeepsTable(s, step, maxFailures);
    if step.Contact? { ContactPings(s, step.node, step.now); }
  }

  lemma StepKeepsTable(s: State, step: Step, maxFailures: nat)
    requires Ok(s)
    ensures Placed(Next(s, step, maxFailures).table)
    ensures forall i :: 0 <= i < ID_BITS ==> WellFormed(Next(s, step, maxFailures).table.buckets[i], s.table.k)
  {
    var op := OperationOf(s, step);
    NextIsBucketOperation(s, step, maxFailures);
    if !op.OpNone? {
      var i := BucketIndex(s.table.local, SubjectOf(op));
      OperationIds(s.table.buckets[i], s.table.k, maxFailures, op);
      OperationKeepsWellFormed(s.table.buckets[i], s.table.k, maxFailures, op);
      UpdateKeepsPlaced(s.table, i, Apply(s.table.buckets[i], s.table.k, maxFailures, op), Added(op));
    }
  }

  /**
   In every run: each bucket keeps at most k residents and at most k cached nodes, a non-empty cache implies a
   full bucket, residents and cache are disjoint, every entry sits in the bucket of its prefix length, the
   local id appears nowhere, and a pending ping names two different nodes of one bucket.
   */
  lemma {:induction false} RunsKeepOk(local: NodeId, k: nat, maxFailures: nat, steps: seq<Step>)
    requires k >= 1
    ensures Ok(Run(local, k, maxFailures, steps))
  {
    if steps != [] {
      RunsKeepOk(local, k, maxFailures, steps[..|steps| - 1]);
      StepKeepsOk(Run(local, k, maxFailures, steps[..|steps| - 1]), steps[|steps| - 1], maxFailures);
    }
  }

  // ----- distinct residents

  ghost predicate Resident(tb: Table, id: NodeId)
    requires |tb.buckets| == ID_BITS
  {
    HasId(tb.buckets[BucketIndex(tb.local, id)].nodes, id)
  }

  /**
   A lost ping in bucket `i` whose newcomer has become a resident in the meantime, while the pinged node still is
   one.
   */
  ghost predicate AdmitsResident(s: State, step: Step, i: nat)
    requires |s.table.buckets| == ID_BITS
  {
    && step.PingLost? && step.i < |s.pending|
    && BucketIndex(s.table.local, s.pending[step.i].lrs) == i
    && Resident(s.table, s.pending[step.i].lrs) && Resident(s.table, s.pending[step.i].newcomer.id)
  }

  lemma StepKeepsDistinctIff(s: State, step: Step, maxFailures: nat, i: nat)
    requires Ok(s) && i < ID_BITS && Distinct(s.table.buckets[i].nodes)
    ensures Distinct(Next(s, step, maxFailures).table.buckets[i].nodes) <==> !AdmitsResident(s, step, i)
  {
    var op := OperationOf(s, step);
    NextIsBucketOperation(s, step, maxFailures);
    if !op.OpNone? && BucketIndex(s.table.local, SubjectOf(op)) == i {
      OperationKeepsDistinctIff(s.table.buckets[i], s.table.k, maxFailures, op);
      assert PushesResident(s.table.buckets[i], op) <==> AdmitsResident(s, step, i);
    }
  }

  /** No step of the run evicts in bucket `i` in favour of a node that is already a resident. */
  ghost predicate Clean(local: NodeId, k: nat, maxFailures: nat, steps: seq<Step>, i: nat)
    requires k >= 1
  {
    steps == [] || (
      && Clean(local, k, maxFailures, steps[..|steps| - 1], i)
      && !AdmitsResident(Run(local, k, maxFailures, steps[..|steps| - 1]), steps[|steps| - 1], i))
  }

  /** The residents of the bucket are distinct at the end of every such run. */
  lemma {:induction false} CleanRunsKeepDistinct(local: NodeId, k: nat, maxFailures: nat, steps: seq<Step>, i: nat)
    requires k >= 1 && i < ID_BITS && Clean(local, k, maxFailures, steps, i)
    ensures Distinct(Run(local, k, maxFailures, steps).table.buckets[i].nodes)
  {
    if steps != [] {
      var front := steps[..|steps| - 1];
      CleanRunsKeepDistinct(local, k, maxFailures, front, i);
      RunsKeepOk(local, k, maxFailures, front);
      StepKeepsDistinctIff(Run(local, k, maxFailures, front), steps[|steps| - 1], maxFailures, i);
    }
  }

  // ----- which resident a full bucket reports

  lemma OperationKeepsOrder(b: Bucket, k: nat, maxFailures: nat, op: BucketOp)
    requires k >= 1 && Distinct(b.nodes) && DisjointIds(b.nodes, b.cache)
    requires op.OpEvict? ==> op.node.id != op.failed && !PushesResident(b, op)
    ensures AdmissionStep(b.nodes, Apply(b, k, maxFailures, op).nodes)
  {
    match op
    case OpInsert(node, now) => AdmissionsKeepOrder(b, k, node.id, node, now);
    case OpEvict(failed, node) =>
      if HasId(b.nodes, failed) {
        AdmissionsKeepOrder(b, k, failed, node, 0);
      } else {
        SameIdsIsAdmissionStep(b.nodes, b.nodes);
      }
    case OpRemove(id) => RemovalKeepsOrder(b, id);
    case OpFail(id) => ContactsKeepOrder(b, id, maxFailures, 0);
    case OpSeen(id, now) => ContactsKeepOrder(b, id, maxFailures, now);
    case OpNone => SameIdsIsAdmissionStep(b.nodes, b.nodes);
  }

  lemma StepKeepsAdmissionOrder(s: State, step: Step, maxFailures: nat, i: nat)
    requires Ok(s) && i < ID_BITS && Distinct(s.table.buckets[i].nodes) && !AdmitsResident(s, step, i)
    ensures AdmissionStep(s.table.buckets[i].nodes, Next(s, step, maxFailures).table.buckets[i].nodes)
  {
    var op, b := OperationOf(s, step), s.table.buckets[i];
    NextIsBucketOperation(s, step, maxFailures);
    if !op.OpNone? && BucketIndex(s.table.local, SubjectOf(op)) == i {
      OperationKeepsOrder(b, s.table.k, maxFailures, op);
    } else {
      SameIdsIsAdmissionStep(b.nodes, b.nodes);
    }
  }

  lemma {:induction false} CleanPrefix(local: NodeId, k: nat, maxFailures: nat, steps: seq<Step>, i: nat, n: nat)
    requires k >= 1 && Clean(local, k, maxFailures, steps, i) && n <= |steps|
    ensures Clean(local, k, maxFailures, steps[..n], i)
    ensures n < |steps| ==> !AdmitsResident(Run(local, k, maxFailures, steps[..n]), steps[n], i)
  {
    var last := |steps| - 1;
    if n == |steps| {
      assert steps[..n] == steps;
    } else if n < last {
      CleanPrefix(local, k, maxFailures, steps[..last], i, n);
      assert steps[..last][..n] == steps[..n];
    }
  }

  /** The residents of bucket `i` after the first `n` steps. */
  ghost function ResidentsAfter(local: NodeId, k: nat, maxFailures: nat, steps: seq<Step>, i: nat, n: nat)
    : seq<NodeInfo>
    requires k >= 1 && i < ID_BITS && n <= |steps|
  {
    Run(local, k, maxFailures, steps[..n]).table.buckets[i].nodes
  }

  lemma CleanRunKeepsAdmissionOrder(local: NodeId, k: nat, maxFailures: nat, steps: seq<Step>, i: nat, n: nat)
    requires k >= 1 && i < ID_BITS && n < |steps| && Clean(local, k, maxFailures, steps, i)
    ensures AdmissionStep(ResidentsAfter(local, k, maxFailures, steps, i, n),
                          ResidentsAfter(local, k, maxFailures, steps, i, n + 1))
  {
    var front := steps[..n];
    CleanPrefix(local, k, maxFailures, steps, i, n);
    RunsKeepOk(local, k, maxFailures, front);
    CleanRunsKeepDistinct(local, k, maxFailures, front, i);
    StepKeepsAdmissionOrder(Run(local, k, maxFailures, front), steps[n], maxFailures, i);
    RunNext(local, k, maxFailures, steps, n);
  }

  lemma RunNext(local: NodeId, k: nat, maxFailures: nat, steps: seq<Step>, n: nat)
    requires k >= 1 && n < |steps|
    ensures Run(local, k, maxFailures, steps[..n + 1])
         == Next(Run(local, k, maxFailures, steps[..n]), steps[n], maxFailures)
  {
    assert steps[..n + 1][..n] == steps[..n];
  }

  lemma RunWith(local: NodeId, k: nat, maxFailures: nat, steps: seq<Step>, step: Step)
    requires k >= 1
    ensures Run(local, k, maxFailures, steps + [step]) == Next(Run(local, k, maxFailures, steps), step, maxFailures)
  {
    assert (steps + [step])[..|steps|] == steps;
  }

  /**
   In a run that is clean for the bucket, a node resident without a break since before another one was admitted
   stands before it: the first entry, the one a full bucket reports for a ping, is the longest resident, whoever
   was seen last.
   */
  lemma LongestResidentIsFirst(local: NodeId, k: nat, maxFailures: nat, steps: seq<Step>, i: nat, m: nat,
                               elder: NodeId, younger: NodeId)
    requires k >= 1 && i < ID_BITS && m <= |steps| && Clean(local, k, maxFailures, steps, i)
    requires forall p :: m <= p <= |steps| ==> HasId(ResidentsAfter(local, k, maxFailures, steps, i, p), elder)
    requires !HasId(ResidentsAfter(local, k, maxFailures, steps, i, m), younger)
    requires HasId(Run(local, k, maxFailures, steps).table.buckets[i].nodes, younger)
    ensures var nodes := Run(local, k, maxFailures, steps).table.buckets[i].nodes;
            IndexOf(nodes, elder) < IndexOf(nodes, younger)
  {
    assert steps[..|steps|] == steps;
    var states := History(local, k, maxFailures, steps, i);
    forall p | m <= p < |steps| ensures StepKeepsAhead(states, p, elder, younger) {
      CleanRunKeepsAhead(local, k, maxFailures, steps, i, p, elder, younger);
    }
    ElderStaysAhead(states, m, |steps|, elder, younger);
  }

  /** The residents of bucket `i` by the number of steps done. */
  ghost function History(local: NodeId, k: nat, maxFailures: nat, steps: seq<Step>, i: nat)
    : (states: nat -> seq<NodeInfo>)
    requires k >= 1 && i < ID_BITS
    ensures forall p {:trigger states(p)} :: 0 <= p <= |steps| ==>
              states(p) == ResidentsAfter(local, k, maxFailures, steps, i, p)
  {
    (p: nat) => if p <= |steps| then ResidentsAfter(local, k, maxFailures, steps, i, p) else []
  }

  lemma CleanRunKeepsAhead(local: NodeId, k: nat, maxFailures: nat, steps: seq<Step>, i: nat, p: nat,
                           elder: NodeId, younger: NodeId)
    requires k >= 1 && i < ID_BITS && p < |steps| && Clean(local, k, maxFailures, steps, i)
    ensures StepKeepsAhead(History(local, k, maxFailures, steps, i), p, elder, younger)
  {
    CleanRunKeepsAdmissionOrder(local, k, maxFailures, steps, i, p);
    var before := ResidentsAfter(local, k, maxFailures, steps, i, p);
    assert KeepsAhead(before, ResidentsAfter(local, k, maxFailures, steps, i, p + 1), elder, younger);
  }

  // ----- the order the documentation promises, and when it holds

  ghost predicate SeenBy(s: seq<NodeInfo>, now: Instant) {
    forall x :: x in s ==> x.lastSeen <= now
  }

  /** Exactly when an operation keeps a bucket least recently seen first. */
  predicate KeepsSeenOrder(b: Bucket, k: nat, maxFailures: nat, op: BucketOp) {
    match op
    case OpInsert(node, now) =>
      if HasId(b.nodes, node.id) then SeenInOrder(b.nodes, IndexOf(b.nodes, node.id), now)
      else |b.nodes| >= k || AppendedInOrder(b.nodes, node)
    case OpEvict(failed, node) =>
      HasId(b.nodes, failed) ==> AppendedInOrder(RemoveAt(b.nodes, IndexOf(b.nodes, failed)), node)
    case OpRemove(id) => PromotedInOrder(b, id)
    case OpFail(id) => FailsOut(b, id, maxFailures) ==> PromotedInOrder(b, id)
    case OpSeen(id, now) => HasId(b.nodes, id) ==> SeenInOrder(b.nodes, IndexOf(b.nodes, id), now)
    case OpNone => true
  }

  lemma OperationKeepsSeenOrderIff(b: Bucket, k: nat, maxFailures: nat, op: BucketOp)
    requires k >= 1 && OldestSeenFirst(b.nodes)
    requires op.OpInsert? || op.OpSeen? ==> SeenBy(b.nodes, op.now)
    ensures OldestSeenFirst(Apply(b, k, maxFailures, op).nodes) <==> KeepsSeenOrder(b, k, maxFailures, op)
  {
    match op
    case OpInsert(node, now) => InsertKeepsSeenOrderIff(b, k, node, now);
    case OpEvict(failed, node) => EvictKeepsSeenOrderIff(b, failed, node);
    case OpRemove(id) => RemoveKeepsSeenOrderIff(b, id);
    case OpFail(id) => FailureKeepsSeenOrderIff(b, id, maxFailures);
    case OpSeen(id, now) =>
      var i := IndexOf(b.nodes, id);
      if i < |b.nodes| { SeenKeepsOrderIff(b.nodes, i, b.nodes[i].MarkSeen(now), now); }
    case OpNone =>
  }

  /** The step leaves bucket `i` alone or works on it in a way that keeps the order. */
  ghost predicate Orderly(s: State, step: Step, maxFailures: nat, i: nat)
    requires |s.table.buckets| == ID_BITS && i < ID_BITS
  {
    var op := OperationOf(s, step);
    op.OpNone? || BucketIndex(s.table.local, SubjectOf(op)) != i
    || KeepsSeenOrder(s.table.buckets[i], s.table.k, maxFailures, op)
  }

  predicate HasTime(step: Step) {
    step.Contact? || step.Learn? || step.Seen?
  }

  lemma StepKeepsSeenOrderIff(s: State, step: Step, maxFailures: nat, i: nat)
    requires Ok(s) && i < ID_BITS && OldestSeenFirst(s.table.buckets[i].nodes)
    requires HasTime(step) ==> SeenBy(s.table.buckets[i].nodes, step.now)
    ensures OldestSeenFirst(Next(s, step, maxFailures).table.buckets[i].nodes) <==> Orderly(s, step, maxFailures, i)
  {
    var op := OperationOf(s, step);
    NextIsBucketOperation(s, step, maxFailures);
    if !op.OpNone? && BucketIndex(s.table.local, SubjectOf(op)) == i {
      OperationKeepsSeenOrderIff(s.table.buckets[i], s.table.k, maxFailures, op);
    }
  }

  /** The time of the last step that has one. */
  function Clock(steps: seq<Step>): Instant {
    if steps == [] then 0
    else if HasTime(steps[|steps| - 1]) then steps[|steps| - 1].now
    else Clock(steps[..|steps| - 1])
  }

  /** Time never goes back, and no node comes in from the future. */
  ghost predicate Timed(steps: seq<Step>) {
    steps == [] || (
      var front, last := steps[..|steps| - 1], steps[|steps| - 1];
      && Timed(front)
      && (HasTime(last) ==> Clock(front) <= last.now && (last.Seen? || last.node.lastSeen <= last.now)))
  }

  ghost predicate BucketSeenBy(b: Bucket, now: Instant) {
    SeenBy(b.nodes, now) && SeenBy(b.cache, now)
  }

  ghost predicate StateSeenBy(s: State, now: Instant) {
    && (forall i :: 0 <= i < |s.table.buckets| ==> BucketSeenBy(s.table.buckets[i], now))
    && (forall i :: 0 <= i < |s.pending| ==> s.pending[i].newcomer.lastSeen <= now)
  }

  lemma OperationSeenBy(b: Bucket, k: nat, maxFailures: nat, op: BucketOp, now: Instant)
    requires k >= 1 && BucketSeenBy(b, now)
    requires op.OpInsert? || op.OpSeen? ==> op.now <= now
    requires op.OpInsert? || op.OpEvict? ==> op.node.lastSeen <= now
    ensures BucketSeenBy(Apply(b, k, maxFailures, op), now)
  {
    match op
    case OpInsert(node, t) => if |b.nodes| >= k { CacheFromBefore(b.cache, node, k); }
    case OpEvict(failed, node) =>
      if HasId(b.nodes, failed) { RemoveAtKeeps(b.nodes, IndexOf(b.nodes, failed)); }
    case OpRemove(id) => RemovalSeenBy(b, id, now);
    case OpFail(id) =>
      var i := IndexOf(b.nodes, id);
      if i < |b.nodes| {
        var counted := b.(nodes := b.nodes[i := b.nodes[i].RecordFailure()]);
        assert BucketSeenBy(counted, now);
        RemovalSeenBy(counted, id, now);
      }
    case OpSeen(id, t) =>
    case OpNone =>
  }

  lemma CacheFromBefore(cache: seq<NodeInfo>, node: NodeInfo, max: nat)
    ensures forall x :: x in AddToCache(cache, node, max) ==> x in cache || x == node
  {
    var full := Without(cache, node.id) + [node];
    assert forall x :: x in AddToCache(cache, node, max) ==> x in full;
  }

  lemma RemovalSeenBy(b: Bucket, id: NodeId, now: Instant)
    requires BucketSeenBy(b, now)
    ensures BucketSeenBy(Remove(b, id).0, now)
  {
    if HasId(b.nodes, id) { RemoveAtKeeps(b.nodes, IndexOf(b.nodes, id)); }
  }

  lemma StepSeenBy(s: State, step: Step, maxFailures: nat, now: Instant)
    requires Ok(s) && StateSeenBy(s, now)
    requires HasTime(step) ==> step.now <= now
    requires step.Contact? || step.Learn? ==> step.node.lastSeen <= now
    ensures StateSeenBy(Next(s, step, maxFailures), now)
  {
    var s' := Next(s, step, maxFailures);
    StepBucketsSeenBy(s, step, maxFailures, now);
    PendingComesFrom(s, step, maxFailures);
    forall i | 0 <= i < |s'.pending| ensures s'.pending[i].newcomer.lastSeen <= now {
      assert s'.pending[i] in s'.pending;
    }
  }

  lemma StepBucketsSeenBy(s: State, step: Step, maxFailures: nat, now: Instant)
    requires Ok(s) && StateSeenBy(s, now)
    requires HasTime(step) ==> step.now <= now
    requires step.Contact? || step.Learn? ==> step.node.lastSeen <= now
    ensures forall i :: 0 <= i < ID_BITS ==> BucketSeenBy(Next(s, step, maxFailures).table.buckets[i], now)
  {
    var op := OperationOf(s, step);
    NextIsBucketOperation(s, step, maxFailures);
    if !op.OpNone? {
      OperationSeenBy(s.table.buckets[BucketIndex(s.table.local, SubjectOf(op))], s.table.k, maxFailures, op, now);
    }
  }

  lemma {:induction false} TimedRunsAreSeenBy(local: NodeId, k: nat, maxFailures: nat, steps: seq<Step>)
    requires k >= 1 && Timed(steps)
    ensures StateSeenBy(Run(local, k, maxFailures, steps), Clock(steps))
  {
    if steps != [] {
      var front := steps[..|steps| - 1];
      TimedRunsAreSeenBy(local, k, maxFailures, front);
      RunsKeepOk(local, k, maxFailures, front);
      StepSeenBy(Run(local, k, maxFailures, front), steps[|steps| - 1], maxFailures, Clock(steps));
    }
  }

  lemma {:induction false} TimedPrefix(steps: seq<Step>, n: nat)
    requires Timed(steps) && n < |steps|
    ensures Timed(steps[..n]) && (HasTime(steps[n]) ==> Clock(steps[..n]) <= steps[n].now)
  {
    var last := |steps| - 1;
    if n < last {
      TimedPrefix(steps[..last], n);
      assert steps[..last][..n] == steps[..n];
    }
  }

  lemma TimedStepKeepsSeenOrderIff(local: NodeId, k: nat, maxFailures: nat, steps: seq<Step>, i: nat, n: nat)
    requires k >= 1 && i < ID_BITS && Timed(steps) && n < |steps|
    requires OldestSeenFirst(Run(local, k, maxFailures, steps[..n]).table.buckets[i].nodes)
    ensures OldestSeenFirst(Run(local, k, maxFailures, steps[..n + 1]).table.buckets[i].nodes)
            <==> Orderly(Run(local, k, maxFailures, steps[..n]), steps[n], maxFailures, i)
  {
    var s := Run(local, k, maxFailures, steps[..n]);
    RunNext(local, k, maxFailures, steps, n);
    RunsKeepOk(local, k, maxFailures, steps[..n]);
    TimedPrefix(steps, n);
    TimedRunsAreSeenBy(local, k, maxFailures, steps[..n]);
    assert BucketSeenBy(s.table.buckets[i], Clock(steps[..n]));
    StepKeepsSeenOrderIff(s, steps[n], maxFailures, i);
  }

  ghost predicate OrderedAfter(local: NodeId, k: nat, maxFailures: nat, steps: seq<Step>, i: nat, n: nat)
    requires k >= 1 && i < ID_BITS && n <= |steps|
  {
    OldestSeenFirst(ResidentsAfter(local, k, maxFailures, steps, i, n))
  }

  ghost predicate OrderlyAt(local: NodeId, k: nat, maxFailures: nat, steps: seq<Step>, i: nat, n: nat)
    requires k >= 1 && i < ID_BITS && n < |steps|
  {
    Orderly(Run(local, k, maxFailures, steps[..n]), steps[n], maxFailures, i)
  }

  /**
   A bucket is least recently seen first throughout a run if and only if every step of the run keeps it so, by the
   conditions of `KeepsSeenOrder`.
   */
  lemma SeenOrderThroughoutIff(local: NodeId, k: nat, maxFailures: nat, steps: seq<Step>, i: nat)
    requires k >= 1 && i < ID_BITS && Timed(steps)
    ensures (forall n :: 0 <= n <= |steps| ==> OrderedAfter(local, k, maxFailures, steps, i, n))
            <==> (forall n :: 0 <= n < |steps| ==> OrderlyAt(local, k, maxFailures, steps, i, n))
  {
    if forall n :: 0 <= n <= |steps| ==> OrderedAfter(local, k, maxFailures, steps, i, n) {
      forall n | 0 <= n < |steps| ensures OrderlyAt(local, k, maxFailures, steps, i, n) {
        assert OrderedAfter(local, k, maxFailures, steps, i, n);
        assert OrderedAfter(local, k, maxFailures, steps, i, n + 1);
        TimedStepKeepsSeenOrderIff(local, k, maxFailures, steps, i, n);
      }
    }
    if forall n :: 0 <= n < |steps| ==> OrderlyAt(local, k, maxFailures, steps, i, n) {
      forall n | 0 <= n <= |steps| ensures OrderedAfter(local, k, maxFailures, steps, i, n) {
        OrderlyStepsKeepOrder(local, k, maxFailures, steps, i, n);
      }
    }
  }

  lemma {:induction false} OrderlyStepsKeepOrder(local: NodeId, k: nat, maxFailures: nat, steps: seq<Step>, i: nat,
                                                 n: nat)
    requires k >= 1 && i < ID_BITS && Timed(steps) && n <= |steps|
    requires forall m :: 0 <= m < |steps| ==> OrderlyAt(local, k, maxFailures, steps, i, m)
    ensures OrderedAfter(local, k, maxFailures, steps, i, n)
  {
    if n == 0 {
      assert steps[..0] == [];
    } else {
      OrderlyStepsKeepOrder(local, k, maxFailures, steps, i, n - 1);
      assert OrderlyAt(local, k, maxFailures, steps, i, n - 1);
      TimedStepKeepsSeenOrderIff(local, k, maxFailures, steps, i, n - 1);
    }
  }

  // ----- runs on which the promises fail

  /** Three nodes of one bucket. */
  ghost predicate Neighbours(local: NodeId, a: NodeInfo, b: NodeInfo, c: NodeInfo) {
    && a.id != local && b.id != local && c.id != local
    && a.id != b.id && a.id != c.id && b.id != c.id
    && BucketIndex(local, a.id) == BucketIndex(local, b.id) == BucketIndex(local, c.id)
  }

  /** Learning a new node while there is room puts it last. */
  lemma LearnNew(s: State, x: NodeInfo, t: Instant, maxFailures: nat)
    requires |s.table.buckets| == ID_BITS && s.table.k >= 1 && x.id != s.table.local
    requires var b := s.table.buckets[BucketIndex(s.table.local, x.id)];
             !HasId(b.nodes, x.id) && |b.nodes| < s.table.k
    ensures var b := s.table.buckets[BucketIndex(s.table.local, x.id)];
            Next(s, Learn(x, t), maxFailures).table.buckets[BucketIndex(s.table.local, x.id)]
              == b.(nodes := b.nodes + [x])
  {
  }

  lemma TwoLearnt(local: NodeId, a: NodeInfo, b: NodeInfo, maxFailures: nat, ta: Instant, tb: Instant)
    requires a.id != local && b.id != local && a.id != b.id
    requires BucketIndex(local, a.id) == BucketIndex(local, b.id)
    ensures var s := Run(local, 2, maxFailures, [Learn(a, ta), Learn(b, tb)]);
            s.table.buckets[BucketIndex(local, a.id)] == Bucket([a, b], []) && s.pending == []
  {
    var one := [Learn(a, ta)];
    LearnNew(Run(local, 2, maxFailures, []), a, ta, maxFailures);
    RunWith(local, 2, maxFailures, [], Learn(a, ta));
    assert [] + one == one && [] + [a] == [a];
    LearnNew(Run(local, 2, maxFailures, one), b, tb, maxFailures);
    RunWith(local, 2, maxFailures, one, Learn(b, tb));
    assert one + [Learn(b, tb)] == [Learn(a, ta), Learn(b, tb)] && [a] + [b] == [a, b];
  }

  /** With room for two, `a` and `c` are learnt, and `b` is cached while `a` is pinged. */
  lemma FillAndContact(local: NodeId, a: NodeInfo, b: NodeInfo, c: NodeInfo, maxFailures: nat,
                       ta: Instant, tc: Instant, tb: Instant)
    requires Neighbours(local, a, b, c)
    ensures var s := Run(local, 2, maxFailures, [Learn(a, ta), Learn(c, tc), Contact(b, tb)]);
            && s.table.buckets[BucketIndex(local, b.id)] == Bucket([a, c], [b])
            && s.pending == [Ping(a.id, b)]
  {
    var two := [Learn(a, ta), Learn(c, tc)];
    TwoLearnt(local, a, c, maxFailures, ta, tc);
    RunWith(local, 2, maxFailures, two, Contact(b, tb));
    assert two + [Contact(b, tb)] == [Learn(a, ta), Learn(c, tc), Contact(b, tb)];
    FullBucketPings(Run(local, 2, maxFailures, two), a, b, c, maxFailures, tb);
  }

  lemma FullBucketPings(s: State, a: NodeInfo, b: NodeInfo, c: NodeInfo, maxFailures: nat, tb: Instant)
    requires |s.table.buckets| == ID_BITS && s.table.k == 2 && Neighbours(s.table.local, a, b, c)
    requires s.table.buckets[BucketIndex(s.table.local, b.id)] == Bucket([a, c], []) && s.pending == []
    ensures var s' := Next(s, Contact(b, tb), maxFailures);
            && s'.table.buckets[BucketIndex(s.table.local, b.id)] == Bucket([a, c], [b])
            && s'.pending == [Ping(a.id, b)]
  {
    assert AddToCache([], b, 2) == [b];
  }

  /**
   With room for two, `b` is cached while `a` is pinged, `c` leaves and `b` is promoted, and then the lost ping
   pushes `b` once more.
   */
  lemma LostPingCanDuplicate(local: NodeId, a: NodeInfo, b: NodeInfo, c: NodeInfo, maxFailures: nat)
    requires Neighbours(local, a, b, c)
    ensures Run(local, 2, maxFailures, Duplicating(a, b, c)).table.buckets[BucketIndex(local, b.id)]
         == Bucket([b, b], [])
  {
    var front := [Learn(a, 0), Learn(c, 0), Contact(b, 0)];
    FillAndContact(local, a, b, c, maxFailures, 0, 0, 0);
    var s3 := Run(local, 2, maxFailures, front);
    LeaveAndLose(s3, a, b, c, maxFailures);
    RunWith(local, 2, maxFailures, front, Drop(c.id));
    RunWith(local, 2, maxFailures, front + [Drop(c.id)], PingLost(0));
    assert Duplicating(a, b, c) == front + [Drop(c.id)] + [PingLost(0)];
  }

  function Duplicating(a: NodeInfo, b: NodeInfo, c: NodeInfo): seq<Step> {
    [Learn(a, 0), Learn(c, 0), Contact(b, 0), Drop(c.id), PingLost(0)]
  }

  lemma LeaveAndLose(s3: State, a: NodeInfo, b: NodeInfo, c: NodeInfo, maxFailures: nat)
    requires |s3.table.buckets| == ID_BITS && s3.table.k == 2 && Neighbours(s3.table.local, a, b, c)
    requires s3.table.buckets[BucketIndex(s3.table.local, b.id)] == Bucket([a, c], [b])
    requires s3.pending == [Ping(a.id, b)]
    ensures var s4 := Next(s3, Drop(c.id), maxFailures);
            Next(s4, PingLost(0), maxFailures).table.buckets[BucketIndex(s3.table.local, b.id)] == Bucket([b, b], [])
  {
    var i := BucketIndex(s3.table.local, b.id);
    var s4 := Next(s3, Drop(c.id), maxFailures);
    assert RemoveAt([a, c], 1) == [a];
    assert IndexOf([a, c], c.id) == 1;
    assert s4.table.buckets[i] == Bucket([a, b], []);
    assert RemoveAt([a, b], 0) == [b];
  }

  /** What goes wrong then: `closest_nodes` returns `b` twice. */
  lemma DuplicateIsReturnedTwice(local: NodeId, a: NodeInfo, b: NodeInfo, c: NodeInfo, maxFailures: nat)
    requires Neighbours(local, a, b, c)
    ensures ClosestNodes(Run(local, 2, maxFailures, Duplicating(a, b, c)).table, b.id, 2) == [b, b]
  {
    var s := Run(local, 2, maxFailures, Duplicating(a, b, c));
    LostPingCanDuplicate(local, a, b, c, maxFailures);
    RunsKeepOk(local, 2, maxFailures, Duplicating(a, b, c));
    OnlyOfOneId([b, b], b.id);
    ResidentFindsItself(s.table, b.id, 2);
  }

  function FailedTimes(b: Bucket, id: NodeId, maxFailures: nat, n: nat): Bucket {
    if n == 0 then b else RecordFailure(FailedTimes(b, id, maxFailures, n - 1), id, maxFailures)
  }

  /** A bucket with `b` twice, of which the first copy has failed `n` times, or only its second copy. */
  function FirstCopyFailed(b: NodeInfo, maxFailures: nat, n: nat): Bucket {
    Bucket(if n < maxFailures then [b.(failCount := n), b] else [b], [])
  }

  /** And it outlives `maxFailures` failures in a row: they are all counted against its first entry. */
  lemma DuplicateOutlivesFailures(start: Bucket, b: NodeInfo, maxFailures: nat, n: nat)
    requires start == Bucket([b, b], []) && b.failCount == 0 && n <= maxFailures && 1 <= maxFailures <= 255
    ensures FailedTimes(start, b.id, maxFailures, n) == FirstCopyFailed(b, maxFailures, n)
    ensures HasId(FailedTimes(start, b.id, maxFailures, n).nodes, b.id)
  {
    UnfailedCopies(b, maxFailures);
    CopiesFail(start, b, maxFailures, n);
    CopyIsLeft(b, maxFailures, n);
  }

  ghost predicate FailsTo(start: Bucket, id: NodeId, maxFailures: nat, n: nat, after: Bucket) {
    FailedTimes(start, id, maxFailures, n) == after
  }

  ghost predicate FailsOnceTo(before: Bucket, id: NodeId, maxFailures: nat, after: Bucket) {
    RecordFailure(before, id, maxFailures) == after
  }

  lemma OneMoreFailure(start: Bucket, id: NodeId, maxFailures: nat, n: nat, before: Bucket, after: Bucket)
    requires n > 0 && FailsTo(start, id, maxFailures, n - 1, before) && FailsOnceTo(before, id, maxFailures, after)
    ensures FailsTo(start, id, maxFailures, n, after)
  {
  }

  lemma {:induction false} CopiesFail(start: Bucket, b: NodeInfo, maxFailures: nat, n: nat)
    requires start == FirstCopyFailed(b, maxFailures, 0) && n <= maxFailures <= 255
    ensures FailsTo(start, b.id, maxFailures, n, FirstCopyFailed(b, maxFailures, n))
  {
    if n > 0 {
      var before, after := FirstCopyFailed(b, maxFailures, n - 1), FirstCopyFailed(b, maxFailures, n);
      CopiesFail(start, b, maxFailures, n - 1);
      FirstCopyFails(b, maxFailures, n);
      OneMoreFailure(start, b.id, maxFailures, n, before, after);
    }
  }

  lemma UnfailedCopies(b: NodeInfo, maxFailures: nat)
    requires b.failCount == 0 && 1 <= maxFailures
    ensures FirstCopyFailed(b, maxFailures, 0) == Bucket([b, b], [])
  {
    assert b.(failCount := 0) == b;
  }

  lemma CopyIsLeft(b: NodeInfo, maxFailures: nat, n: nat)
    ensures HasId(FirstCopyFailed(b, maxFailures, n).nodes, b.id)
  {
    assert FirstCopyFailed(b, maxFailures, n).nodes[0].id == b.id;
  }

  lemma FirstCopyFails(b: NodeInfo, maxFailures: nat, n: nat)
    requires 0 < n <= maxFailures <= 255
    ensures FailsOnceTo(FirstCopyFailed(b, maxFailures, n - 1), b.id, maxFailures, FirstCopyFailed(b, maxFailures, n))
  {
    var nodes := [b.(failCount := n - 1), b];
    assert IndexOf(nodes, b.id) == 0;
    assert nodes[0 := b.(failCount := n)] == [b.(failCount := n), b];
    assert RemoveAt([b.(failCount := n), b], 0) == [b];
  }

  /** A second contact with the first of two residents leaves it before one that was seen earlier. */
  lemma ContactCanBreakSeenOrder(local: NodeId, a: NodeInfo, b: NodeInfo, maxFailures: nat)
    requires a.id != local && b.id != local && a.id != b.id
    requires BucketIndex(local, a.id) == BucketIndex(local, b.id)
    requires a.lastSeen == 1 && b.lastSeen == 2
    ensures var steps := [Learn(a, 1), Learn(b, 2), Contact(a, 3)];
            var nodes := Run(local, 2, maxFailures, steps).table.buckets[BucketIndex(local, a.id)].nodes;
            && Timed(steps) && |nodes| == 2
            && nodes[0].id == a.id && nodes[0].lastSeen == 3 && nodes[1] == b && !OldestSeenFirst(nodes)
  {
    var i := BucketIndex(local, a.id);
    var two, steps := [Learn(a, 1), Learn(b, 2)], [Learn(a, 1), Learn(b, 2), Contact(a, 3)];
    TwoLearnt(local, a, b, maxFailures, 1, 2);
    RunWith(local, 2, maxFailures, two, Contact(a, 3));
    assert two + [Contact(a, 3)] == steps;
    FirstSeenAgain(Bucket([a, b], []), a, b, 3);
    TimedWith([], Learn(a, 1));
    assert [] + [Learn(a, 1)] == [Learn(a, 1)];
    TimedWith([Learn(a, 1)], Learn(b, 2));
    assert [Learn(a, 1)] + [Learn(b, 2)] == two;
    TimedWith(two, Contact(a, 3));
  }

  lemma TimedWith(steps: seq<Step>, step: Step)
    ensures Timed(steps + [step]) <==>
              Timed(steps)
              && (HasTime(step) ==> Clock(steps) <= step.now && (step.Seen? || step.node.lastSeen <= step.now))
    ensures Clock(steps + [step]) == if HasTime(step) then step.now else Clock(steps)
  {
    assert (steps + [step])[..|steps|] == steps;
  }

  lemma FirstSeenAgain(bucket: Bucket, a: NodeInfo, b: NodeInfo, now: Instant)
    requires bucket == Bucket([a, b], []) && a.id != b.id
    ensures var nodes := Insert(bucket, 2, a, now).0.nodes;
            |nodes| == 2 && nodes[0].id == a.id && nodes[0].lastSeen == now && nodes[1] == b
  {
    assert IndexOf([a, b], a.id) == 0;
  }

  /**
   So does a promotion, although no contact is out of order: `b` is cached, the last resident `c` is seen again,
   and when `a` leaves, `b` comes after `c`.
   */
  lemma PromotionCanBreakSeenOrder(local: NodeId, a: NodeInfo, b: NodeInfo, c: NodeInfo, maxFailures: nat)
    requires Neighbours(local, a, b, c)
    requires a.lastSeen == 1 && c.lastSeen == 2 && b.lastSeen == 3
    ensures var steps := [Learn(a, 1), Learn(c, 2), Contact(b, 3), Contact(c, 4), Drop(a.id)];
            var nodes := Run(local, 2, maxFailures, steps).table.buckets[BucketIndex(local, b.id)].nodes;
            && |nodes| == 2 && nodes[0].id == c.id && nodes[0].lastSeen == 4 && nodes[1] == b
            && !OldestSeenFirst(nodes)
  {
    var front := [Learn(a, 1), Learn(c, 2), Contact(b, 3)];
    FillAndContact(local, a, b, c, maxFailures, 1, 2, 3);
    SeeAndLeave(Run(local, 2, maxFailures, front), a, b, c, maxFailures);
    RunWith(local, 2, maxFailures, front, Contact(c, 4));
    RunWith(local, 2, maxFailures, front + [Contact(c, 4)], Drop(a.id));
    assert front + [Contact(c, 4)] + [Drop(a.id)]
        == [Learn(a, 1), Learn(c, 2), Contact(b, 3), Contact(c, 4), Drop(a.id)];
  }

  lemma SeeAndLeave(s3: State, a: NodeInfo, b: NodeInfo, c: NodeInfo, maxFailures: nat)
    requires |s3.table.buckets| == ID_BITS && s3.table.k == 2 && Neighbours(s3.table.local, a, b, c)
    requires s3.table.buckets[BucketIndex(s3.table.local, b.id)] == Bucket([a, c], [b])
    ensures var s4 := Next(s3, Contact(c, 4), maxFailures);
            var nodes := Next(s4, Drop(a.id), maxFailures).table.buckets[BucketIndex(s3.table.local, b.id)].nodes;
            |nodes| == 2 && nodes[0].id == c.id && nodes[0].lastSeen == 4 && nodes[1] == b
  {
    SeenAgainThenPromoted(Bucket([a, c], [b]), a, b, c);
  }

  lemma SeenAgainThenPromoted(bucket: Bucket, a: NodeInfo, b: NodeInfo, c: NodeInfo)
    requires bucket == Bucket([a, c], [b]) && a.id != c.id
    ensures var seen := Insert(bucket, 2, c, 4).0;
            && |seen.nodes| == 2 && seen.cache == [b]
            && seen.nodes[0] == a && seen.nodes[1].id == c.id && seen.nodes[1].lastSeen == 4
            && Remove(seen, a.id).0.nodes == [seen.nodes[1], b]
  {
    assert IndexOf([a, c], c.id) == 1;
    var seen := Insert(bucket, 2, c, 4).0;
    assert seen.nodes == [a, seen.nodes[1]];
    assert RemoveAt(seen.nodes, 0) == [seen.nodes[1]];
  }
}
