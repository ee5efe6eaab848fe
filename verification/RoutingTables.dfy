/**
 The routing table object (`src/routing/table.rs`): 256 bucket objects, updated in place.  Each method is tied
 to the function of the same role on the table's value.
 */
module RoutingTables {
  import opened Sequences
  import opened NodeIds
  import opened Addresses
  import opened Buckets
  import opened KBuckets
  import opened Nearest
  import opened Partitions
  import opened Routing

  class RoutingTable {
    const local: NodeId
    const k: nat
    const buckets: seq<KBucket>

    ghost predicate Valid()
      reads this, buckets
    {
      && |buckets| == ID_BITS
      && (forall i, j :: 0 <= i < j < ID_BITS ==> buckets[i] != buckets[j])
      && (forall i :: 0 <= i < ID_BITS ==> buckets[i].Valid() && buckets[i].k == k)
    }

    ghost function Value(): Table
      reads this, buckets
    {
      Table(local, k, seq(|buckets|, i requires 0 <= i < |buckets| reads this, buckets => buckets[i].Value()))
    }

    constructor (local: NodeId, k: nat, now: Instant)
      ensures Valid() && this.local == local && this.k == k && fresh(buckets)
      ensures Value() == Table(local, k, seq(ID_BITS, _ => Bucket([], [])))
    {
      var made: seq<KBucket> := [];
      for n := 0 to 256
        invariant |made| == n
        invariant forall i :: 0 <= i < n ==> fresh(made[i]) && made[i].Valid() && made[i].k == k
        invariant forall i :: 0 <= i < n ==> made[i].Value() == Bucket([], [])
        invariant forall i, j :: 0 <= i < j < n ==> made[i] != made[j]
      {
        var bucket := new KBucket(k, now);
        made := made + [bucket];
      }
      this.local, this.k, buckets := local, k, made;
    }

    method BucketIndexOf(id: NodeId) returns (i: nat)
      ensures i == BucketIndex(local, id)
    {
      var distance := ComputeDistance(local, id);
      var cpl := ComputeLeadingZeros(distance);
      i := if cpl < 255 then cpl else 255;
    }

    method Insert(node: NodeInfo, now: Instant) returns (result: InsertResult)
      requires Valid() && k >= 1
      modifies buckets
      ensures Valid() && (Value(), result) == InsertNode(old(Value()), node, now)
    {
      if node.id == local {
        assert Value() == old(Value());
        return Updated;
      }
      var i := BucketIndexOf(node.id);
      result := buckets[i].Insert(node, now);
      assert Value().buckets == old(Value()).buckets[i := buckets[i].Value()];
    }

    method EvictAndInsert(failed: NodeId, node: NodeInfo, now: Instant) returns (evicted: bool)
      requires Valid()
      modifies buckets
      ensures Valid() && (Value(), evicted) == EvictNode(old(Value()), failed, node)
    {
      var i := BucketIndexOf(failed);
      evicted := buckets[i].EvictAndInsert(failed, node, now);
      assert Value().buckets == old(Value()).buckets[i := buckets[i].Value()];
    }

    method Remove(id: NodeId) returns (removed: bool)
      requires Valid()
      modifies buckets
      ensures Valid() && (Value(), removed) == RemoveNode(old(Value()), id)
    {
      var i := BucketIndexOf(id);
      removed := buckets[i].Remove(id);
      assert Value().buckets == old(Value()).buckets[i := buckets[i].Value()];
    }

    method RecordFailure(id: NodeId, maxFailures: nat)
      requires Valid()
      modifies buckets
      ensures Valid() && Value() == FailNode(old(Value()), id, maxFailures)
    {
      var i := BucketIndexOf(id);
      RecordFailureIn(i, id, maxFailures);
    }

    method RecordFailureByAddr(addr: SocketAddr, maxFailures: nat)
      requires Valid()
      modifies buckets
      ensures Valid() && Value() == FailAddress(old(Value()), addr, maxFailures)
    {
      ghost var tb := Value();
      for i := 0 to 256
        invariant Valid() && Value() == tb
        invariant BucketOfAddress(tb, addr, 0) == BucketOfAddress(tb, addr, i)
      {
        assert tb.buckets[i] == buckets[i].Value();
        var p := IndexOfAddress(buckets[i].nodes, addr);
        if p < |buckets[i].nodes| {
          RecordFailureIn(i, buckets[i].nodes[p].id, maxFailures);
          return;
        }
      }
    }

    method RecordFailureIn(i: nat, id: NodeId, maxFailures: nat)
      requires Valid() && i < ID_BITS
      modifies buckets
      ensures Valid()
      ensures Value() == old(Value()).(buckets :=
                old(Value()).buckets[i := Buckets.RecordFailure(old(Value()).buckets[i], id, maxFailures)])
    {
      buckets[i].RecordFailure(id, maxFailures);
      assert Value().buckets == old(Value()).buckets[i := buckets[i].Value()];
    }

    method MarkSeen(id: NodeId, now: Instant)
      requires Valid()
      modifies buckets
      ensures Valid() && Value() == SeeNode(old(Value()), id, now)
    {
      var i := BucketIndexOf(id);
      buckets[i].MarkSeen(id, now);
      assert Value().buckets == old(Value()).buckets[i := buckets[i].Value()];
    }

    /** The outward walk, then the sort. */
    method ClosestNodes(target: NodeId, count: nat) returns (closest: seq<NodeInfo>)
      requires Valid()
      ensures closest == Routing.ClosestNodes(Value(), target, count)
    {
      ghost var tb := Value();
      var center := BucketIndexOf(target);
      var candidates: seq<NodeInfo> := [];
      var lo, hi: int := center, center + 1;
      assert Walk(tb, count, Scan(candidates, lo, hi)) == ScanFor(tb, target, count);
      while |candidates| < count && (lo >= 0 || hi < 256)
        invariant -1 <= lo < 256 && 0 <= hi <= 256
        invariant Walk(tb, count, Scan(candidates, lo, hi)) == ScanFor(tb, target, count)
        decreases lo + 1 + 256 - hi
      {
        WalkUnfolds(tb, count, Scan(candidates, lo, hi));
        candidates, lo, hi := ScanRound(tb, candidates, lo, hi);
      }
      WalkUnfolds(tb, count, Scan(candidates, lo, hi));
      candidates := SortByDistance(target, candidates);
      closest := Truncate(candidates, count);
    }

    /** The body of that loop. */
    method ScanRound(ghost tb: Table, candidates: seq<NodeInfo>, lo: int, hi: int)
      returns (extended: seq<NodeInfo>, lo': int, hi': int)
      requires Valid() && tb == Value() && -1 <= lo < 256 && 0 <= hi <= 256
      ensures Scan(extended, lo', hi') == NextScan(tb, Scan(candidates, lo, hi))
    {
      extended, lo', hi' := candidates, lo, hi;
      if lo >= 0 {
        extended := PushNodes(extended, buckets[lo]);
        lo' := lo - 1;
      }
      if hi < 256 {
        extended := PushNodes(extended, buckets[hi]);
        hi' := hi + 1;
      }
    }

    static method PushNodes(candidates: seq<NodeInfo>, bucket: KBucket) returns (extended: seq<NodeInfo>)
      ensures extended == candidates + bucket.nodes
    {
      extended := candidates;
      for i := 0 to |bucket.nodes|
        invariant extended == candidates + bucket.nodes[..i]
      {
        extended := extended + [bucket.nodes[i]];
      }
    }

    method AllNodesSnapshot() returns (result: seq<NodeInfo>)
      requires Valid()
      ensures result == AllNodes(Value())
    {
      result := [];
      for i := 0 to 256
        invariant result == Span(ResidentRows(Value()), 0, i)
      {
        assert ResidentRows(Value())[i] == buckets[i].nodes;
        result := PushNodes(result, buckets[i]);
      }
    }

    /**
     A random id for a bucket: prefix of the local id, flipped bit, rest from the draw.  Asking for bucket
     256 or beyond copies the local id.
     */
    method RandomIdForBucket(bucketIndex: nat, draw: NodeId) returns (id: NodeId)
      ensures bucketIndex < ID_BITS ==> BucketIndex(local, id) == bucketIndex && id != local
      ensures forall p :: bucketIndex < p < ID_BITS ==> Bit(id, p) == Bit(draw, p)
      ensures bucketIndex >= ID_BITS ==> id == local
    {
      var bytes := new bv8[32](i requires 0 <= i < 32 => draw[i]);
      assert bytes[..] == draw;
      CopyPrefix(bytes, if bucketIndex < 256 then bucketIndex else 256);
      if bucketIndex < 256 {
        MakeBitDiffer(bytes, bucketIndex);
      }
      id := bytes[..];
      CplIsFirstDifference(local, id);
      if bucketIndex < 256 {
        CplFromSplit(local, id, bucketIndex);
      }
    }

    method CopyPrefix(bytes: array<bv8>, prefix: nat)
      requires bytes.Length == 32 && prefix <= 256
      modifies bytes
      ensures forall p :: 0 <= p < prefix ==> Bit(bytes[..], p) == Bit(local, p)
      ensures forall p :: prefix <= p < ID_BITS ==> Bit(bytes[..], p) == Bit(old(bytes[..]), p)
    {
      for bit := 0 to prefix
        invariant forall p :: 0 <= p < bit ==> Bit(bytes[..], p) == Bit(local, p)
        invariant forall p :: bit <= p < ID_BITS ==> Bit(bytes[..], p) == Bit(old(bytes[..]), p)
      {
        CopyOneBit(bytes, bit);
      }
    }

    method CopyOneBit(bytes: array<bv8>, bit: nat)
      requires bytes.Length == 32 && bit < 256
      modifies bytes
      ensures Bit(bytes[..], bit) == Bit(local, bit)
      ensures forall p :: 0 <= p < ID_BITS && p != bit ==> Bit(bytes[..], p) == Bit(old(bytes[..]), p)
    {
      ghost var before := bytes[..];
      var byteIdx := bit / 8;
      var mixed := MixBit(bytes[byteIdx], local[byteIdx], bit % 8);
      OneBitChanged(before, bit, mixed);
      bytes[byteIdx] := mixed;
      assert bytes[..] == before[byteIdx := mixed];
    }

    method MakeBitDiffer(bytes: array<bv8>, bit: nat)
      requires bytes.Length == 32 && bit < 256
      modifies bytes
      ensures Bit(bytes[..], bit) != Bit(local, bit)
      ensures forall p :: 0 <= p < ID_BITS && p != bit ==> Bit(bytes[..], p) == Bit(old(bytes[..]), p)
    {
      ghost var before := bytes[..];
      var byteIdx := bit / 8;
      var same := SameBit(bytes[byteIdx], local[byteIdx], bit % 8);
      if same {
        var flipped := FlipBit(bytes[byteIdx], bit % 8);
        OneBitChanged(before, bit, flipped);
        bytes[byteIdx] := flipped;
        assert bytes[..] == before[byteIdx := flipped];
      }
    }
  }

  /** `x` with bit `i` of `y`. */
  method MixBit(x: bv8, y: bv8, i: nat) returns (z: bv8)
    requires i < 8
    ensures BitOf(z, i) == BitOf(y, i) && AgreeExcept(z, x, i)
  {
    var mask := ShiftedMask(i);
    z := (x & !mask) | (y & mask);
    MixedByte(x, y, i, z);
  }

  method SameBit(x: bv8, y: bv8, i: nat) returns (same: bool)
    requires i < 8
    ensures same <==> BitOf(x, i) == BitOf(y, i)
  {
    var mask := ShiftedMask(i);
    same := x & mask == y & mask;
    SameAtMask(x, y, mask);
  }

  method FlipBit(x: bv8, i: nat) returns (z: bv8)
    requires i < 8
    ensures BitOf(z, i) != BitOf(x, i) && AgreeExcept(z, x, i)
  {
    var mask := ShiftedMask(i);
    z := x ^ mask;
    FlippedByte(x, i, z);
  }

  method ShiftedMask(i: nat) returns (mask: bv8)
    requires i < 8
    ensures mask == Mask(i) && mask & (mask - 1) == 0
  {
    MaskIsShift(i);
    MaskHasOneBit(i);
    mask := 0x80 >> i;
  }

  // ----- changing one bit

  /** Two bytes that agree on every bit but bit `i`. */
  ghost predicate AgreeExcept(x: bv8, y: bv8, i: nat) {
    forall j :: 0 <= j < 8 && j != i ==> BitOf(x, j) == BitOf(y, j)
  }

  /** Changing one bit of one byte of an id changes that bit alone. */
  lemma OneBitChanged(s: NodeId, bit: nat, z: bv8)
    requires bit < ID_BITS
    requires AgreeExcept(z, s[bit / 8], bit % 8)
    ensures var r := s[bit / 8 := z];
            && Bit(r, bit) == BitOf(z, bit % 8)
            && forall p :: 0 <= p < ID_BITS && p != bit ==> Bit(r, p) == Bit(s, p)
  {
    var r := s[bit / 8 := z];
    forall p | 0 <= p < ID_BITS && p != bit ensures Bit(r, p) == Bit(s, p) {
      if p / 8 == bit / 8 && p % 8 == bit % 8 { PositionSplits(p, bit); }
    }
  }

  lemma PositionSplits(p: nat, q: nat)
    requires p / 8 == q / 8 && p % 8 == q % 8
    ensures p == q
  {
  }

  lemma MixedByte(x: bv8, y: bv8, i: nat, z: bv8)
    requires i < 8 && z == (x & !Mask(i)) | (y & Mask(i))
    ensures BitOf(z, i) == BitOf(y, i) && AgreeExcept(z, x, i)
  {
    MixAtMask(x, y, z, Mask(i));
    forall j | 0 <= j < 8 && j != i ensures BitOf(z, j) == BitOf(x, j) {
      MixedElsewhere(x, y, i, z, j);
    }
  }

  lemma MixedElsewhere(x: bv8, y: bv8, i: nat, z: bv8, j: nat)
    requires i < 8 && j < 8 && i != j && z == (x & !Mask(i)) | (y & Mask(i))
    ensures BitOf(z, j) == BitOf(x, j)
  {
    MasksAreDisjoint(i, j);
    MixOffMask(x, y, z, Mask(i), Mask(j));
  }

  lemma FlippedByte(x: bv8, i: nat, z: bv8)
    requires i < 8 && z == x ^ Mask(i)
    ensures BitOf(z, i) != BitOf(x, i) && AgreeExcept(z, x, i)
  {
    MaskHasOneBit(i);
    FlipAtMask(x, z, Mask(i));
    forall j | 0 <= j < 8 && j != i ensures BitOf(z, j) == BitOf(x, j) {
      FlippedElsewhere(x, i, z, j);
    }
  }

  lemma FlippedElsewhere(x: bv8, i: nat, z: bv8, j: nat)
    requires i < 8 && j < 8 && i != j && z == x ^ Mask(i)
    ensures BitOf(z, j) == BitOf(x, j)
  {
    MasksAreDisjoint(i, j);
    FlipOffMask(x, z, Mask(i), Mask(j));
  }

  lemma MasksAreDisjoint(i: nat, j: nat)
    requires i < 8 && j < 8 && i != j
    ensures Mask(i) & Mask(j) == 0
  {
  }

  lemma MixAtMask(x: bv8, y: bv8, z: bv8, m: bv8)
    requires z == (x & !m) | (y & m)
    ensures Meets(z, m) == Meets(y, m)
  {
  }

  lemma MixOffMask(x: bv8, y: bv8, z: bv8, m: bv8, n: bv8)
    requires z == (x & !m) | (y & m) && m & n == 0
    ensures Meets(z, n) == Meets(x, n)
  {
  }

  lemma FlipAtMask(x: bv8, z: bv8, m: bv8)
    requires z == x ^ m && m != 0 && m & (m - 1) == 0
    ensures Meets(z, m) != Meets(x, m)
  {
  }

  lemma FlipOffMask(x: bv8, z: bv8, m: bv8, n: bv8)
    requires z == x ^ m && m & n == 0
    ensures Meets(z, n) == Meets(x, n)
  {
  }

  lemma SameAtMask(x: bv8, y: bv8, m: bv8)
    requires m & (m - 1) == 0
    ensures x & m == y & m <==> Meets(x, m) == Meets(y, m)
  {
  }
}
