/**
 The 256-bit identifier space of the DHT: XOR distance, its byte-lexicographic order, and the common
 prefix length that picks a bucket.  The byte-level algorithms of `src/identity/node_id.rs` are methods;
 they are proved against bit-level definitions, and the order is tied to the numeric value of a distance.
 */
module NodeIds {

  const ID_BYTES := 32
  const ID_BITS := 256

  type NodeId = s: seq<bv8> | |s| == 32 witness seq(32, _ => 0)
  type Distance = NodeId

  const MASKS: seq<bv8> := [0x80, 0x40, 0x20, 0x10, 0x08, 0x04, 0x02, 0x01]

  /** The mask of bit `i` of a byte, most significant bit first. */
  function Mask(i: nat): bv8
    requires i < 8
  {
    MASKS[i]
  }

  /** It is the constant the code obtains by shifting. */
  lemma MaskIsShift(i: nat)
    requires i < 8
    ensures Mask(i) == (0x80 as bv8) >> i
  {
    if i == 0 {} else if i == 1 {} else if i == 2 {} else if i == 3 {}
    else if i == 4 {} else if i == 5 {} else if i == 6 {} else {}
  }

  predicate Meets(b: bv8, m: bv8) {
    b & m != 0
  }

  /** Bit `i` of a byte. */
  predicate BitOf(b: bv8, i: nat)
    requires i < 8
  {
    Meets(b, Mask(i))
  }

  /** Bit `p` of an identifier, counting from the most significant bit of byte 0. */
  predicate Bit(s: NodeId, p: nat)
    requires p < ID_BITS
  {
    BitOf(s[p / 8], p % 8)
  }

  function Xor(a: NodeId, b: NodeId): Distance {
    seq(ID_BYTES, i requires 0 <= i < ID_BYTES => a[i] ^ b[i])
  }

  /** `n` is the position of the first set bit of `d`, or 256 when there is none. */
  ghost predicate FirstSetBit(d: Distance, n: nat) {
    && n <= ID_BITS
    && (forall p :: 0 <= p < n ==> !Bit(d, p))
    && (n < ID_BITS ==> Bit(d, n))
  }

  /** The number of leading zero bits, found bit by bit. */
  function LeadingZerosFrom(d: Distance, p: nat): (n: nat)
    requires p <= ID_BITS
    ensures p <= n <= ID_BITS
    ensures forall q :: p <= q < n ==> !Bit(d, q)
    ensures n < ID_BITS ==> Bit(d, n)
    decreases ID_BITS - p
  {
    if p == ID_BITS then p
    else if Bit(d, p) then p
    else LeadingZerosFrom(d, p + 1)
  }

  function Cpl(a: NodeId, b: NodeId): nat {
    LeadingZerosFrom(Xor(a, b), 0)
  }

  /** Bucket 255 also takes the (never inserted) identical id, whose prefix length is 256. */
  function BucketIndex(local: NodeId, id: NodeId): (i: nat)
    ensures i < ID_BITS
  {
    var cpl := Cpl(local, id);
    if cpl < 255 then cpl else 255
  }

  /** Byte-lexicographic comparison, the order `[u8; 32]` has. */
  predicate LessFrom(x: Distance, y: Distance, i: nat)
    requires i <= ID_BYTES
    decreases ID_BYTES - i
  {
    if i == ID_BYTES then false
    else if x[i] != y[i] then x[i] < y[i]
    else LessFrom(x, y, i + 1)
  }

  predicate Less(x: Distance, y: Distance) {
    LessFrom(x, y, 0)
  }

  /** The big-endian number the first `n` bytes spell. */
  function ValueOf(x: Distance, n: nat): nat
    requires n <= ID_BYTES
  {
    if n == 0 then 0 else ValueOf(x, n - 1) * 256 + x[n - 1] as int
  }

  /** XOR distance from `t` as a number: the measure all lookups and sorts order by. */
  function Rank(t: NodeId, a: NodeId): nat {
    ValueOf(Xor(t, a), ID_BYTES)
  }

  // ----- the algorithms of node_id.rs

  method ComputeDistance(a: NodeId, b: NodeId) returns (d: Distance)
    ensures d == Xor(a, b)
  {
    var result := new bv8[32](_ => 0);
    for i := 0 to 32
      invariant forall j :: 0 <= j < i ==> result[j] == a[j] ^ b[j]
    {
      result[i] := a[i] ^ b[i];
    }
    d := result[..];
    assert d == Xor(a, b);
  }

  /** `u8::leading_zeros`. */
  function ByteLeadingZeros(b: bv8): (n: nat)
    ensures n <= 8
    ensures forall i :: 0 <= i < n ==> b & Mask(i) == 0
    ensures n < 8 ==> b & Mask(n) != 0
  {
    MaskTable();
    if b & 0x80 != 0 then 0
    else if b & 0x40 != 0 then 1
    else if b & 0x20 != 0 then 2
    else if b & 0x10 != 0 then 3
    else if b & 0x08 != 0 then 4
    else if b & 0x04 != 0 then 5
    else if b & 0x02 != 0 then 6
    else if b & 0x01 != 0 then 7
    else 8
  }

  /** The byte-wise scan with early return finds the first set bit. */
  method ComputeLeadingZeros(d: Distance) returns (n: nat)
    ensures n == LeadingZerosFrom(d, 0)
  {
    for i := 0 to 32
      invariant forall p :: 0 <= p < i * 8 ==> !Bit(d, p)
    {
      if d[i] != 0 {
        n := i * 8 + ByteLeadingZeros(d[i]);
        NonzeroByteHasBit(d[i]);
        forall p | i * 8 <= p < n ensures !Bit(d, p) {
          assert p / 8 == i && p % 8 == p - i * 8;
        }
        assert n / 8 == i && n % 8 == ByteLeadingZeros(d[i]);
        FirstSetBitIsUnique(d, n, LeadingZerosFrom(d, 0));
        return;
      }
      ZeroByteHasNoBit();
    }
    n := 256;
    FirstSetBitIsUnique(d, n, LeadingZerosFrom(d, 0));
  }

  /** `Distance::is_zero`: every byte zero, which is the same as no bit set. */
  lemma IsZeroIffNoBit(d: Distance)
    ensures (forall i :: 0 <= i < ID_BYTES ==> d[i] == 0) <==> LeadingZerosFrom(d, 0) == ID_BITS
  {
    ZeroByteHasNoBit();
    if LeadingZerosFrom(d, 0) == ID_BITS {
      forall i | 0 <= i < ID_BYTES ensures d[i] == 0 {
        forall j | 0 <= j < 8 ensures d[i] & Mask(j) == 0 { BitOfByte(d, i, j); }
        assert SameBits(d[i], 0, 8);
        EqualBitsEqualByte(d[i], 0);
      }
    }
  }

  // ----- bytes and bits

  lemma MaskTable()
    ensures Mask(0) == 0x80 && Mask(1) == 0x40 && Mask(2) == 0x20 && Mask(3) == 0x10
    ensures Mask(4) == 0x08 && Mask(5) == 0x04 && Mask(6) == 0x02 && Mask(7) == 0x01
  {
  }

  lemma ZeroByteHasNoBit()
    ensures forall i :: 0 <= i < 8 ==> (0 as bv8) & Mask(i) == 0
  {
  }

  lemma NonzeroByteHasBit(b: bv8)
    ensures b != 0 <==> ByteLeadingZeros(b) < 8
  {
  }

  lemma BitOfByte(s: NodeId, i: nat, j: nat)
    requires i < ID_BYTES && j < 8
    ensures Bit(s, i * 8 + j) <==> s[i] & Mask(j) != 0
  {
    assert (i * 8 + j) / 8 == i && (i * 8 + j) % 8 == j;
  }

  lemma FirstSetBitIsUnique(d: Distance, m: nat, n: nat)
    requires FirstSetBit(d, m) && FirstSetBit(d, n)
    ensures m == n
  {
  }

  lemma XorBit(a: NodeId, b: NodeId, p: nat)
    requires p < ID_BITS
    ensures Bit(Xor(a, b), p) <==> Bit(a, p) != Bit(b, p)
  {
    XorBitOfByte(a[p / 8], b[p / 8], Xor(a, b)[p / 8], p % 8);
  }

  lemma XorBitOfByte(x: bv8, y: bv8, z: bv8, r: nat)
    requires r < 8 && z == x ^ y
    ensures BitOf(z, r) <==> BitOf(x, r) != BitOf(y, r)
  {
    MaskHasOneBit(r);
    XorThroughMask(x, y, z, Mask(r));
  }

  lemma MaskHasOneBit(i: nat)
    requires i < 8
    ensures Mask(i) != 0 && Mask(i) & (Mask(i) - 1) == 0
  {
  }

  lemma XorThroughMask(x: bv8, y: bv8, z: bv8, m: bv8)
    requires z == x ^ y && m & (m - 1) == 0
    ensures Meets(z, m) <==> Meets(x, m) != Meets(y, m)
  {
  }

  // ----- common prefix length

  /** The common prefix length is the first position where two ids differ, and 256 only for equal ids. */
  lemma CplIsFirstDifference(a: NodeId, b: NodeId)
    ensures Cpl(a, b) <= ID_BITS
    ensures forall p :: 0 <= p < Cpl(a, b) ==> Bit(a, p) == Bit(b, p)
    ensures Cpl(a, b) < ID_BITS ==> Bit(a, Cpl(a, b)) != Bit(b, Cpl(a, b))
    ensures Cpl(a, b) == ID_BITS <==> a == b
  {
    var n := Cpl(a, b);
    forall p | 0 <= p < n ensures Bit(a, p) == Bit(b, p) { XorBit(a, b, p); }
    if n < ID_BITS { XorBit(a, b, n); }
    IsZeroIffNoBit(Xor(a, b));
    if n == ID_BITS {
      forall i | 0 <= i < ID_BYTES ensures a[i] == b[i] {
        assert Xor(a, b)[i] == 0;
        XorZeroIffEqual(a[i], b[i]);
      }
    }
  }

  lemma XorZeroIffEqual(x: bv8, y: bv8)
    ensures x ^ y == 0 <==> x == y
  {
  }

  /** Any position with agreement before it and a difference at it is the common prefix length. */
  lemma CplFromSplit(a: NodeId, b: NodeId, n: nat)
    requires n < ID_BITS
    requires forall p :: 0 <= p < n ==> Bit(a, p) == Bit(b, p)
    requires Bit(a, n) != Bit(b, n)
    ensures Cpl(a, b) == n
  {
    CplIsFirstDifference(a, b);
  }

  /** Prefix length is an ultrametric: the two smallest sides of every triangle are equal. */
  lemma CplUltrametric(a: NodeId, b: NodeId, c: NodeId)
    ensures Cpl(a, b) < Cpl(b, c) ==> Cpl(a, c) == Cpl(a, b)
    ensures Cpl(a, c) >= if Cpl(a, b) < Cpl(b, c) then Cpl(a, b) else Cpl(b, c)
  {
    CplIsFirstDifference(a, b);
    CplIsFirstDifference(b, c);
    CplIsFirstDifference(a, c);
    var m := if Cpl(a, b) < Cpl(b, c) then Cpl(a, b) else Cpl(b, c);
    assert forall p :: 0 <= p < m ==> Bit(a, p) == Bit(b, p) && Bit(b, p) == Bit(c, p);
    if Cpl(a, b) < Cpl(b, c) { CplFromSplit(a, c, m); }
  }

  // ----- order

  lemma LessIsNumericFrom(x: Distance, y: Distance, i: nat)
    requires i <= ID_BYTES
    requires x[..i] == y[..i]
    ensures LessFrom(x, y, i) <==> ValueOf(x, ID_BYTES) < ValueOf(y, ID_BYTES)
    ensures x != y ==> LessFrom(x, y, i) || LessFrom(y, x, i)
    decreases ID_BYTES - i
  {
    if i == ID_BYTES {
      assert x == x[..i] && y == y[..i];
    } else if x[i] != y[i] {
      ValueGapOpens(x, y, i);
      if x[i] < y[i] {
        ValueGapKept(x, y, i + 1, ID_BYTES);
      } else {
        ValueGapKept(y, x, i + 1, ID_BYTES);
      }
    } else {
      assert x[..i + 1] == y[..i + 1];
      LessIsNumericFrom(x, y, i + 1);
    }
  }

  lemma {:induction false} ValueOfPrefix(x: Distance, y: Distance, n: nat)
    requires n <= ID_BYTES
    requires x[..n] == y[..n]
    ensures ValueOf(x, n) == ValueOf(y, n)
  {
    if n > 0 {
      assert x[n - 1] == x[..n][n - 1] == y[..n][n - 1] == y[n - 1];
      assert x[..n - 1] == x[..n][..n - 1] == y[..n - 1];
      ValueOfPrefix(x, y, n - 1);
    }
  }

  lemma ValueGapOpens(x: Distance, y: Distance, n: nat)
    requires n < ID_BYTES
    requires x[..n] == y[..n]
    ensures x[n] < y[n] <==> ValueOf(x, n + 1) < ValueOf(y, n + 1)
    ensures x[n] == y[n] <==> ValueOf(x, n + 1) == ValueOf(y, n + 1)
  {
    ValueOfPrefix(x, y, n);
  }

  lemma {:induction false} ValueGapKept(x: Distance, y: Distance, m: nat, n: nat)
    requires m <= n <= ID_BYTES
    requires ValueOf(x, m) < ValueOf(y, m)
    ensures ValueOf(x, n) < ValueOf(y, n)
  {
    if m < n {
      ValueGapKept(x, y, m, n - 1);
    }
  }

  /** Byte-lexicographic order is numeric order. */
  lemma LessIsNumeric(x: Distance, y: Distance)
    ensures Less(x, y) <==> ValueOf(x, ID_BYTES) < ValueOf(y, ID_BYTES)
    ensures x == y <==> ValueOf(x, ID_BYTES) == ValueOf(y, ID_BYTES)
  {
    assert x[..0] == y[..0];
    LessIsNumericFrom(x, y, 0);
    LessIsNumericFrom(y, x, 0);
  }

  /** Distances from a fixed target tell ids apart. */
  lemma RankInjective(t: NodeId, a: NodeId, b: NodeId)
    ensures Rank(t, a) == Rank(t, b) <==> a == b
  {
    LessIsNumeric(Xor(t, a), Xor(t, b));
    if Xor(t, a) == Xor(t, b) {
      forall i | 0 <= i < ID_BYTES ensures a[i] == b[i] {
        assert Xor(t, a)[i] == Xor(t, b)[i];
        XorCancels(t[i], a[i], b[i]);
      }
    }
  }

  lemma XorCancels(k: bv8, x: bv8, y: bv8)
    ensures k ^ x == k ^ y <==> x == y
  {
  }

  /** Two bytes agree on their first `r` bits. */
  ghost predicate SameBits(x: bv8, y: bv8, r: nat)
    requires r <= 8
  {
    forall j :: 0 <= j < r ==> (x & Mask(j) != 0) == (y & Mask(j) != 0)
  }

  lemma ByteAgreesUpTo(x: NodeId, y: NodeId, i: nat, r: nat)
    requires i < ID_BYTES && r <= 8
    requires forall p :: i * 8 <= p < i * 8 + r ==> Bit(x, p) == Bit(y, p)
    ensures SameBits(x[i], y[i], r)
  {
    forall j | 0 <= j < r ensures (x[i] & Mask(j) != 0) == (y[i] & Mask(j) != 0) {
      BitOfByte(x, i, j);
      BitOfByte(y, i, j);
      assert Bit(x, i * 8 + j) == Bit(y, i * 8 + j);
    }
  }

  /** The first differing byte decides the byte-lexicographic order. */
  lemma {:induction false} LessAtByte(x: Distance, y: Distance, m: nat, i: nat)
    requires i <= m < ID_BYTES
    requires forall j :: i <= j < m ==> x[j] == y[j]
    requires x[m] != y[m]
    ensures LessFrom(x, y, i) <==> x[m] < y[m]
    decreases m - i
  {
    if i < m {
      LessAtByte(x, y, m, i + 1);
    }
  }

  lemma BytesBeforeAgree(x: Distance, y: Distance, m: nat)
    requires m <= ID_BYTES
    requires forall p :: 0 <= p < m * 8 ==> Bit(x, p) == Bit(y, p)
    ensures forall i :: 0 <= i < m ==> x[i] == y[i]
  {
    forall i | 0 <= i < m ensures x[i] == y[i] {
      ByteAgreesUpTo(x, y, i, 8);
      EqualBitsEqualByte(x[i], y[i]);
    }
  }

  /** The first differing bit decides the byte-lexicographic order. */
  lemma LessAtBit(x: Distance, y: Distance, n: nat)
    requires n < ID_BITS
    requires forall p :: 0 <= p < n ==> Bit(x, p) == Bit(y, p)
    requires Bit(x, n) != Bit(y, n)
    ensures Less(x, y) <==> Bit(y, n)
  {
    var m, r := n / 8, n % 8;
    assert n == m * 8 + r;
    BytesBeforeAgree(x, y, m);
    ByteAgreesUpTo(x, y, m, r);
    BitOfByte(x, m, r);
    BitOfByte(y, m, r);
    ByteOrderAtBit(x[m], y[m], r);
    LessAtByte(x, y, m, 0);
  }

  lemma EqualBitsEqualByte(x: bv8, y: bv8)
    requires SameBits(x, y, 8)
    ensures x == y
  {
    MaskTable();
    assert (x & Mask(0) != 0) == (y & Mask(0) != 0) && (x & Mask(1) != 0) == (y & Mask(1) != 0);
    assert (x & Mask(2) != 0) == (y & Mask(2) != 0) && (x & Mask(3) != 0) == (y & Mask(3) != 0);
    assert (x & Mask(4) != 0) == (y & Mask(4) != 0) && (x & Mask(5) != 0) == (y & Mask(5) != 0);
    assert (x & Mask(6) != 0) == (y & Mask(6) != 0) && (x & Mask(7) != 0) == (y & Mask(7) != 0);
  }

  lemma ByteOrderAtBit(x: bv8, y: bv8, r: nat)
    requires r < 8
    requires SameBits(x, y, r)
    requires (x & Mask(r) != 0) != (y & Mask(r) != 0)
    ensures x != y
    ensures x < y <==> y & Mask(r) != 0
  {
    MaskTable();
    if r > 0 { assert (x & Mask(0) != 0) == (y & Mask(0) != 0); }
    if r > 1 { assert (x & Mask(1) != 0) == (y & Mask(1) != 0); }
    if r > 2 { assert (x & Mask(2) != 0) == (y & Mask(2) != 0); }
    if r > 3 { assert (x & Mask(3) != 0) == (y & Mask(3) != 0); }
    if r > 4 { assert (x & Mask(4) != 0) == (y & Mask(4) != 0); }
    if r > 5 { assert (x & Mask(5) != 0) == (y & Mask(5) != 0); }
    if r > 6 { assert (x & Mask(6) != 0) == (y & Mask(6) != 0); }
  }

  /**
   Of two different ids, the one that shares the target's bit at their first difference is the closer one.
   */
  lemma CloserAtSplit(t: NodeId, a: NodeId, b: NodeId)
    requires a != b
    ensures Cpl(a, b) < ID_BITS
    ensures Rank(t, a) < Rank(t, b) <==> Bit(t, Cpl(a, b)) == Bit(a, Cpl(a, b))
  {
    var x, y, p := Xor(t, a), Xor(t, b), Cpl(a, b);
    CplIsFirstDifference(a, b);
    forall q | 0 <= q < ID_BITS ensures Bit(x, q) == (Bit(t, q) != Bit(a, q)) && Bit(y, q) == (Bit(t, q) != Bit(b, q)) {
      XorBit(t, a, q);
      XorBit(t, b, q);
    }
    LessAtBit(x, y, p);
    LessIsNumeric(x, y);
  }

  /**
   Buckets are totally ordered around any target: of two buckets `i < j` of the table of `local`, every
   node of `i` is closer to `t` than every node of `j` exactly when `t` and `local` differ at bit `i`.
   */
  lemma BucketsAlignWithDistance(local: NodeId, t: NodeId, a: NodeId, b: NodeId)
    requires a != local && b != local
    requires BucketIndex(local, a) < BucketIndex(local, b)
    ensures Rank(t, a) < Rank(t, b) <==> Bit(t, BucketIndex(local, a)) != Bit(local, BucketIndex(local, a))
    ensures Rank(t, b) < Rank(t, a) <==> Bit(t, BucketIndex(local, a)) == Bit(local, BucketIndex(local, a))
  {
    CplIsFirstDifference(local, a);
    CplIsFirstDifference(local, b);
    var i := Cpl(local, a);
    CplFromSplit(a, b, i);
    CloserAtSplit(t, a, b);
    RankInjective(t, a, b);
  }

  /** Bits of the target agree with the local id below the target's own bucket and differ in it. */
  lemma TargetBits(local: NodeId, t: NodeId, i: nat)
    requires i < ID_BITS
    ensures i < BucketIndex(local, t) ==> Bit(t, i) == Bit(local, i)
    ensures t != local && i == BucketIndex(local, t) ==> Bit(t, i) != Bit(local, i)
  {
    CplIsFirstDifference(local, t);
  }
}
