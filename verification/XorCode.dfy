/**
 A concrete erasure code with one parity shard, the XOR of the data shards: it meets the contract the
 Reed-Solomon library is assumed to meet, so that contract is not vacuous.
 */
module XorCode {
  import NodeIds
  import opened Results
  import opened Erasure

  function XorShard(a: Shard, b: Shard): (r: Shard)
    ensures |r| == |a|
  {
    seq(|a|, i requires 0 <= i < |a| => if i < |b| then a[i] ^ b[i] else a[i])
  }

  /** The XOR of all shards, each taken to have length `size`. */
  function XorAll(shards: seq<Shard>, size: nat): (r: Shard)
    ensures |r| == size
  {
    if shards == [] then Zeros(size) else XorShard(XorAll(shards[..|shards| - 1], size), shards[|shards| - 1])
  }

  /** The XOR of the shards that are there. */
  function XorPresent(shards: seq<Option<Shard>>, size: nat): (r: Shard)
    ensures |r| == size
  {
    if shards == [] then Zeros(size)
    else
      var front, last := XorPresent(shards[..|shards| - 1], size), shards[|shards| - 1];
      if last.Some? then XorShard(front, last.value) else front
  }

  function SizeOf(shards: seq<Option<Shard>>): nat {
    if shards == [] then 0
    else if shards[0].Some? then |shards[0].value|
    else SizeOf(shards[1..])
  }

  function EncodeXor(cfg: Config, shards: seq<Shard>): Option<seq<Shard>> {
    if cfg.parityShards != 1 || |shards| != cfg.Total() || cfg.dataShards == 0 then None
    else
      var data := shards[..cfg.dataShards];
      Some(data + [XorAll(data, |data[0]|)])
  }

  function ReconstructXor(cfg: Config, shards: seq<Option<Shard>>): Option<seq<Option<Shard>>> {
    if cfg.parityShards != 1 || |shards| != cfg.Total() || Present(shards) < cfg.dataShards then None
    else
      var missing := XorPresent(shards, SizeOf(shards));
      Some(seq(|shards|, i requires 0 <= i < |shards| =>
        if shards[i].Some? then shards[i] else Some(missing)))
  }

  const XOR_CODE := Code(EncodeXor, ReconstructXor)

  /** XOR over all shards at once is XOR over those present and then over the one that is missing. */
  lemma {:induction false} XorSplits(shards: seq<Option<Shard>>, word: seq<Shard>, size: nat, m: nat, j: nat)
    requires LossOf(shards, word) && Uniform(word, |word|, size) && j < size
    requires m < |word| && shards[m].None? && forall i :: 0 <= i < |word| && i != m ==> shards[i].Some?
    ensures XorAll(word, size)[j] == XorPresent(shards, size)[j] ^ word[m][j]
  {
    var n := |word| - 1;
    if m == n {
      XorAllPresent(shards[..n], word[..n], size);
    } else {
      XorSplits(shards[..n], word[..n], size, m, j);
      XorSwap(XorPresent(shards[..n], size)[j], word[m][j], word[n][j]);
    }
  }

  lemma XorSwap(a: bv8, b: bv8, c: bv8)
    ensures (a ^ b) ^ c == (a ^ c) ^ b
  {
  }

  lemma {:induction false} XorAllPresent(shards: seq<Option<Shard>>, word: seq<Shard>, size: nat)
    requires LossOf(shards, word) && forall i :: 0 <= i < |word| ==> shards[i].Some?
    ensures XorPresent(shards, size) == XorAll(word, size)
  {
    if word != [] {
      XorAllPresent(shards[..|word| - 1], word[..|word| - 1], size);
    }
  }

  lemma {:induction false} PresentAtMost(shards: seq<Option<Shard>>)
    ensures Present(shards) <= |shards|
  {
    if shards != [] { PresentAtMost(shards[..|shards| - 1]); }
  }

  /** Two missing shards are more than one parity shard can stand for. */
  lemma {:induction false} MissingCount(shards: seq<Option<Shard>>, a: nat)
    requires a < |shards| && shards[a].None?
    ensures Present(shards) < |shards|
    ensures Present(shards) == |shards| - 1 ==> forall i :: 0 <= i < |shards| && i != a ==> shards[i].Some?
  {
    var n := |shards| - 1;
    PresentAtMost(shards[..n]);
    if a < n {
      MissingCount(shards[..n], a);
      forall i | 0 <= i < |shards| && i != a && Present(shards) == |shards| - 1 ensures shards[i].Some? {
        if i < n { assert shards[..n][i] == shards[i]; }
      }
    } else if n > 0 {
      forall i | 0 <= i < n && Present(shards) == |shards| - 1 ensures shards[i].Some? {
        if shards[..n][i].None? { MissingCount(shards[..n], i); }
      }
    }
  }

  lemma {:induction false} SizeOfPresent(shards: seq<Option<Shard>>, word: seq<Shard>, size: nat)
    requires LossOf(shards, word) && Uniform(word, |word|, size)
    requires exists i :: 0 <= i < |shards| && shards[i].Some?
    ensures SizeOf(shards) == size
  {
    if shards[0].None? {
      var i :| 0 <= i < |shards| && shards[i].Some?;
      assert shards[1..][i - 1].Some?;
      SizeOfPresent(shards[1..], word[1..], size);
    }
  }

  /** The parity shard makes the XOR of the whole word vanish. */
  lemma ParityCancels(data: seq<Shard>, size: nat)
    ensures XorAll(data + [XorAll(data, size)], size) == Zeros(size)
  {
    var p := XorAll(data, size);
    assert (data + [p])[..|data|] == data;
    assert forall j :: 0 <= j < size ==> p[j] ^ p[j] == 0;
  }

  lemma {:induction false} PresentBound(shards: seq<Option<Shard>>)
    requires Present(shards) >= 1
    ensures exists i :: 0 <= i < |shards| && shards[i].Some?
  {
    var n := |shards| - 1;
    if !shards[n].Some? {
      PresentBound(shards[..n]);
      var i :| 0 <= i < n && shards[..n][i].Some?;
      assert shards[i].Some?;
    }
  }

  lemma ReconstructsWord(cfg: Config, data: seq<Shard>, size: nat, shards: seq<Option<Shard>>)
    requires cfg.Valid() && cfg.parityShards == 1 && size >= 1 && Uniform(data, cfg.dataShards, size)
    requires LossOf(shards, data + [XorAll(data, size)]) && Present(shards) >= cfg.dataShards
    ensures Restores(ReconstructXor(cfg, shards), data + [XorAll(data, size)])
  {
    var word := data + [XorAll(data, size)];
    PresentBound(shards);
    SizeOfPresent(shards, word, size);
    var missing := XorPresent(shards, size);
    forall m | 0 <= m < |word| && shards[m].None? ensures missing == word[m] {
      MissingCount(shards, m);
      ParityCancels(data, size);
      forall j | 0 <= j < size ensures missing[j] == word[m][j] {
        XorSplits(shards, word, size, m, j);
        NodeIds.XorZeroIffEqual(missing[j], word[m][j]);
      }
    }
  }

  /** The contract holds for every number of data shards with one XOR parity shard. */
  lemma XorIsErasureCode(cfg: Config)
    requires cfg.Valid() && cfg.parityShards == 1
    ensures IsErasureCode(XOR_CODE, cfg)
  {
    forall data, size | size >= 1 && Uniform(data, cfg.dataShards, size)
      ensures CodesWord(XOR_CODE, cfg, data, EncodeXor(cfg, data + ZeroShards(1, size)))
    {
      var shards := data + ZeroShards(1, size);
      var word := data + [XorAll(data, size)];
      assert shards[..cfg.dataShards] == data;
      assert EncodeXor(cfg, shards) == Some(word);
      forall lossy | LossOf(lossy, word) && Present(lossy) >= cfg.dataShards
        ensures Restores(ReconstructXor(cfg, lossy), word)
      {
        ReconstructsWord(cfg, data, size, lossy);
      }
    }
  }

  /** So with this code the block round trip holds outright, for every loss of at most one shard per block. */
  lemma XorBlocksRoundTrip(hash: Shard -> Hash, data: Shard, cfg: Config, blockSize: nat,
                           blocks: seq<seq<Option<Shard>>>)
    requires cfg.Valid() && cfg.parityShards == 1 && data != [] && blockSize >= 1
    requires |blocks| == NumBlocks(|data|, blockSize)
    ensures var r := EncodeBlocks(XOR_CODE, hash, data, cfg, blockSize, |blocks|);
            && r.Ok?
            && (LossOfBlocks(blocks, r.value)
                && (forall j :: 0 <= j < |blocks| ==> Present(blocks[j]) >= cfg.dataShards)
                ==> DecodeBlocks(XOR_CODE, blocks, cfg, blockSize, |data|, |blocks|) == Ok(data))
  {
    XorIsErasureCode(cfg);
    EncodeBlocksSucceeds(XOR_CODE, hash, data, cfg, blockSize, |blocks|);
    var r := EncodeBlocks(XOR_CODE, hash, data, cfg, blockSize, |blocks|);
    if LossOfBlocks(blocks, r.value) && forall j :: 0 <= j < |blocks| ==> Present(blocks[j]) >= cfg.dataShards {
      BlocksRoundTrip(XOR_CODE, hash, data, cfg, blockSize, blocks);
    }
  }
}
