/**
 The erasure procedures with their loops and in-place shard slots (`src/erasure/mod.rs`), proved against the
 functions on values.
 */
module ErasureCoding {
  import opened Sequences
  import opened NodeIds
  import opened Results
  import opened Erasure

  method EncodeData(code: Code, hash: Shard -> Hash, data: Shard, cfg: Config) returns (r: Result<Encoded, Error>)
    ensures r == Encode(code, hash, data, cfg)
  {
    if !cfg.Valid() {
      return Err(Coding);
    }
    var size := CeilDiv(|data|, cfg.dataShards);
    var shards := SplitData(data, cfg.dataShards, size);
    ghost var dataShards := shards;
    for j := 0 to cfg.parityShards
      invariant shards == dataShards + ZeroShards(j, size)
    {
      shards := shards + [Zeros(size)];
    }
    var coded := code.encode(cfg, shards);
    if coded.None? {
      return Err(Coding);
    }
    var hashes := HashChunks(hash, coded.value);
    return Ok(Encoded(coded.value, hashes, cfg, |data|));
  }

  method SplitData(data: Shard, count: nat, size: nat) returns (shards: seq<Shard>)
    ensures shards == DataShards(data, count, size)
  {
    shards := [];
    for i := 0 to count
      invariant shards == DataShards(data, count, size)[..i]
    {
      Products(i, size);
      var start := i * size;
      var end := Min((i + 1) * size, |data|);
      var shard: Shard := [];
      if start < |data| {
        shard := data[start..end];
      }
      shard := Pad(shard, size);
      shards := shards + [shard];
    }
  }

  method HashChunks(hash: Shard -> Hash, chunks: seq<Shard>) returns (hashes: seq<Hash>)
    ensures hashes == HashAll(hash, chunks)
  {
    hashes := [];
    for i := 0 to |chunks|
      invariant hashes == HashAll(hash, chunks)[..i]
    {
      hashes := hashes + [hash(chunks[i])];
    }
  }

  /** Reconstruction writes into the caller's shard slots. */
  method DecodeInPlace(code: Code, shards: array<Option<Shard>>, cfg: Config, originalLen: nat)
    returns (r: Result<Shard, Error>)
    modifies shards
    ensures r == Decode(code, old(shards[..]), cfg, originalLen)
    ensures r.Ok? ==> code.reconstruct(cfg, old(shards[..])).Some?
    ensures r.Ok? ==> shards[..] == Overwrite(old(shards[..]), code.reconstruct(cfg, old(shards[..])).value)
    ensures r.Err? ==> shards[..] == old(shards[..])
  {
    ghost var before := shards[..];
    if shards.Length != cfg.Total() {
      return Err(Coding);
    }
    var present := 0;
    for i := 0 to shards.Length
      invariant present == Present(shards[..i])
      invariant shards[..] == before
    {
      assert shards[..i + 1][..i] == shards[..i];
      if shards[i].Some? {
        present := present + 1;
      }
    }
    assert shards[..shards.Length] == shards[..];
    if present < cfg.dataShards {
      return Err(Insufficient(cfg.dataShards, present));
    }
    if !cfg.Valid() {
      return Err(Coding);
    }
    var full := code.reconstruct(cfg, shards[..]);
    if full.None? {
      return Err(Coding);
    }
    forall i | 0 <= i < shards.Length && i < |full.value| {
      shards[i] := full.value[i];
    }
    assert shards[..] == Overwrite(before, full.value);
    var result: Shard := [];
    for i := 0 to cfg.dataShards
      invariant shards[..] == Overwrite(before, full.value)
      invariant result == ConcatPresent(shards[..i])
    {
      assert shards[..i + 1][..i] == shards[..i];
      if shards[i].Some? {
        result := result + shards[i].value;
      }
    }
    result := Truncate(result, originalLen);
    return Ok(result);
  }

  method EncodeAllBlocks(code: Code, hash: Shard -> Hash, data: Shard, cfg: Config, blockSize: nat)
    returns (r: Result<seq<Encoded>, Error>)
    requires blockSize >= 1
    ensures r == EncodeBlocks(code, hash, data, cfg, blockSize, NumBlocks(|data|, blockSize))
  {
    var numBlocks := NumBlocks(|data|, blockSize);
    var blocks: seq<Encoded> := [];
    for i := 0 to numBlocks
      invariant EncodeBlocks(code, hash, data, cfg, blockSize, i) == Ok(blocks)
    {
      Products(i, blockSize);
      var start := i * blockSize;
      var end := Min((i + 1) * blockSize, |data|);
      var block := if start < |data| then data[start..end] else [];
      var encoded := EncodeData(code, hash, block, cfg);
      if encoded.Err? {
        ErrorStays(code, hash, data, cfg, blockSize, i + 1, numBlocks);
        return Err(encoded.error);
      }
      blocks := blocks + [encoded.value];
    }
    return Ok(blocks);
  }

  lemma {:induction false} ErrorStays(code: Code, hash: Shard -> Hash, data: Shard, cfg: Config, blockSize: nat,
                                      i: nat, n: nat)
    requires i <= n && EncodeBlocks(code, hash, data, cfg, blockSize, i).Err?
    ensures EncodeBlocks(code, hash, data, cfg, blockSize, n) == EncodeBlocks(code, hash, data, cfg, blockSize, i)
  {
    if i < n { ErrorStays(code, hash, data, cfg, blockSize, i, n - 1); }
  }

  ghost function Contents(groups: seq<array<Option<Shard>>>): (r: seq<seq<Option<Shard>>>)
    reads groups
    ensures |r| == |groups| && forall i :: 0 <= i < |groups| ==> r[i] == groups[i][..]
  {
    seq(|groups|, i requires 0 <= i < |groups| reads groups => groups[i][..])
  }

  /** The shards of a block once the library has written its answer into them. */
  function Restored(code: Code, cfg: Config, shards: seq<Option<Shard>>): seq<Option<Shard>> {
    match code.reconstruct(cfg, shards)
    case None => shards
    case Some(full) => Overwrite(shards, full)
  }

  /** The first `n` blocks restored, the others as they were. */
  function RestoredUpTo(code: Code, cfg: Config, blocks: seq<seq<Option<Shard>>>, n: nat): seq<seq<Option<Shard>>> {
    seq(|blocks|, i requires 0 <= i < |blocks| => if i < n then Restored(code, cfg, blocks[i]) else blocks[i])
  }

  lemma RestoredNext(code: Code, cfg: Config, blocks: seq<seq<Option<Shard>>>, n: nat)
    requires n < |blocks|
    ensures RestoredUpTo(code, cfg, blocks, n)[n] == blocks[n]
    ensures RestoredUpTo(code, cfg, blocks, n)[n := Restored(code, cfg, blocks[n])]
         == RestoredUpTo(code, cfg, blocks, n + 1)
  {
  }

  method DecodeGroup(code: Code, groups: seq<array<Option<Shard>>>, i: nat, cfg: Config, len: nat)
    returns (r: Result<Shard, Error>)
    requires i < |groups| && forall p, q :: 0 <= p < q < |groups| ==> groups[p] != groups[q]
    modifies groups[i]
    ensures r == Decode(code, old(Contents(groups))[i], cfg, len)
    ensures r.Ok? ==> Contents(groups) == old(Contents(groups))[i := Restored(code, cfg, old(Contents(groups))[i])]
    ensures r.Err? ==> Contents(groups) == old(Contents(groups))
  {
    ghost var before := Contents(groups);
    r := DecodeInPlace(code, groups[i], cfg, len);
    assert forall j :: 0 <= j < |groups| && j != i ==> groups[j][..] == before[j];
  }

  method DecodeAllBlocks(code: Code, groups: seq<array<Option<Shard>>>, cfg: Config, blockSize: nat,
                         originalLen: nat) returns (r: Result<Shard, Error>, ghost done: nat)
    requires forall i, j :: 0 <= i < j < |groups| ==> groups[i] != groups[j]
    modifies groups
    ensures r == DecodeBlocks(code, old(Contents(groups)), cfg, blockSize, originalLen, |groups|)
    ensures done <= |groups| && Contents(groups) == RestoredUpTo(code, cfg, old(Contents(groups)), done)
    ensures r.Ok? ==> done == |groups|
    ensures r.Err? ==>
              && done < |groups|
              && DecodeBlocks(code, old(Contents(groups)), cfg, blockSize, originalLen, done).Ok?
              && DecodeBlocks(code, old(Contents(groups)), cfg, blockSize, originalLen, done + 1) == r
  {
    ghost var before := Contents(groups);
    assert RestoredUpTo(code, cfg, before, 0) == before;
    var result: Shard := [];
    for i := 0 to |groups|
      invariant DecodeBlocks(code, before, cfg, blockSize, originalLen, i) == Ok(result)
      invariant Contents(groups) == RestoredUpTo(code, cfg, before, i)
    {
      RestoredNext(code, cfg, before, i);
      var len := BlockLength(|groups|, i, blockSize, originalLen);
      if len.None? {
        DecodeErrorStays(code, before, cfg, blockSize, originalLen, i + 1, |groups|);
        return Err(Underflow), i;
      }
      var decoded := DecodeGroup(code, groups, i, cfg, len.value);
      if decoded.Err? {
        DecodeErrorStays(code, before, cfg, blockSize, originalLen, i + 1, |groups|);
        return Err(decoded.error), i;
      }
      result := result + decoded.value;
    }
    return Ok(result), |groups|;
  }

  lemma {:induction false} DecodeErrorStays(code: Code, blocks: seq<seq<Option<Shard>>>, cfg: Config,
                                            blockSize: nat, originalLen: nat, i: nat, n: nat)
    requires i <= n <= |blocks| && DecodeBlocks(code, blocks, cfg, blockSize, originalLen, i).Err?
    ensures DecodeBlocks(code, blocks, cfg, blockSize, originalLen, n)
         == DecodeBlocks(code, blocks, cfg, blockSize, originalLen, i)
  {
    if i < n { DecodeErrorStays(code, blocks, cfg, blockSize, originalLen, i, n - 1); }
  }
}
