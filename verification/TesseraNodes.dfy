/**
 The store and retrieve procedures of a node with their loops (`src/node.rs`), proved against the pipeline on
 values.
 */
module TesseraNodes {
  import opened NodeIds
  import opened Results
  import opened Erasure
  import opened ErasureCoding
  import opened Tesseras

  /** `do_store_tessera`: encode block by block, put every chunk, then the manifest. */
  method StoreTessera(env: Env, data: Shard, cfg: Config) returns (r: Result<Stored, Error>)
    ensures r == Store(env, data, cfg)
  {
    var blockSize := DEFAULT_BLOCK_SIZE;
    var numBlocks := NumBlocks(|data|, blockSize);
    var allHashes := StoreAllBlocks(env, data, cfg, blockSize, numBlocks);
    if allHashes.Err? {
      return Err(allHashes.error);
    }
    var manifest := env.pack(ManifestOf(allHashes.value, cfg, |data|, blockSize));
    if !env.accepts(manifest) {
      return Err(Storage);
    }
    return Ok(Stored(allHashes.value, cfg, |data|, blockSize, Some(env.hash(manifest))));
  }

  method StoreAllBlocks(env: Env, data: Shard, cfg: Config, blockSize: nat, numBlocks: nat)
    returns (r: Result<seq<Hash>, Error>)
    ensures r == StoreBlocks(env, data, cfg, blockSize, numBlocks)
  {
    var allHashes: seq<Hash> := [];
    for i := 0 to numBlocks
      invariant StoreBlocks(env, data, cfg, blockSize, i) == Ok(allHashes)
    {
      Products(i, blockSize);
      var start := i * blockSize;
      var end := Min((i + 1) * blockSize, |data|);
      var block := if start < |data| then data[start..end] else [];
      var hashes := StoreOneBlock(env, block, cfg);
      if hashes.Err? {
        StoreErrorStays(env, data, cfg, blockSize, i + 1, numBlocks);
        return Err(hashes.error);
      }
      allHashes := allHashes + hashes.value;
    }
    return Ok(allHashes);
  }

  method StoreOneBlock(env: Env, block: Shard, cfg: Config) returns (r: Result<seq<Hash>, Error>)
    ensures r == StoreBlock(env, block, cfg)
  {
    var encoded := EncodeData(env.code, env.hash, block, cfg);
    if encoded.Err? {
      return Err(encoded.error);
    }
    var accepted := PutAll(env, encoded.value.chunks);
    if !accepted {
      return Err(Storage);
    }
    return Ok(encoded.value.hashes);
  }

  method PutAll(env: Env, chunks: seq<Shard>) returns (accepted: bool)
    ensures accepted <==> AcceptsAll(env, chunks)
  {
    for i := 0 to |chunks|
      invariant AcceptsAll(env, chunks[..i])
    {
      if !env.accepts(chunks[i]) {
        return false;
      }
    }
    assert chunks[..|chunks|] == chunks;
    return true;
  }

  lemma {:induction false} StoreErrorStays(env: Env, data: Shard, cfg: Config, blockSize: nat, i: nat, n: nat)
    requires i <= n && StoreBlocks(env, data, cfg, blockSize, i).Err?
    ensures StoreBlocks(env, data, cfg, blockSize, n) == StoreBlocks(env, data, cfg, blockSize, i)
  {
    if i < n { StoreErrorStays(env, data, cfg, blockSize, i, n - 1); }
  }

  /** Local file first, then the peers' answers as they arrive. */
  method FetchChunk(hash: Shard -> Hash, h: Hash, supply: Supply) returns (chunk: Option<Shard>)
    ensures chunk == Fetch(hash, h, supply)
  {
    if supply.file.Some? && hash(supply.file.value) == h {
      return supply.file;
    }
    for i := 0 to |supply.answers|
      invariant FirstValid(hash, h, supply.answers) == FirstValid(hash, h, supply.answers[i..])
    {
      var data := supply.answers[i];
      assert supply.answers[i..][1..] == supply.answers[i + 1..];
      if data != [] && hash(data) == h {
        return Some(data);
      }
    }
    return None;
  }

  /** `do_retrieve_tessera_inner`: fetch every chunk, regroup, decode. */
  method RetrieveInner(env: Env, hashes: seq<Hash>, cfg: Config, originalLen: nat, blockSize: nat, world: World)
    returns (r: Result<Shard, Error>)
    requires cfg.Valid()
    ensures r == RetrieveChunks(env, hashes, cfg, originalLen, blockSize, SuppliesFor(world, |hashes|))
  {
    var shards: seq<Option<Shard>> := [];
    for i := 0 to |hashes|
      invariant shards == FetchAll(env, hashes, SuppliesFor(world, |hashes|))[..i]
    {
      var shard := FetchChunk(env.hash, hashes[i], world(i));
      shards := shards + [shard];
    }
    assert shards == FetchAll(env, hashes, SuppliesFor(world, |hashes|));
    if blockSize == 0 {
      var slots := ToSlots(shards);
      r := DecodeInPlace(env.code, slots, cfg, originalLen);
    } else {
      var groups := SplitIntoGroups(shards, cfg.Total());
      assert Contents(groups) == Groups(shards, cfg.Total());
      ghost var done;
      r, done := DecodeAllBlocks(env.code, groups, cfg, blockSize, originalLen);
    }
  }

  method ToSlots(shards: seq<Option<Shard>>) returns (slots: array<Option<Shard>>)
    ensures fresh(slots) && slots[..] == shards
  {
    slots := new Option<Shard>[|shards|](i requires 0 <= i < |shards| => shards[i]);
  }

  method SplitIntoGroups(shards: seq<Option<Shard>>, total: nat) returns (groups: seq<array<Option<Shard>>>)
    requires total >= 1
    ensures |groups| == CeilDiv(|shards|, total)
    ensures forall i :: 0 <= i < |groups| ==> fresh(groups[i]) && groups[i][..] == Group(shards, total, i)
    ensures forall i, j :: 0 <= i < j < |groups| ==> groups[i] != groups[j]
  {
    groups := [];
    for n := 0 to CeilDiv(|shards|, total)
      invariant |groups| == n
      invariant forall i :: 0 <= i < n ==> fresh(groups[i]) && groups[i][..] == Group(shards, total, i)
      invariant forall i, j :: 0 <= i < j < n ==> groups[i] != groups[j]
    {
      var slots := ToSlots(Group(shards, total, n));
      groups := groups + [slots];
    }
  }

  /** `do_retrieve_tessera`, without its timeout. */
  method RetrieveTessera(env: Env, stored: Stored, manifestSupply: Supply, world: World)
    returns (r: Result<Shard, Error>)
    requires stored.config.Valid()
    ensures r == Retrieve(env, stored, manifestSupply, world)
  {
    var request := stored;
    if stored.manifestHash.Some? && |stored.chunkHashes| == 0 {
      var manifest := FetchChunk(env.hash, stored.manifestHash.value, manifestSupply);
      if manifest.None? {
        return Err(NotFound);
      }
      var parsed := env.unpack(manifest.value);
      if parsed.None? {
        return Err(Serialization);
      }
      var hashes := ParseHashes(parsed.value.h);
      if hashes.Err? {
        return Err(hashes.error);
      }
      var config := NewConfig(parsed.value.d, parsed.value.p);
      if config.Err? {
        return Err(config.error);
      }
      request := Stored(hashes.value, config.value, parsed.value.l, parsed.value.b, None);
    }
    r := RetrieveInner(env, request.chunkHashes, request.config, request.originalLen, request.blockSize, world);
  }
}
