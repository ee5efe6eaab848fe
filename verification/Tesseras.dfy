/**
 Storing a tessera and getting it back (`src/node.rs`): blocks, shards, one flat hash list, the manifest, and
 retrieval by hash-checked fetches from the local store and from peers that may answer anything.
 */
module Tesseras {
  import opened NodeIds
  import opened Results
  import opened Erasure
  import ChunkStores

  const DEFAULT_BLOCK_SIZE := 262144

  datatype Manifest = Manifest(h: seq<seq<bv8>>, d: nat, p: nat, l: nat, b: nat)

  /** Libraries the pipeline calls, and whether the local chunk store takes a chunk. */
  datatype Env = Env(
    code: Code,
    hash: Shard -> Hash,
    pack: Manifest -> Shard,
    unpack: Shard -> Option<Manifest>,
    accepts: Shard -> bool)

  datatype Stored = Stored(
    chunkHashes: seq<Hash>, config: Config, originalLen: nat, blockSize: nat, manifestHash: Option<Hash>)

  // ----- store

  predicate AcceptsAll(env: Env, chunks: seq<Shard>) {
    forall i :: 0 <= i < |chunks| ==> env.accepts(chunks[i])
  }

  /** The hashes of one block, encoded and put chunk by chunk. */
  function StoreBlock(env: Env, data: Shard, cfg: Config): Result<seq<Hash>, Error> {
    match Encode(env.code, env.hash, data, cfg)
    case Err(e) => Err(e)
    case Ok(block) => if AcceptsAll(env, block.chunks) then Ok(block.hashes) else Err(Storage)
  }

  /** The flat hash list of blocks `0..n`, or the first error. */
  function StoreBlocks(env: Env, data: Shard, cfg: Config, blockSize: nat, n: nat): Result<seq<Hash>, Error> {
    if n == 0 then Ok([])
    else
      match StoreBlocks(env, data, cfg, blockSize, n - 1)
      case Err(e) => Err(e)
      case Ok(hashes) =>
        match StoreBlock(env, Piece(data, n - 1, blockSize), cfg)
        case Err(e) => Err(e)
        case Ok(more) => Ok(hashes + more)
  }

  function ManifestOf(hashes: seq<Hash>, cfg: Config, len: nat, blockSize: nat): Manifest {
    Manifest(seq(|hashes|, i requires 0 <= i < |hashes| => hashes[i]), cfg.dataShards, cfg.parityShards, len, blockSize)
  }

  function Store(env: Env, data: Shard, cfg: Config): Result<Stored, Error> {
    var blockSize := DEFAULT_BLOCK_SIZE;
    match StoreBlocks(env, data, cfg, blockSize, NumBlocks(|data|, blockSize))
    case Err(e) => Err(e)
    case Ok(hashes) =>
      var manifest := env.pack(ManifestOf(hashes, cfg, |data|, blockSize));
      if env.accepts(manifest) then
        Ok(Stored(hashes, cfg, |data|, blockSize, Some(env.hash(manifest))))
      else Err(Storage)
  }

  // ----- retrieve

  /** What a fetch meets: the file found under the hash, if any, and the peers' answers in order of arrival. */
  datatype Supply = Supply(file: Option<Shard>, answers: seq<Shard>)

  /** The first non-empty answer with the right hash. */
  function FirstValid(hash: Shard -> Hash, h: Hash, answers: seq<Shard>): Option<Shard> {
    if answers == [] then None
    else if answers[0] != [] && hash(answers[0]) == h then Some(answers[0])
    else FirstValid(hash, h, answers[1..])
  }

  function Fetch(hash: Shard -> Hash, h: Hash, supply: Supply): Option<Shard> {
    if supply.file.Some? && hash(supply.file.value) == h then supply.file
    else FirstValid(hash, h, supply.answers)
  }

  function FetchAll(env: Env, hashes: seq<Hash>, supplies: seq<Supply>): seq<Option<Shard>>
    requires |supplies| == |hashes|
  {
    seq(|hashes|, i requires 0 <= i < |hashes| => Fetch(env.hash, hashes[i], supplies[i]))
  }

  /** `shards.chunks(total)`: consecutive groups, the last one possibly shorter. */
  function Group(shards: seq<Option<Shard>>, total: nat, i: nat): seq<Option<Shard>>
    requires total >= 1 && i < CeilDiv(|shards|, total)
  {
    CeilDivBounds(|shards|, total);
    MonotoneProduct(i, CeilDiv(|shards|, total) - 1, total);
    Products(i, total);
    shards[i * total..Min((i + 1) * total, |shards|)]
  }

  function Groups(shards: seq<Option<Shard>>, total: nat): (r: seq<seq<Option<Shard>>>)
    requires total >= 1
    ensures |r| == CeilDiv(|shards|, total)
  {
    seq(CeilDiv(|shards|, total), i requires 0 <= i < CeilDiv(|shards|, total) => Group(shards, total, i))
  }

  /** `do_retrieve_tessera_inner`; block size 0 is the single-block format of old. */
  function RetrieveChunks(env: Env, hashes: seq<Hash>, cfg: Config, originalLen: nat, blockSize: nat,
                          supplies: seq<Supply>): Result<Shard, Error>
    requires |supplies| == |hashes| && cfg.Valid()
  {
    var shards := FetchAll(env, hashes, supplies);
    if blockSize == 0 then
      Decode(env.code, shards, cfg, originalLen)
    else
      var groups := Groups(shards, cfg.Total());
      DecodeBlocks(env.code, groups, cfg, blockSize, originalLen, |groups|)
  }

  function ParseHashes(h: seq<seq<bv8>>): (r: Result<seq<Hash>, Error>)
    ensures r.Ok? <==> forall i :: 0 <= i < |h| ==> |h[i]| == 32
    ensures r.Ok? ==> |r.value| == |h| && forall i :: 0 <= i < |h| ==> r.value[i] == h[i]
    ensures r.Err? ==> r.error == Serialization
  {
    if h == [] then Ok([])
    else
      match ParseHashes(h[..|h| - 1])
      case Err(e) => Err(e)
      case Ok(front) => if |h[|h| - 1]| != 32 then Err(Serialization) else Ok(front + [h[|h| - 1]])
  }

  /** The manifest, fetched and checked. */
  function ResolveManifest(env: Env, mh: Hash, supply: Supply): (r: Result<Stored, Error>)
    ensures r.Ok? ==> r.value.config.Valid()
  {
    match Fetch(env.hash, mh, supply)
    case None => Err(NotFound)
    case Some(bytes) =>
      match env.unpack(bytes)
      case None => Err(Serialization)
      case Some(m) =>
        match ParseHashes(m.h)
        case Err(e) => Err(e)
        case Ok(hashes) =>
          match NewConfig(m.d, m.p)
          case Err(e) => Err(e)
          case Ok(cfg) => Ok(Stored(hashes, cfg, m.l, m.b, None))
  }

  /** Supplies by position in the hash list: peers may behave differently for every chunk. */
  type World = nat -> Supply

  function SuppliesFor(world: World, n: nat): seq<Supply> {
    seq(n, i requires 0 <= i < n => world(i))
  }

  function Retrieve(env: Env, stored: Stored, manifestSupply: Supply, world: World): Result<Shard, Error>
    requires stored.config.Valid()
  {
    if stored.manifestHash.Some? && stored.chunkHashes == [] then
      match ResolveManifest(env, stored.manifestHash.value, manifestSupply)
      case Err(e) => Err(e)
      case Ok(s) =>
        RetrieveChunks(env, s.chunkHashes, s.config, s.originalLen, s.blockSize, SuppliesFor(world, |s.chunkHashes|))
    else
      RetrieveChunks(env, stored.chunkHashes, stored.config, stored.originalLen, stored.blockSize,
                     SuppliesFor(world, |stored.chunkHashes|))
  }

  // ----- the flat list and its groups

  function AllChunks(blocks: seq<Encoded>): seq<Shard> {
    if blocks == [] then [] else AllChunks(blocks[..|blocks| - 1]) + blocks[|blocks| - 1].chunks
  }

  lemma {:induction false} AllChunksSlice(blocks: seq<Encoded>, total: nat, i: nat)
    requires forall j :: 0 <= j < |blocks| ==> |blocks[j].chunks| == total
    requires i < |blocks|
    ensures |AllChunks(blocks)| == |blocks| * total
    ensures (i + 1) * total <= |blocks| * total
    ensures AllChunks(blocks)[i * total..(i + 1) * total] == blocks[i].chunks
  {
    var n := |blocks| - 1;
    AllChunksLength(blocks, total);
    AllChunksLength(blocks[..n], total);
    Products(n, total);
    Products(i, total);
    MonotoneProduct(i + 1, |blocks|, total);
    if i < n {
      AllChunksSlice(blocks[..n], total, i);
      MonotoneProduct(i + 1, n, total);
    }
  }

  lemma {:induction false} AllChunksLength(blocks: seq<Encoded>, total: nat)
    requires forall j :: 0 <= j < |blocks| ==> |blocks[j].chunks| == total
    ensures |AllChunks(blocks)| == |blocks| * total
  {
    if blocks != [] {
      AllChunksLength(blocks[..|blocks| - 1], total);
      Products(|blocks| - 1, total);
    }
  }

  lemma ExactDivision(n: nat, total: nat)
    requires total >= 1
    ensures CeilDiv(n * total, total) == n
  {
    CeilDivBounds(n * total, total);
    var q := CeilDiv(n * total, total);
    if q < n { MonotoneProduct(q + 1, n, total); Products(q, total); }
    if q > n { MonotoneProduct(n, q - 1, total); }
  }

  // ----- what a stored tessera is made of

  lemma {:induction false} StoreBlocksEncodes(env: Env, data: Shard, cfg: Config, blockSize: nat, n: nat)
    requires StoreBlocks(env, data, cfg, blockSize, n).Ok?
    ensures var r := EncodeBlocks(env.code, env.hash, data, cfg, blockSize, n);
            && r.Ok? && |r.value| == n
            && StoreBlocks(env, data, cfg, blockSize, n).value == HashAll(env.hash, AllChunks(r.value))
  {
    if n > 0 {
      StoreBlocksEncodes(env, data, cfg, blockSize, n - 1);
      var blocks := EncodeBlocks(env.code, env.hash, data, cfg, blockSize, n).value;
      var block := blocks[n - 1];
      assert blocks[..n - 1] == EncodeBlocks(env.code, env.hash, data, cfg, blockSize, n - 1).value;
      assert block.hashes == HashAll(env.hash, block.chunks);
      HashAllAppend(env.hash, AllChunks(blocks[..n - 1]), block.chunks);
    }
  }

  lemma HashAllAppend(hash: Shard -> Hash, a: seq<Shard>, b: seq<Shard>)
    ensures HashAll(hash, a + b) == HashAll(hash, a) + HashAll(hash, b)
  {
  }

  // ----- which chunks can be had

  /** A fetch for `chunk` meets it, intact, in the local store or in some answer. */
  predicate Reachable(supply: Supply, chunk: Shard) {
    supply.file == Some(chunk) || chunk in supply.answers
  }

  /** No other content met in this fetch has the chunk's hash. */
  predicate NoCollision(hash: Shard -> Hash, chunk: Shard, supply: Supply) {
    && (supply.file.Some? && hash(supply.file.value) == hash(chunk) ==> supply.file.value == chunk)
    && (forall i :: 0 <= i < |supply.answers| && hash(supply.answers[i]) == hash(chunk) ==> supply.answers[i] == chunk)
  }

  lemma {:induction false} FirstValidFinds(hash: Shard -> Hash, chunk: Shard, answers: seq<Shard>)
    requires chunk != []
    requires forall i :: 0 <= i < |answers| && hash(answers[i]) == hash(chunk) ==> answers[i] == chunk
    ensures FirstValid(hash, hash(chunk), answers) == if chunk in answers then Some(chunk) else None
  {
    if answers != [] {
      assert forall i :: 0 <= i < |answers[1..]| ==> answers[1..][i] == answers[i + 1];
      FirstValidFinds(hash, chunk, answers[1..]);
    }
  }

  lemma {:induction false} FirstValidIff(hash: Shard -> Hash, h: Hash, answers: seq<Shard>)
    ensures var r := FirstValid(hash, h, answers);
            && (r.Some? ==> r.value in answers && r.value != [] && hash(r.value) == h)
            && (r.None? <==> forall i :: 0 <= i < |answers| ==> answers[i] == [] || hash(answers[i]) != h)
  {
    if answers != [] {
      assert answers == [answers[0]] + answers[1..];
      FirstValidIff(hash, h, answers[1..]);
    }
  }

  /**
   Whatever is met, a fetch delivers only content with the right hash, the local file before any answer and no empty
   answer; it fails exactly when there is no such content.
   */
  lemma FetchIsValidIff(hash: Shard -> Hash, h: Hash, supply: Supply)
    ensures var r := Fetch(hash, h, supply);
            && (r.Some? ==> hash(r.value) == h && (r == supply.file || (r.value != [] && r.value in supply.answers)))
            && (supply.file.Some? && hash(supply.file.value) == h ==> r == supply.file)
            && (r.None? <==> (supply.file.Some? ==> hash(supply.file.value) != h)
                             && forall i :: 0 <= i < |supply.answers| ==>
                                  supply.answers[i] == [] || hash(supply.answers[i]) != h)
  {
    FirstValidIff(hash, h, supply.answers);
  }

  /** A fetch never delivers wrong bytes, and it delivers the chunk exactly when the chunk can be reached. */
  lemma FetchIsExact(hash: Shard -> Hash, chunk: Shard, supply: Supply)
    requires chunk != [] && NoCollision(hash, chunk, supply)
    ensures Fetch(hash, hash(chunk), supply) == if Reachable(supply, chunk) then Some(chunk) else None
  {
    FirstValidFinds(hash, chunk, supply.answers);
  }

  /** How many of the chunks `i..j` of the flat list can be reached. */
  function CountReachable(world: World, chunks: seq<Shard>, i: nat, j: nat): nat
    requires i <= j <= |chunks|
    decreases j - i
  {
    if i == j then 0
    else CountReachable(world, chunks, i, j - 1) + if Reachable(world(j - 1), chunks[j - 1]) then 1 else 0
  }

  ghost predicate WorldHonest(env: Env, chunks: seq<Shard>, world: World) {
    forall i {:trigger chunks[i]} :: 0 <= i < |chunks| ==> chunks[i] != [] && NoCollision(env.hash, chunks[i], world(i))
  }

  /** Every slot holds its chunk if that can be reached and nothing otherwise. */
  ghost predicate Fetched(shards: seq<Option<Shard>>, chunks: seq<Shard>, world: World) {
    && |shards| == |chunks|
    && forall i :: 0 <= i < |chunks| ==>
         shards[i] == if Reachable(world(i), chunks[i]) then Some(chunks[i]) else None
  }

  lemma FetchAllIsExact(env: Env, chunks: seq<Shard>, world: World)
    requires WorldHonest(env, chunks, world)
    ensures Fetched(FetchAll(env, HashAll(env.hash, chunks), SuppliesFor(world, |chunks|)), chunks, world)
  {
    forall i | 0 <= i < |chunks|
      ensures Fetch(env.hash, env.hash(chunks[i]), world(i))
           == if Reachable(world(i), chunks[i]) then Some(chunks[i]) else None
    {
      FetchIsExact(env.hash, chunks[i], world(i));
    }
  }

  lemma {:induction false} PresentIsReachable(shards: seq<Option<Shard>>, chunks: seq<Shard>, world: World,
                                              i: nat, j: nat)
    requires Fetched(shards, chunks, world) && i <= j <= |chunks|
    ensures Present(shards[i..j]) == CountReachable(world, chunks, i, j)
    decreases j - i
  {
    if i < j {
      PresentIsReachable(shards, chunks, world, i, j - 1);
      assert shards[i..j][..j - 1 - i] == shards[i..j - 1];
    }
  }

  // ----- retrieval of what was stored

  lemma {:induction false} ChunksAreNonEmpty(blocks: seq<Encoded>)
    requires forall j, i :: 0 <= j < |blocks| && 0 <= i < |blocks[j].chunks| ==> blocks[j].chunks[i] != []
    ensures forall i :: 0 <= i < |AllChunks(blocks)| ==> AllChunks(blocks)[i] != []
  {
    if blocks != [] { ChunksAreNonEmpty(blocks[..|blocks| - 1]); }
  }

  lemma EncodedChunksSize(code: Code, hash: Shard -> Hash, data: Shard, cfg: Config)
    requires cfg.Valid() && IsErasureCode(code, cfg) && data != []
    ensures CeilDiv(|data|, cfg.dataShards) >= 1
    ensures var r := Encode(code, hash, data, cfg);
            r.Ok? && forall i :: 0 <= i < |r.value.chunks| ==>
              |r.value.chunks[i]| == CeilDiv(|data|, cfg.dataShards)
  {
    EncodeSucceeds(code, hash, data, cfg);
    var chunks := Encode(code, hash, data, cfg).value.chunks;
    CeilDivBounds(|data|, cfg.dataShards);
    assert |chunks[..cfg.dataShards][0]| == CeilDiv(|data|, cfg.dataShards);
  }

  ghost predicate IsStored(env: Env, data: Shard, cfg: Config, blockSize: nat, blocks: seq<Encoded>) {
    && cfg.Valid() && IsErasureCode(env.code, cfg) && data != [] && blockSize >= 1
    && |blocks| == NumBlocks(|data|, blockSize)
    && EncodeBlocks(env.code, env.hash, data, cfg, blockSize, |blocks|) == Ok(blocks)
  }

  lemma StoredBlockFacts(env: Env, data: Shard, cfg: Config, blockSize: nat, blocks: seq<Encoded>)
    requires IsStored(env, data, cfg, blockSize, blocks)
    ensures |blocks| >= 1
    ensures forall j :: 0 <= j < |blocks| ==> |blocks[j].chunks| == cfg.Total()
    ensures |AllChunks(blocks)| == |blocks| * cfg.Total()
    ensures forall i :: 0 <= i < |AllChunks(blocks)| ==> AllChunks(blocks)[i] != []
  {
    LastBlockLength(|data|, blockSize);
    EncodeBlocksSucceeds(env.code, env.hash, data, cfg, blockSize, |blocks|);
    forall j | 0 <= j < |blocks|
      ensures |blocks[j].chunks| == cfg.Total()
      ensures forall i :: 0 <= i < |blocks[j].chunks| ==> blocks[j].chunks[i] != []
    {
      BlockLengthIsPiece(data, blockSize, j);
      EncodeSucceeds(env.code, env.hash, Piece(data, j, blockSize), cfg);
      EncodedChunksSize(env.code, env.hash, Piece(data, j, blockSize), cfg);
    }
    AllChunksLength(blocks, cfg.Total());
    ChunksAreNonEmpty(blocks);
  }

  /** Group `b` is what is left of block `b`, with exactly the reachable chunks present. */
  ghost predicate GroupMatches(cfg: Config, chunks: seq<Shard>, world: World, group: seq<Option<Shard>>,
                               block: Encoded, b: nat) {
    var i, j := b * cfg.Total(), (b + 1) * cfg.Total();
    && LossOf(group, block.chunks)
    && i <= j <= |chunks|
    && Present(group) == CountReachable(world, chunks, i, j)
  }

  lemma GroupIsBlock(cfg: Config, blocks: seq<Encoded>, shards: seq<Option<Shard>>, world: World, b: nat)
    requires cfg.Valid() && b < |blocks|
    requires forall j :: 0 <= j < |blocks| ==> |blocks[j].chunks| == cfg.Total()
    requires Fetched(shards, AllChunks(blocks), world)
    ensures |Groups(shards, cfg.Total())| == |blocks|
    ensures GroupMatches(cfg, AllChunks(blocks), world, Groups(shards, cfg.Total())[b], blocks[b], b)
  {
    var total, chunks := cfg.Total(), AllChunks(blocks);
    AllChunksSlice(blocks, total, b);
    ExactDivision(|blocks|, total);
    Products(b, total);
    var i, j := b * total, (b + 1) * total;
    PresentIsReachable(shards, chunks, world, i, j);
    var group := shards[i..j];
    assert Groups(shards, total)[b] == group;
    forall p | 0 <= p < total && group[p].Some? ensures group[p].value == blocks[b].chunks[p] {
      assert chunks[i..j][p] == chunks[i + p] && group[p] == shards[i + p];
    }
  }

  /** Regrouping the fetched shards gives each block's shards, with the reachable ones present. */
  lemma GroupsAreBlocks(env: Env, data: Shard, cfg: Config, blockSize: nat, blocks: seq<Encoded>, world: World)
    requires IsStored(env, data, cfg, blockSize, blocks)
    requires WorldHonest(env, AllChunks(blocks), world)
    ensures var chunks := AllChunks(blocks);
            var shards := FetchAll(env, HashAll(env.hash, chunks), SuppliesFor(world, |chunks|));
            var groups := Groups(shards, cfg.Total());
            && |groups| == |blocks|
            && forall b :: 0 <= b < |blocks| ==> GroupMatches(cfg, chunks, world, groups[b], blocks[b], b)
  {
    var chunks := AllChunks(blocks);
    var shards := FetchAll(env, HashAll(env.hash, chunks), SuppliesFor(world, |chunks|));
    StoredBlockFacts(env, data, cfg, blockSize, blocks);
    FetchAllIsExact(env, chunks, world);
    GroupIsBlock(cfg, blocks, shards, world, 0);
    forall b | 0 <= b < |blocks|
      ensures GroupMatches(cfg, chunks, world, Groups(shards, cfg.Total())[b], blocks[b], b)
    {
      GroupIsBlock(cfg, blocks, shards, world, b);
    }
  }

  /** Block `b` of a stored tessera can be rebuilt: enough of its chunks can be reached. */
  ghost predicate Recoverable(cfg: Config, chunks: seq<Shard>, world: World, b: nat) {
    var i, j := b * cfg.Total(), (b + 1) * cfg.Total();
    i <= j <= |chunks| && CountReachable(world, chunks, i, j) >= cfg.dataShards
  }

  /**
   For every behaviour of the peers and every set of lost or corrupted chunks: retrieving the chunks of a stored
   non-empty tessera succeeds exactly when every block has `dataShards` reachable chunks, and then it returns
   the stored data; otherwise it reports insufficient chunks.  It never returns other bytes.
   */
  lemma RetrieveChunksExact(env: Env, data: Shard, cfg: Config, blockSize: nat, blocks: seq<Encoded>, world: World)
    requires IsStored(env, data, cfg, blockSize, blocks)
    requires WorldHonest(env, AllChunks(blocks), world)
    ensures var chunks := AllChunks(blocks);
            var supplies := SuppliesFor(world, |chunks|);
            var r := RetrieveChunks(env, HashAll(env.hash, chunks), cfg, |data|, blockSize, supplies);
            if forall b :: 0 <= b < |blocks| ==> Recoverable(cfg, chunks, world, b)
            then r == Ok(data) else r.Err? && r.error.Insufficient?
  {
    var chunks := AllChunks(blocks);
    var shards := FetchAll(env, HashAll(env.hash, chunks), SuppliesFor(world, |chunks|));
    var groups := Groups(shards, cfg.Total());
    GroupsAreBlocks(env, data, cfg, blockSize, blocks, world);
    if forall b :: 0 <= b < |blocks| ==> Recoverable(cfg, chunks, world, b) {
      forall b | 0 <= b < |groups| ensures Present(groups[b]) >= cfg.dataShards {
        assert Recoverable(cfg, chunks, world, b) && GroupMatches(cfg, chunks, world, groups[b], blocks[b], b);
      }
      BlocksRoundTrip(env.code, env.hash, data, cfg, blockSize, groups);
    } else {
      var b :| 0 <= b < |blocks| && !Recoverable(cfg, chunks, world, b);
      assert GroupMatches(cfg, chunks, world, groups[b], blocks[b], b);
      var first := FirstShort(groups, cfg.dataShards, b);
      BlocksTooShort(env.code, env.hash, data, cfg, blockSize, groups, first, |groups|);
    }
  }

  /** The first group with too few shards, at or before `b`. */
  lemma {:induction false} FirstShort(groups: seq<seq<Option<Shard>>>, needed: nat, b: nat) returns (first: nat)
    requires b < |groups| && Present(groups[b]) < needed
    ensures first <= b && Present(groups[first]) < needed
    ensures forall j :: 0 <= j < first ==> Present(groups[j]) >= needed
  {
    if j :| 0 <= j < b && Present(groups[j]) < needed {
      first := FirstShort(groups, needed, j);
    } else {
      first := b;
    }
  }

  // ----- the single-block format, block size zero

  /**
   The chunks of one encoded block come back as the data exactly when `dataShards` of them can be reached;
   otherwise the error says how many could.
   */
  lemma SingleBlockRetrieve(env: Env, data: Shard, cfg: Config, world: World)
    requires cfg.Valid() && IsErasureCode(env.code, cfg) && data != []
    requires Encode(env.code, env.hash, data, cfg).Ok? ==>
               WorldHonest(env, Encode(env.code, env.hash, data, cfg).value.chunks, world)
    ensures var block := Encode(env.code, env.hash, data, cfg);
            && block.Ok?
            && var chunks := block.value.chunks;
               var reached := CountReachable(world, chunks, 0, |chunks|);
               RetrieveChunks(env, block.value.hashes, cfg, |data|, 0, SuppliesFor(world, |block.value.hashes|)) ==
                 if reached >= cfg.dataShards then Ok(data) else Err(Insufficient(cfg.dataShards, reached))
  {
    EncodeSucceeds(env.code, env.hash, data, cfg);
    var chunks := Encode(env.code, env.hash, data, cfg).value.chunks;
    var shards := FetchAll(env, HashAll(env.hash, chunks), SuppliesFor(world, |chunks|));
    FetchAllIsExact(env, chunks, world);
    PresentIsReachable(shards, chunks, world, 0, |chunks|);
    assert shards[0..|chunks|] == shards;
    DecodeAfterEncode(env.code, env.hash, data, cfg, shards);
  }

  // ----- end to end

  /** The encoded blocks of the data, and the chunks they consist of. */
  function BlocksOf(env: Env, data: Shard, cfg: Config): seq<Encoded> {
    var r := EncodeBlocks(env.code, env.hash, data, cfg, DEFAULT_BLOCK_SIZE, NumBlocks(|data|, DEFAULT_BLOCK_SIZE));
    if r.Ok? then r.value else []
  }

  function ChunksOf(env: Env, data: Shard, cfg: Config): seq<Shard> {
    AllChunks(BlocksOf(env, data, cfg))
  }

  /** What a successful store of non-empty data leaves behind. */
  lemma StoreLeaves(env: Env, data: Shard, cfg: Config)
    requires cfg.Valid() && IsErasureCode(env.code, cfg) && data != []
    ensures Store(env, data, cfg).Ok? ==>
              IsStored(env, data, cfg, DEFAULT_BLOCK_SIZE, BlocksOf(env, data, cfg))
    ensures Store(env, data, cfg).Ok? ==>
            var s := Store(env, data, cfg).value;
            && s.chunkHashes == HashAll(env.hash, ChunksOf(env, data, cfg)) && s.chunkHashes != []
            && s.config == cfg && s.originalLen == |data| && s.blockSize == DEFAULT_BLOCK_SIZE
            && s.manifestHash == Some(env.hash(env.pack(ManifestOf(s.chunkHashes, cfg, |data|, DEFAULT_BLOCK_SIZE))))
  {
    if Store(env, data, cfg).Ok? {
      var blocks := BlocksOf(env, data, cfg);
      StoreBlocksEncodes(env, data, cfg, DEFAULT_BLOCK_SIZE, NumBlocks(|data|, DEFAULT_BLOCK_SIZE));
      StoredBlockFacts(env, data, cfg, DEFAULT_BLOCK_SIZE, blocks);
      MonotoneProduct(1, |blocks|, cfg.Total());
    }
  }

  ghost predicate StoredIff(env: Env, data: Shard, cfg: Config, n: nat) {
    var r := EncodeBlocks(env.code, env.hash, data, cfg, DEFAULT_BLOCK_SIZE, n);
    r.Ok? && (StoreBlocks(env, data, cfg, DEFAULT_BLOCK_SIZE, n).Ok? <==> AcceptsAll(env, AllChunks(r.value)))
  }

  lemma {:induction false} BlocksAreStoredIff(env: Env, data: Shard, cfg: Config, n: nat)
    requires cfg.Valid() && IsErasureCode(env.code, cfg) && data != []
    requires n <= NumBlocks(|data|, DEFAULT_BLOCK_SIZE)
    ensures StoredIff(env, data, cfg, n)
  {
    if n > 0 {
      BlocksAreStoredIff(env, data, cfg, n - 1);
      EncodeBlocksSucceeds(env.code, env.hash, data, cfg, DEFAULT_BLOCK_SIZE, n);
      OneMoreIsStoredIff(env, data, cfg, n);
    }
  }

  lemma OneMoreIsStoredIff(env: Env, data: Shard, cfg: Config, n: nat)
    requires n > 0 && EncodeBlocks(env.code, env.hash, data, cfg, DEFAULT_BLOCK_SIZE, n).Ok?
    requires StoredIff(env, data, cfg, n - 1)
    ensures StoredIff(env, data, cfg, n)
  {
    LastBlock(env, data, cfg, n);
    var blocks := EncodeBlocks(env.code, env.hash, data, cfg, DEFAULT_BLOCK_SIZE, n).value;
    NextBlockIsStoredIff(env, data, cfg, n, blocks[|blocks| - 1]);
    AllChunksNext(env, blocks);
  }

  lemma LastBlock(env: Env, data: Shard, cfg: Config, n: nat)
    requires n > 0 && EncodeBlocks(env.code, env.hash, data, cfg, DEFAULT_BLOCK_SIZE, n).Ok?
    ensures var blocks := EncodeBlocks(env.code, env.hash, data, cfg, DEFAULT_BLOCK_SIZE, n).value;
            && blocks != []
            && EncodeBlocks(env.code, env.hash, data, cfg, DEFAULT_BLOCK_SIZE, n - 1) == Ok(blocks[..|blocks| - 1])
            && Encode(env.code, env.hash, Piece(data, n - 1, DEFAULT_BLOCK_SIZE), cfg) == Ok(blocks[|blocks| - 1])
  {
  }

  lemma AllChunksNext(env: Env, blocks: seq<Encoded>)
    requires blocks != []
    ensures var n := |blocks| - 1;
            AcceptsAll(env, AllChunks(blocks))
            <==> AcceptsAll(env, AllChunks(blocks[..n])) && AcceptsAll(env, blocks[n].chunks)
  {
    AcceptsAllAppend(env, AllChunks(blocks[..|blocks| - 1]), blocks[|blocks| - 1].chunks);
  }

  lemma NextBlockIsStoredIff(env: Env, data: Shard, cfg: Config, n: nat, block: Encoded)
    requires n > 0 && Encode(env.code, env.hash, Piece(data, n - 1, DEFAULT_BLOCK_SIZE), cfg) == Ok(block)
    ensures StoreBlocks(env, data, cfg, DEFAULT_BLOCK_SIZE, n).Ok?
            <==> StoreBlocks(env, data, cfg, DEFAULT_BLOCK_SIZE, n - 1).Ok? && AcceptsAll(env, block.chunks)
  {
  }

  lemma AcceptsAllAppend(env: Env, a: seq<Shard>, b: seq<Shard>)
    ensures AcceptsAll(env, a + b) <==> AcceptsAll(env, a) && AcceptsAll(env, b)
  {
    if AcceptsAll(env, a + b) {
      assert forall i :: 0 <= i < |a| ==> (a + b)[i] == a[i];
      assert forall i :: 0 <= i < |b| ==> (a + b)[|a| + i] == b[i];
    }
  }

  function ManifestBytes(env: Env, data: Shard, cfg: Config): Shard {
    env.pack(ManifestOf(HashAll(env.hash, ChunksOf(env, data, cfg)), cfg, |data|, DEFAULT_BLOCK_SIZE))
  }

  /** Store succeeds exactly when the local chunk store takes every chunk and then the manifest. */
  lemma StoreSucceedsIff(env: Env, data: Shard, cfg: Config)
    requires cfg.Valid() && IsErasureCode(env.code, cfg) && data != []
    ensures Store(env, data, cfg).Ok?
            <==> AcceptsAll(env, ChunksOf(env, data, cfg)) && env.accepts(ManifestBytes(env, data, cfg))
  {
    var n := NumBlocks(|data|, DEFAULT_BLOCK_SIZE);
    BlocksAreStoredIff(env, data, cfg, n);
    if StoreBlocks(env, data, cfg, DEFAULT_BLOCK_SIZE, n).Ok? {
      StoreBlocksEncodes(env, data, cfg, DEFAULT_BLOCK_SIZE, n);
    }
  }

  lemma {:induction false} ChunksAreSmall(blocks: seq<Encoded>, size: nat)
    requires forall j, i :: 0 <= j < |blocks| && 0 <= i < |blocks[j].chunks| ==> |blocks[j].chunks[i]| <= size
    ensures forall i :: 0 <= i < |AllChunks(blocks)| ==> |AllChunks(blocks)[i]| <= size
  {
    if blocks != [] { ChunksAreSmall(blocks[..|blocks| - 1], size); }
  }

  /** No chunk of any data is longer than a block, so none is over the size limit of the chunk store. */
  lemma ChunksFitStore(env: Env, data: Shard, cfg: Config)
    requires cfg.Valid() && IsErasureCode(env.code, cfg) && data != []
    ensures forall i :: 0 <= i < |ChunksOf(env, data, cfg)| ==>
              |ChunksOf(env, data, cfg)[i]| <= DEFAULT_BLOCK_SIZE <= ChunkStores.MAX_CHUNK_SIZE
  {
    var n := NumBlocks(|data|, DEFAULT_BLOCK_SIZE);
    EncodeBlocksSucceeds(env.code, env.hash, data, cfg, DEFAULT_BLOCK_SIZE, n);
    var blocks := BlocksOf(env, data, cfg);
    forall j | 0 <= j < n
      ensures forall i :: 0 <= i < |blocks[j].chunks| ==> |blocks[j].chunks[i]| <= DEFAULT_BLOCK_SIZE
    {
      var piece := Piece(data, j, DEFAULT_BLOCK_SIZE);
      BlockLengthIsPiece(data, DEFAULT_BLOCK_SIZE, j);
      PieceIsShort(data, j, DEFAULT_BLOCK_SIZE);
      EncodedChunksSize(env.code, env.hash, piece, cfg);
      CeilDivAtMost(|piece|, cfg.dataShards);
    }
    ChunksAreSmall(blocks, DEFAULT_BLOCK_SIZE);
  }

  lemma PieceIsShort(data: Shard, i: nat, size: nat)
    ensures |Piece(data, i, size)| <= size
  {
    Products(i, size);
  }

  lemma CeilDivAtMost(n: nat, d: nat)
    requires d >= 1
    ensures CeilDiv(n, d) <= n
  {
    CeilDivBounds(n, d);
    if CeilDiv(n, d) > n { MonotoneProduct(1, d, CeilDiv(n, d) - 1); }
  }

  /**
   With a chunk store that has room and refuses only what is over its size limit, storing fails exactly for
   data whose manifest is over that limit, and then only after every chunk has been put.
   */
  lemma OnlyManifestCanBeTooLarge(env: Env, data: Shard, cfg: Config)
    requires cfg.Valid() && IsErasureCode(env.code, cfg) && data != []
    requires forall c {:trigger env.accepts(c)} :: env.accepts(c) <==> |c| <= ChunkStores.MAX_CHUNK_SIZE
    ensures StoreBlocks(env, data, cfg, DEFAULT_BLOCK_SIZE, NumBlocks(|data|, DEFAULT_BLOCK_SIZE)).Ok?
    ensures Store(env, data, cfg).Ok? <==> |ManifestBytes(env, data, cfg)| <= ChunkStores.MAX_CHUNK_SIZE
  {
    ChunksFitStore(env, data, cfg);
    BlocksAreStoredIff(env, data, cfg, NumBlocks(|data|, DEFAULT_BLOCK_SIZE));
    StoreSucceedsIff(env, data, cfg);
  }

  /** Data of one block is stored as the chunks of its one encoding, so it can be retrieved with block size zero too. */
  lemma SmallDataIsOneBlock(env: Env, data: Shard, cfg: Config)
    requires cfg.Valid() && IsErasureCode(env.code, cfg) && 0 < |data| <= DEFAULT_BLOCK_SIZE
    ensures Encode(env.code, env.hash, data, cfg).Ok?
    ensures ChunksOf(env, data, cfg) == Encode(env.code, env.hash, data, cfg).value.chunks
  {
    EncodeSucceeds(env.code, env.hash, data, cfg);
    EncodeBlocksSucceeds(env.code, env.hash, data, cfg, DEFAULT_BLOCK_SIZE, 1);
    assert NumBlocks(|data|, DEFAULT_BLOCK_SIZE) == 1;
    assert Piece(data, 0, DEFAULT_BLOCK_SIZE) == data;
    var blocks := BlocksOf(env, data, cfg);
    assert blocks == [blocks[0]] && blocks[..0] == [];
    assert AllChunks(blocks) == AllChunks(blocks[..0]) + blocks[0].chunks;
  }

  /** A manifest survives its way through a chunk. */
  ghost predicate ManifestSurvives(env: Env, m: Manifest, supply: Supply) {
    && env.unpack(env.pack(m)) == Some(m) && env.pack(m) != []
    && NoCollision(env.hash, env.pack(m), supply)
  }

  lemma ManifestResolves(env: Env, hashes: seq<Hash>, cfg: Config, len: nat, blockSize: nat, supply: Supply)
    requires cfg.Valid() && ManifestSurvives(env, ManifestOf(hashes, cfg, len, blockSize), supply)
    ensures var bytes := env.pack(ManifestOf(hashes, cfg, len, blockSize));
            ResolveManifest(env, env.hash(bytes), supply) ==
              if Reachable(supply, bytes) then Ok(Stored(hashes, cfg, len, blockSize, None)) else Err(NotFound)
  {
    var m := ManifestOf(hashes, cfg, len, blockSize);
    FetchIsExact(env.hash, env.pack(m), supply);
    var r := ParseHashes(m.h);
    assert r.Ok? && r.value == hashes;
  }

  /** A manifest is accepted exactly when its chunk is found, decodes and is plausible; every field is kept. */
  lemma ManifestIsAcceptedIff(env: Env, mh: Hash, supply: Supply)
    ensures var found, r := Fetch(env.hash, mh, supply), ResolveManifest(env, mh, supply);
            && (r.Ok? <==> found.Some? && env.unpack(found.value).Some?
                           && var m := env.unpack(found.value).value; IsPlausible(m.h, m.d, m.p))
            && (r.Ok? ==> var s, m := r.value, env.unpack(found.value).value;
                          && s.chunkHashes == m.h && s.originalLen == m.l && s.blockSize == m.b
                          && s.config.dataShards == m.d && s.config.parityShards == m.p)
            && (r == Err(NotFound) <==> found == None)
  {
    var found := Fetch(env.hash, mh, supply);
    if found.Some? && env.unpack(found.value).Some? {
      var r := ParseHashes(env.unpack(found.value).value.h);
    }
  }

  /**
   Storing non-empty data and retrieving it, with the hash list at hand or with the manifest hash alone: the
   result is the data exactly when the manifest (if needed) and `dataShards` chunks of every block can be
   reached, and an error otherwise.
   */
  lemma StoreThenRetrieve(env: Env, data: Shard, cfg: Config, stored: Stored, viaManifest: bool,
                          manifestSupply: Supply, world: World)
    requires cfg.Valid() && IsErasureCode(env.code, cfg) && data != []
    requires Store(env, data, cfg) == Ok(stored)
    requires ManifestSurvives(env, ManifestOf(stored.chunkHashes, cfg, |data|, DEFAULT_BLOCK_SIZE), manifestSupply)
    requires WorldHonest(env, ChunksOf(env, data, cfg), world)
    ensures var chunks, n := ChunksOf(env, data, cfg), NumBlocks(|data|, DEFAULT_BLOCK_SIZE);
            var manifest := env.pack(ManifestOf(stored.chunkHashes, cfg, |data|, DEFAULT_BLOCK_SIZE));
            var request := if viaManifest then Stored([], Config(10, 4), 0, 0, stored.manifestHash) else stored;
            var r := Retrieve(env, request, manifestSupply, world);
            if viaManifest && !Reachable(manifestSupply, manifest) then r == Err(NotFound)
            else if forall b :: 0 <= b < n ==> Recoverable(cfg, chunks, world, b) then r == Ok(data)
            else r.Err? && r.error.Insufficient?
  {
    StoreLeaves(env, data, cfg);
    RetrieveChunksExact(env, data, cfg, DEFAULT_BLOCK_SIZE, BlocksOf(env, data, cfg), world);
    ManifestResolves(env, stored.chunkHashes, cfg, |data|, DEFAULT_BLOCK_SIZE, manifestSupply);
  }

  // ----- tokens

  datatype Token = Token(h: seq<seq<bv8>>, d: nat, p: nat, l: nat, b: nat, m: seq<bv8>)

  /** What `Display` packs: the manifest hash alone if there is one. */
  function ToToken(s: Stored): Token {
    match s.manifestHash
    case Some(mh) => Token([], 0, 0, 0, 0, mh)
    case None =>
      var m := ManifestOf(s.chunkHashes, s.config, s.originalLen, s.blockSize);
      Token(m.h, m.d, m.p, m.l, m.b, [])
  }

  function FromToken(t: Token): (r: Result<Stored, Error>)
    ensures r.Ok? ==> r.value.config.Valid()
  {
    if t.m != [] then
      if |t.m| != 32 then Err(Serialization)
      else Ok(Stored([], Config(10, 4), 0, 0, Some(t.m)))
    else
      match ParseHashes(t.h)
      case Err(e) => Err(e)
      case Ok(hashes) =>
        match NewConfig(t.d, t.p)
        case Err(e) => Err(e)
        case Ok(cfg) => Ok(Stored(hashes, cfg, t.l, t.b, None))
  }

  /** Every entry is a hash, and the shard counts are ones the code can have. */
  ghost predicate IsPlausible(h: seq<seq<bv8>>, d: nat, p: nat) {
    (forall i :: 0 <= i < |h| ==> |h[i]| == 32) && 1 <= d && 1 <= p && d + p <= 256
  }

  /**
   A token with a manifest hash is read as that hash alone, whatever else it holds; another one is accepted exactly
   when it is plausible, and keeps every field.
   */
  lemma TokenIsReadIff(t: Token)
    ensures FromToken(t).Ok? <==> if t.m != [] then |t.m| == 32 else IsPlausible(t.h, t.d, t.p)
    ensures FromToken(t).Ok? && t.m != [] ==>
              && FromToken(t).value.manifestHash == Some(t.m)
              && FromToken(t).value.chunkHashes == [] && FromToken(t).value.originalLen == 0
    ensures FromToken(t).Ok? && t.m == [] ==>
            var s := FromToken(t).value;
            && s.manifestHash == None && s.chunkHashes == t.h
            && s.config.dataShards == t.d && s.config.parityShards == t.p
            && s.originalLen == t.l && s.blockSize == t.b
  {
    var r := ParseHashes(t.h);
  }

  /** Reading an accepted token and printing it again gives it back exactly when it names one kind of contents only. */
  lemma TokenIsPrintedBackIff(t: Token)
    requires FromToken(t).Ok?
    ensures ToToken(FromToken(t).value) == t
            <==> t.m == [] || (t.h == [] && t.d == 0 && t.p == 0 && t.l == 0 && t.b == 0)
  {
    TokenIsReadIff(t);
  }

  /**
   A token without a manifest hash carries everything; one with it leads to the same retrieval when the manifest
   can be reached, and to not-found otherwise.
   */
  lemma TokenRoundTrip(env: Env, data: Shard, cfg: Config, stored: Stored, manifestSupply: Supply, world: World)
    requires cfg.Valid() && IsErasureCode(env.code, cfg) && data != []
    requires Store(env, data, cfg) == Ok(stored)
    requires ManifestSurvives(env, ManifestOf(stored.chunkHashes, cfg, |data|, DEFAULT_BLOCK_SIZE), manifestSupply)
    ensures FromToken(ToToken(stored.(manifestHash := None))) == Ok(stored.(manifestHash := None))
    ensures FromToken(ToToken(stored)).Ok?
    ensures Retrieve(env, FromToken(ToToken(stored)).value, manifestSupply, world) ==
              if Reachable(manifestSupply, ManifestBytes(env, data, cfg))
              then Retrieve(env, stored, manifestSupply, world)
              else Err(NotFound)
  {
    StoreLeaves(env, data, cfg);
    var m := ManifestOf(stored.chunkHashes, cfg, |data|, DEFAULT_BLOCK_SIZE);
    var r := ParseHashes(m.h);
    assert r.Ok? && r.value == stored.chunkHashes;
    ManifestResolves(env, stored.chunkHashes, cfg, |data|, DEFAULT_BLOCK_SIZE, manifestSupply);
  }
}
