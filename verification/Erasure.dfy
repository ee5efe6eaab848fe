/**
 Block splitting, padding and erasure coding (`src/erasure/mod.rs`) on values.  The Reed-Solomon library is a
 parameter with a stated contract: a systematic code, any `dataShards` shards of which give all of them back.
 */
module Erasure {
  import opened Sequences
  import opened NodeIds
  import opened Results

  type Shard = seq<bv8>
  type Hash = NodeId

  datatype Error =
    | Coding
    | Insufficient(needed: nat, got: nat)
    | Underflow                            // the subtraction that panics or wraps in the original
    | NotFound
    | Serialization
    | Storage

  datatype Config = Config(dataShards: nat, parityShards: nat) {
    function Total(): nat {
      dataShards + parityShards
    }

    predicate Valid() {
      dataShards >= 1 && parityShards >= 1 && dataShards + parityShards <= 256
    }
  }

  /** `ErasureConfig::new`. */
  function NewConfig(dataShards: nat, parityShards: nat): (r: Result<Config, Error>)
    ensures r.Ok? <==> Config(dataShards, parityShards).Valid()
    ensures r.Ok? ==> r.value == Config(dataShards, parityShards)
  {
    if dataShards == 0 then Err(Coding)
    else if parityShards == 0 then Err(Coding)
    else if dataShards + parityShards > 256 then Err(Coding)
    else Ok(Config(dataShards, parityShards))
  }

  // ----- the code as a parameter

  /** `encode` fills the parity shards; `reconstruct` fills missing shards.  Either may refuse. */
  datatype Code = Code(
    encode: (Config, seq<Shard>) -> Option<seq<Shard>>,
    reconstruct: (Config, seq<Option<Shard>>) -> Option<seq<Option<Shard>>>)

  function Zeros(n: nat): Shard {
    seq(n, _ => 0)
  }

  function ZeroShards(count: nat, size: nat): seq<Shard> {
    seq(count, _ => Zeros(size))
  }

  ghost predicate Uniform(shards: seq<Shard>, count: nat, size: nat) {
    |shards| == count && forall i :: 0 <= i < count ==> |shards[i]| == size
  }

  function Present(shards: seq<Option<Shard>>): nat {
    if shards == [] then 0
    else Present(shards[..|shards| - 1]) + if shards[|shards| - 1].Some? then 1 else 0
  }

  /** `shards` is `word` with some shards lost. */
  ghost predicate LossOf(shards: seq<Option<Shard>>, word: seq<Shard>) {
    |shards| == |word| && forall i :: 0 <= i < |word| ==> shards[i].Some? ==> shards[i].value == word[i]
  }

  ghost predicate Restores(r: Option<seq<Option<Shard>>>, word: seq<Shard>) {
    r.Some? && |r.value| == |word| && forall i :: 0 <= i < |word| ==> r.value[i] == Some(word[i])
  }

  /** Encoding keeps the data shards and their size, and any `dataShards` of the shards restore all of them. */
  ghost predicate IsErasureCode(code: Code, cfg: Config) {
    forall data, size :: size >= 1 && Uniform(data, cfg.dataShards, size) ==>
      CodesWord(code, cfg, data, code.encode(cfg, data + ZeroShards(cfg.parityShards, size)))
  }

  ghost predicate CodesWord(code: Code, cfg: Config, data: seq<Shard>, word: Option<seq<Shard>>) {
    && word.Some?
    && |word.value| == cfg.Total() && word.value[..cfg.dataShards] == data
    && (forall i :: 0 <= i < |word.value| && data != [] ==> |word.value[i]| == |data[0]|)
    && (forall shards :: LossOf(shards, word.value) && Present(shards) >= cfg.dataShards ==>
          Restores(code.reconstruct(cfg, shards), word.value))
  }

  // ----- one block

  function CeilDiv(n: nat, d: nat): nat
    requires d >= 1
  {
    n / d + if n % d > 0 then 1 else 0
  }

  function Min(a: nat, b: nat): nat {
    if a < b then a else b
  }

  function Pad(s: Shard, size: nat): Shard {
    if |s| < size then s + Zeros(size - |s|) else s[..size]
  }

  /** The `i`-th piece of `data`, empty when it starts past the end. */
  function Piece(data: Shard, i: nat, size: nat): Shard {
    if i * size < |data| then data[i * size..Min((i + 1) * size, |data|)] else []
  }

  function DataShards(data: Shard, count: nat, size: nat): seq<Shard> {
    seq(count, i requires 0 <= i < count => Pad(Piece(data, i, size), size))
  }

  datatype Encoded = Encoded(chunks: seq<Shard>, hashes: seq<Hash>, config: Config, originalLen: nat)

  function HashAll(hash: Shard -> Hash, chunks: seq<Shard>): seq<Hash> {
    seq(|chunks|, i requires 0 <= i < |chunks| => hash(chunks[i]))
  }

  function Encode(code: Code, hash: Shard -> Hash, data: Shard, cfg: Config): Result<Encoded, Error> {
    if !cfg.Valid() then Err(Coding)
    else
      var size := CeilDiv(|data|, cfg.dataShards);
      match code.encode(cfg, DataShards(data, cfg.dataShards, size) + ZeroShards(cfg.parityShards, size))
      case None => Err(Coding)
      case Some(word) => Ok(Encoded(word, HashAll(hash, word), cfg, |data|))
  }

  function Concat(shards: seq<Shard>): Shard {
    if shards == [] then [] else Concat(shards[..|shards| - 1]) + shards[|shards| - 1]
  }

  function ConcatPresent(shards: seq<Option<Shard>>): Shard {
    if shards == [] then []
    else
      ConcatPresent(shards[..|shards| - 1])
      + match shards[|shards| - 1] case None => [] case Some(s) => s
  }

  /** What the shard slots hold after the library wrote its answer into them. */
  function Overwrite(shards: seq<Option<Shard>>, full: seq<Option<Shard>>): (r: seq<Option<Shard>>)
    ensures |r| == |shards|
  {
    seq(|shards|, i requires 0 <= i < |shards| => if i < |full| then full[i] else shards[i])
  }

  function Decode(code: Code, shards: seq<Option<Shard>>, cfg: Config, originalLen: nat): Result<Shard, Error> {
    if |shards| != cfg.Total() then Err(Coding)
    else if Present(shards) < cfg.dataShards then Err(Insufficient(cfg.dataShards, Present(shards)))
    else if !cfg.Valid() then Err(Coding)
    else
      match code.reconstruct(cfg, shards)
      case None => Err(Coding)
      case Some(full) => Ok(Truncate(ConcatPresent(Overwrite(shards, full)[..cfg.dataShards]), originalLen))
  }

  // ----- many blocks

  function NumBlocks(len: nat, blockSize: nat): nat
    requires blockSize >= 1
  {
    if len == 0 then 1 else CeilDiv(len, blockSize)
  }

  /** The encoded blocks `0..n`, or the first error. */
  function EncodeBlocks(code: Code, hash: Shard -> Hash, data: Shard, cfg: Config, blockSize: nat, n: nat)
    : Result<seq<Encoded>, Error>
  {
    if n == 0 then Ok([])
    else
      match EncodeBlocks(code, hash, data, cfg, blockSize, n - 1)
      case Err(e) => Err(e)
      case Ok(front) =>
        match Encode(code, hash, Piece(data, n - 1, blockSize), cfg)
        case Err(e) => Err(e)
        case Ok(block) => Ok(front + [block])
  }

  /** The length the decoder assumes for block `i` of `n`; for the last block it may underflow. */
  function BlockLength(n: nat, i: nat, blockSize: nat, originalLen: nat): Option<nat>
    requires i < n
  {
    if i == n - 1 then
      if originalLen < (n - 1) * blockSize then None else Some(originalLen - (n - 1) * blockSize)
    else Some(blockSize)
  }

  /** The decoded blocks `0..i`, concatenated, or the first error. */
  function DecodeBlocks(code: Code, blocks: seq<seq<Option<Shard>>>, cfg: Config, blockSize: nat, originalLen: nat,
                        i: nat): Result<Shard, Error>
    requires i <= |blocks|
  {
    if i == 0 then Ok([])
    else
      match DecodeBlocks(code, blocks, cfg, blockSize, originalLen, i - 1)
      case Err(e) => Err(e)
      case Ok(front) =>
        match BlockLength(|blocks|, i - 1, blockSize, originalLen)
        case None => Err(Underflow)
        case Some(len) =>
          match Decode(code, blocks[i - 1], cfg, len)
          case Err(e) => Err(e)
          case Ok(block) => Ok(front + block)
  }

  /** Data that fits one block, empty data included, is encoded as by one direct call. */
  lemma OneBlockIsEncode(code: Code, hash: Shard -> Hash, data: Shard, cfg: Config, blockSize: nat)
    requires blockSize >= 1 && |data| <= blockSize
    ensures EncodeBlocks(code, hash, data, cfg, blockSize, NumBlocks(|data|, blockSize)) ==
              match Encode(code, hash, data, cfg)
              case Err(e) => Err(e)
              case Ok(block) => Ok([block])
  {
    OneBlockOnly(data, blockSize);
    var r := Encode(code, hash, data, cfg);
    assert EncodeBlocks(code, hash, data, cfg, blockSize, 0) == Ok([]);
    assert r.Ok? ==> [] + [r.value] == [r.value];
  }

  lemma OneBlockOnly(data: Shard, blockSize: nat)
    requires blockSize >= 1 && |data| <= blockSize
    ensures NumBlocks(|data|, blockSize) == 1 && Piece(data, 0, blockSize) == data
  {
    if data != [] {
      CeilDivBounds(|data|, blockSize);
      if CeilDiv(|data|, blockSize) > 1 { MonotoneProduct(1, CeilDiv(|data|, blockSize) - 1, blockSize); }
    }
  }

  /** A group with the wrong number of slots is refused, whatever it holds, and leaves no data. */
  lemma WrongGroupIsRefused(code: Code, shards: seq<Option<Shard>>, cfg: Config, originalLen: nat)
    ensures |shards| != cfg.Total() ==> Decode(code, shards, cfg, originalLen) == Err(Coding)
    ensures Decode(code, shards, cfg, originalLen).Ok? ==>
              |shards| == cfg.Total() && Present(shards) >= cfg.dataShards && cfg.Valid()
              && |Decode(code, shards, cfg, originalLen).value| <= originalLen
  {
  }

  // ----- division and slicing

  lemma CeilDivBounds(n: nat, d: nat)
    requires d >= 1
    ensures CeilDiv(n, d) * d >= n
    ensures n > 0 ==> CeilDiv(n, d) >= 1 && (CeilDiv(n, d) - 1) * d < n
  {
    var q, r := n / d, n % d;
    assert n == q * d + r && r < d;
    assert (q + 1) * d == q * d + d;
    if r > 0 {
      assert (CeilDiv(n, d) - 1) * d == q * d;
    } else if q >= 1 {
      assert (q - 1) * d == q * d - d;
    } else {
      assert q * d == 0;
    }
  }

  lemma Products(i: nat, size: nat)
    ensures (i + 1) * size == i * size + size && i * size >= 0
  {
  }

  lemma MonotoneProduct(i: nat, j: nat, size: nat)
    requires i <= j
    ensures i * size <= j * size
  {
  }

  lemma SliceOfPadded(data: Shard, start: nat, size: nat, total: nat)
    requires start + size <= total && |data| <= total
    ensures var piece := if start < |data| then data[start..Min(start + size, |data|)] else [];
            Pad(piece, size) == Pad(data, total)[start..start + size]
  {
  }

  lemma PrefixGrows(s: Shard, m: nat, n: nat)
    requires m <= n <= |s|
    ensures s[..n] == s[..m] + s[m..n]
  {
  }

  /** Padding every piece to full size spells the padded data. */
  lemma PieceOfPadded(data: Shard, i: nat, count: nat, size: nat)
    requires i < count && count * size >= |data|
    ensures (i + 1) * size <= count * size
    ensures Pad(Piece(data, i, size), size) == Pad(data, count * size)[i * size..(i + 1) * size]
  {
    Products(i, size);
    MonotoneProduct(i + 1, count, size);
    SliceOfPadded(data, i * size, size, count * size);
  }

  lemma {:induction false} DataShardsSpellPadded(data: Shard, count: nat, size: nat, n: nat)
    requires n <= count && count * size >= |data|
    ensures n * size <= count * size
    ensures Concat(DataShards(data, count, size)[..n]) == Pad(data, count * size)[..n * size]
  {
    MonotoneProduct(n, count, size);
    var shards, padded := DataShards(data, count, size), Pad(data, count * size);
    if n > 0 {
      DataShardsSpellPadded(data, count, size, n - 1);
      PieceOfPadded(data, n - 1, count, size);
      assert shards[..n][..n - 1] == shards[..n - 1];
      Products(n - 1, size);
      MonotoneProduct(n - 1, n, size);
      PrefixGrows(padded, (n - 1) * size, n * size);
    }
  }

  /** The data fills the shards one after the other, and zeros fill the rest. */
  lemma DataShardsHold(data: Shard, count: nat, size: nat, i: nat, j: nat)
    requires i < count && j < size
    ensures |DataShards(data, count, size)[i]| == size
    ensures DataShards(data, count, size)[i][j] == if i * size + j < |data| then data[i * size + j] else 0
  {
    Products(i, size);
  }

  /** Truncating the concatenated data shards strips exactly the padding, wherever it begins. */
  lemma PaddingIsStripped(data: Shard, count: nat)
    requires count >= 1
    ensures Truncate(Concat(DataShards(data, count, CeilDiv(|data|, count))), |data|) == data
  {
    var size := CeilDiv(|data|, count);
    CeilDivBounds(|data|, count);
    DataShardsSpellPadded(data, count, size, count);
    var shards := DataShards(data, count, size);
    assert shards[..count] == shards;
    assert Pad(data, count * size)[..count * size] == Pad(data, count * size);
    assert Truncate(Pad(data, count * size), |data|) == data;
  }

  lemma {:induction false} ConcatOfPresent(full: seq<Option<Shard>>, word: seq<Shard>)
    requires |full| == |word| && forall i :: 0 <= i < |word| ==> full[i] == Some(word[i])
    ensures ConcatPresent(full) == Concat(word)
  {
    if full != [] {
      var n := |full| - 1;
      ConcatOfPresent(full[..n], word[..n]);
    }
  }

  // ----- round trips

  /** What encoding yields for non-empty data. */
  lemma EncodeSucceeds(code: Code, hash: Shard -> Hash, data: Shard, cfg: Config)
    requires cfg.Valid() && IsErasureCode(code, cfg) && data != []
    ensures var r := Encode(code, hash, data, cfg);
            && r.Ok? && |r.value.chunks| == |r.value.hashes| == cfg.Total()
            && r.value.hashes == HashAll(hash, r.value.chunks)
            && r.value.chunks[..cfg.dataShards] == DataShards(data, cfg.dataShards, CeilDiv(|data|, cfg.dataShards))
            && CodesWord(code, cfg, r.value.chunks[..cfg.dataShards], Some(r.value.chunks))
  {
    var size := CeilDiv(|data|, cfg.dataShards);
    CeilDivBounds(|data|, cfg.dataShards);
    var shards := DataShards(data, cfg.dataShards, size);
    assert Uniform(shards, cfg.dataShards, size);
    assert size >= 1;
    assert CodesWord(code, cfg, shards, code.encode(cfg, shards + ZeroShards(cfg.parityShards, size)));
  }

  /**
   Decoding any shards of an encoded block gives the data back if at least `dataShards` of them are left, and
   otherwise reports how many were left.
   */
  lemma DecodeAfterEncode(code: Code, hash: Shard -> Hash, data: Shard, cfg: Config, shards: seq<Option<Shard>>)
    requires cfg.Valid() && IsErasureCode(code, cfg) && data != []
    ensures var r := Encode(code, hash, data, cfg);
            r.Ok? && (LossOf(shards, r.value.chunks) ==>
              Decode(code, shards, cfg, |data|) ==
                if Present(shards) >= cfg.dataShards then Ok(data)
                else Err(Insufficient(cfg.dataShards, Present(shards))))
  {
    EncodeSucceeds(code, hash, data, cfg);
    var word := Encode(code, hash, data, cfg).value.chunks;
    if LossOf(shards, word) && Present(shards) >= cfg.dataShards {
      var d := cfg.dataShards;
      var restored := code.reconstruct(cfg, shards);
      assert Restores(restored, word);
      var full := Overwrite(shards, restored.value);
      assert full == restored.value;
      ConcatOfPresent(full[..d], word[..d]);
      PaddingIsStripped(data, d);
    }
  }

  /** What the first `n` pieces cover. */
  function Covered(data: Shard, n: nat, size: nat): Shard {
    data[..Min(n * size, |data|)]
  }

  /** Appending piece `i` to what lies before it. */
  lemma PieceExtends(data: Shard, i: nat, size: nat)
    ensures Covered(data, 0, size) == []
    ensures Covered(data, i, size) + Piece(data, i, size) == Covered(data, i + 1, size)
  {
    Products(i, size);
    var a, b := Min(i * size, |data|), Min((i + 1) * size, |data|);
    assert data[..b] == data[..a] + data[a..b];
  }

  /**
   For non-empty data the last-block subtraction never underflows, and the last block is neither empty nor
   longer than a block.
   */
  lemma LastBlockLength(len: nat, blockSize: nat)
    requires len >= 1 && blockSize >= 1
    ensures var n := NumBlocks(len, blockSize);
            && n >= 1
            && BlockLength(n, n - 1, blockSize, len).Some?
            && 1 <= BlockLength(n, n - 1, blockSize, len).value <= blockSize
  {
    CeilDivBounds(len, blockSize);
    var n := NumBlocks(len, blockSize);
    Products(n - 1, blockSize);
  }

  /** Every block length the decoder assumes is the length of the piece that was encoded. */
  lemma BlockLengthIsPiece(data: Shard, blockSize: nat, i: nat)
    requires data != [] && blockSize >= 1 && i < NumBlocks(|data|, blockSize)
    ensures BlockLength(NumBlocks(|data|, blockSize), i, blockSize, |data|) == Some(|Piece(data, i, blockSize)|)
    ensures Piece(data, i, blockSize) != []
  {
    var n := NumBlocks(|data|, blockSize);
    CeilDivBounds(|data|, blockSize);
    LastBlockLength(|data|, blockSize);
    Products(i, blockSize);
    Products(n - 1, blockSize);
    MonotoneProduct(i, n - 1, blockSize);
    if i < n - 1 { MonotoneProduct(i + 1, n - 1, blockSize); }
  }

  lemma {:induction false} EncodeBlocksSucceeds(code: Code, hash: Shard -> Hash, data: Shard, cfg: Config,
                                                blockSize: nat, n: nat)
    requires cfg.Valid() && IsErasureCode(code, cfg) && data != [] && blockSize >= 1
    requires n <= NumBlocks(|data|, blockSize)
    ensures var r := EncodeBlocks(code, hash, data, cfg, blockSize, n);
            && r.Ok? && |r.value| == n
            && forall i :: 0 <= i < n ==> Encode(code, hash, Piece(data, i, blockSize), cfg) == Ok(r.value[i])
  {
    if n > 0 {
      EncodeBlocksSucceeds(code, hash, data, cfg, blockSize, n - 1);
      BlockLengthIsPiece(data, blockSize, n - 1);
      EncodeSucceeds(code, hash, Piece(data, n - 1, blockSize), cfg);
    }
  }

  /** Each group of shards is what is left of one encoded block. */
  ghost predicate LossOfBlocks(blocks: seq<seq<Option<Shard>>>, encoded: seq<Encoded>) {
    |blocks| == |encoded| && forall i :: 0 <= i < |blocks| ==> LossOf(blocks[i], encoded[i].chunks)
  }

  lemma DecodeOneBlock(code: Code, hash: Shard -> Hash, data: Shard, cfg: Config,
                       blockSize: nat, blocks: seq<seq<Option<Shard>>>, i: nat)
    requires cfg.Valid() && IsErasureCode(code, cfg) && data != [] && blockSize >= 1
    requires i < |blocks| == NumBlocks(|data|, blockSize)
    requires var r := EncodeBlocks(code, hash, data, cfg, blockSize, |blocks|);
             r.Ok? ==> LossOfBlocks(blocks, r.value)
    ensures var len := BlockLength(|blocks|, i, blockSize, |data|);
            && len.Some?
            && Decode(code, blocks[i], cfg, len.value) ==
                 if Present(blocks[i]) >= cfg.dataShards then Ok(Piece(data, i, blockSize))
                 else Err(Insufficient(cfg.dataShards, Present(blocks[i])))
  {
    EncodeBlocksSucceeds(code, hash, data, cfg, blockSize, |blocks|);
    BlockLengthIsPiece(data, blockSize, i);
    DecodeAfterEncode(code, hash, Piece(data, i, blockSize), cfg, blocks[i]);
  }

  /** Block `j` decodes to piece `j`. */
  ghost predicate Decodes(code: Code, data: Shard, cfg: Config, blockSize: nat,
                          blocks: seq<seq<Option<Shard>>>, j: nat)
    requires j < |blocks|
  {
    var len := BlockLength(|blocks|, j, blockSize, |data|);
    len.Some? && Decode(code, blocks[j], cfg, len.value) == Ok(Piece(data, j, blockSize))
  }

  lemma {:induction false} DecodeBlocksPrefix(code: Code, data: Shard, cfg: Config, blockSize: nat,
                                              blocks: seq<seq<Option<Shard>>>, i: nat)
    requires i <= |blocks|
    requires forall j :: 0 <= j < i ==> Decodes(code, data, cfg, blockSize, blocks, j)
    ensures DecodeBlocks(code, blocks, cfg, blockSize, |data|, i) == Ok(Covered(data, i, blockSize))
  {
    if i == 0 {
      PieceExtends(data, 0, blockSize);
    } else {
      DecodeBlocksPrefix(code, data, cfg, blockSize, blocks, i - 1);
      assert Decodes(code, data, cfg, blockSize, blocks, i - 1);
      DecodeNext(code, data, cfg, blockSize, blocks, i - 1);
    }
  }

  lemma DecodeNext(code: Code, data: Shard, cfg: Config, blockSize: nat, blocks: seq<seq<Option<Shard>>>, i: nat)
    requires i < |blocks| && Decodes(code, data, cfg, blockSize, blocks, i)
    requires DecodeBlocks(code, blocks, cfg, blockSize, |data|, i) == Ok(Covered(data, i, blockSize))
    ensures DecodeBlocks(code, blocks, cfg, blockSize, |data|, i + 1) == Ok(Covered(data, i + 1, blockSize))
  {
    PieceExtends(data, i, blockSize);
  }

  /**
   `decode_blocks` after `encode_blocks` is the identity on non-empty data, for every block size, every valid
   configuration and every loss that leaves `dataShards` shards of each block.
   */
  lemma BlocksRoundTrip(code: Code, hash: Shard -> Hash, data: Shard, cfg: Config, blockSize: nat,
                        blocks: seq<seq<Option<Shard>>>)
    requires cfg.Valid() && IsErasureCode(code, cfg) && data != [] && blockSize >= 1
    requires |blocks| == NumBlocks(|data|, blockSize)
    requires var r := EncodeBlocks(code, hash, data, cfg, blockSize, |blocks|);
             r.Ok? ==> LossOfBlocks(blocks, r.value)
    requires forall j :: 0 <= j < |blocks| ==> Present(blocks[j]) >= cfg.dataShards
    ensures DecodeBlocks(code, blocks, cfg, blockSize, |data|, |blocks|) == Ok(data)
  {
    forall j | 0 <= j < |blocks| ensures Decodes(code, data, cfg, blockSize, blocks, j) {
      DecodeOneBlock(code, hash, data, cfg, blockSize, blocks, j);
    }
    DecodeBlocksPrefix(code, data, cfg, blockSize, blocks, |blocks|);
    CeilDivBounds(|data|, blockSize);
    assert data[..|data|] == data;
  }

  /** And the first block that lost too much decides the error. */
  lemma BlocksTooShort(code: Code, hash: Shard -> Hash, data: Shard, cfg: Config, blockSize: nat,
                       blocks: seq<seq<Option<Shard>>>, bad: nat, n: nat)
    requires cfg.Valid() && IsErasureCode(code, cfg) && data != [] && blockSize >= 1
    requires bad < n <= |blocks| == NumBlocks(|data|, blockSize)
    requires var r := EncodeBlocks(code, hash, data, cfg, blockSize, |blocks|);
             r.Ok? ==> LossOfBlocks(blocks, r.value)
    requires forall j :: 0 <= j < bad ==> Present(blocks[j]) >= cfg.dataShards
    requires Present(blocks[bad]) < cfg.dataShards
    ensures DecodeBlocks(code, blocks, cfg, blockSize, |data|, n)
         == Err(Insufficient(cfg.dataShards, Present(blocks[bad])))
  {
    if n - 1 == bad {
      forall j | 0 <= j < bad ensures Decodes(code, data, cfg, blockSize, blocks, j) {
        DecodeOneBlock(code, hash, data, cfg, blockSize, blocks, j);
      }
      DecodeBlocksPrefix(code, data, cfg, blockSize, blocks, bad);
      DecodeOneBlock(code, hash, data, cfg, blockSize, blocks, bad);
    } else {
      BlocksTooShort(code, hash, data, cfg, blockSize, blocks, bad, n - 1);
    }
  }
}
