/** BLAKE3 as its specification defines it: the hash tree over 1024-byte chunks
    (section 2.1), chunk and parent chaining values (2.4, 2.5) and extendable output
    (2.6). The compression function is a parameter, so every statement about this
    module holds whatever the compression function computes. */
module Blake3Spec {
  import opened Bytes
  import opened Bits
  import opened LeftTree

  const CHUNK_LEN: nat := 1024

  const CHUNK_START: bv8 := 1
  const CHUNK_END: bv8 := 2
  const PARENT: bv8 := 4
  const ROOT: bv8 := 8

  /** Bitwise or of flag sets. */
  function With(flags: bv8, more: bv8): bv8 {
    flags | more
  }

  type Cv = s: Bytes | |s| == 32 witness seq(32, i => 0)
  type Block = s: Bytes | |s| == 64 witness seq(64, i => 0)

  /** Arguments: input chaining value, block, block length, counter, flags. */
  type Compress = (Cv, Block, nat, nat, bv8) -> Cv
  type CompressXof = (Cv, Block, nat, nat, bv8) -> Block

  datatype Compression = Compression(inPlace: Compress, xof: CompressXof)

  /** The compression function together with the key words and flags chosen at initialisation. */
  datatype Mode = Mode(h: Compression, key: Cv, flags: bv8)

  /** A node of the tree that has not been compressed yet. */
  datatype Output = Output(inputCv: Cv, block: Block, blockLen: nat, counter: nat, flags: bv8)

  function ChainingValue(h: Compression, o: Output): Cv {
    h.inPlace(o.inputCv, o.block, o.blockLen, o.counter, o.flags)
  }

  // ---------------------------------------------------------------- chunks

  function StartFlag(start: bv8, blocks: nat): bv8 {
    if blocks == 0 then start else 0
  }

  /** Chaining value after the first n whole blocks of data. */
  function BlocksCv(m: Mode, start: bv8, data: Bytes, t: nat, n: nat): Cv
    requires 64 * n <= |data|
  {
    if n == 0 then m.key
    else
      m.h.inPlace(BlocksCv(m, start, data, t, n - 1), data[64 * (n - 1)..64 * n], 64, t,
                  With(m.flags, StartFlag(start, n - 1)))
  }

  function Pad(data: Bytes): Block
    requires |data| <= 64
  {
    data + seq(64 - |data|, i => 0)
  }

  /** The number of blocks before the last one; the last block may be short but is empty only in the empty chunk. */
  function FullBlocks(len: nat): (n: nat)
    ensures 64 * n <= len <= 64 * n + 64
    ensures len > 0 ==> 64 * n < len
  {
    if len == 0 then 0 else (len - 1) / 64
  }

  function ChunkOutput(m: Mode, chunk: Bytes, t: nat): Output {
    var n := FullBlocks(|chunk|);
    Output(BlocksCv(m, CHUNK_START, chunk, t, n), Pad(chunk[64 * n..]), |chunk| - 64 * n, t,
           With(With(m.flags, StartFlag(CHUNK_START, n)), CHUNK_END))
  }

  // ------------------------------------------------------------------ tree

  function Join(left: Cv, right: Cv): Block {
    var l: Bytes := left;
    l + right
  }

  function ParentOutput(m: Mode, left: Cv, right: Cv): Output {
    Output(m.key, Join(left, right), 64, 0, With(m.flags, PARENT))
  }

  /** The chaining value of a parent as a function of those of its children. */
  function ParentCv(m: Mode): (Cv, Cv) -> Cv {
    (left: Cv, right: Cv) => ChainingValue(m.h, ParentOutput(m, left, right))
  }

  /** Bytes in the left subtree: the largest power of two of chunks that leaves a byte for the right one. */
  function LeftLen(len: nat): (l: nat)
    requires len > CHUNK_LEN
    ensures CHUNK_LEN <= l < len && l % CHUNK_LEN == 0
  {
    CHUNK_LEN * Floor2((len - 1) / CHUNK_LEN)
  }

  /** The top node of the tree over input, whose first chunk has number t. */
  function TreeOutput(m: Mode, input: Bytes, t: nat): Output
    decreases |input|
  {
    if |input| <= CHUNK_LEN then ChunkOutput(m, input, t)
    else
      var l := LeftLen(|input|);
      ParentOutput(m, ChainingValue(m.h, TreeOutput(m, input[..l], t)),
                   ChainingValue(m.h, TreeOutput(m, input[l..], t + l / CHUNK_LEN)))
  }

  // ---------------------------------------------------------------- output

  function XofBlock(m: Mode, o: Output, counter: nat): Block {
    m.h.xof(o.inputCv, o.block, o.blockLen, counter, With(o.flags, ROOT))
  }

  /** Byte i of the extendable output from position seek on. */
  function StreamByte(m: Mode, o: Output, seek: nat, i: nat): Byte {
    XofBlock(m, o, (seek + i) / 64)[(seek + i) % 64]
  }

  /** Bytes seek .. seek + n of the extendable output of a root node. */
  function RootBytes(m: Mode, o: Output, seek: nat, n: nat): Bytes {
    seq(n, i requires 0 <= i < n => StreamByte(m, o, seek, i))
  }

  function Hash(m: Mode, input: Bytes, seek: nat, n: nat): (out: Bytes)
    ensures |out| == n
  {
    RootBytes(m, TreeOutput(m, input, 0), seek, n)
  }

  // ------------------------------------------------- chunk chaining values

  function NumChunks(len: nat): nat {
    (len + 1023) / 1024
  }

  function Chunk(input: Bytes, i: nat): Bytes
    requires i < NumChunks(|input|)
  {
    if 1024 * (i + 1) <= |input| then input[1024 * i..1024 * (i + 1)] else input[1024 * i..]
  }

  /** The chaining values of the chunks of input, from left to right. */
  function ChunkCvs(m: Mode, input: Bytes, t: nat): (cvs: seq<Cv>)
    ensures |cvs| == NumChunks(|input|)
  {
    seq(NumChunks(|input|), i requires 0 <= i < NumChunks(|input|) =>
      ChainingValue(m.h, ChunkOutput(m, Chunk(input, i), t + i)))
  }

  lemma ChunkCvsAt(m: Mode, input: Bytes, t: nat, i: nat)
    requires i < NumChunks(|input|)
    ensures ChunkCvs(m, input, t)[i] == ChainingValue(m.h, ChunkOutput(m, Chunk(input, i), t + i))
  {
  }

  lemma NumChunksSuffix(len: nat, k: nat)
    requires 1024 * k <= len
    ensures NumChunks(len) == k + NumChunks(len - 1024 * k)
  {
  }

  lemma ChunkOfPrefix(input: Bytes, k: nat, i: nat)
    requires 1024 * k <= |input| && i < k
    ensures NumChunks(1024 * k) == k <= NumChunks(|input|)
    ensures Chunk(input, i) == Chunk(input[..1024 * k], i)
  {
  }

  lemma ChunkOfSuffix(input: Bytes, k: nat, i: nat)
    requires 1024 * k <= |input| && i < NumChunks(|input| - 1024 * k)
    ensures NumChunks(|input|) == k + NumChunks(|input| - 1024 * k)
    ensures Chunk(input, k + i) == Chunk(input[1024 * k..], i)
  {
  }

  lemma ChunkCvsPrefix(m: Mode, input: Bytes, t: nat, k: nat)
    requires 1024 * k <= |input|
    ensures k <= |ChunkCvs(m, input, t)| && ChunkCvs(m, input, t)[..k] == ChunkCvs(m, input[..1024 * k], t)
  {
    assert NumChunks(1024 * k) == k <= NumChunks(|input|);
    hide ChunkOutput, ChainingValue, Chunk, NumChunks;
    forall i | 0 <= i < k
      ensures ChunkCvs(m, input, t)[i] == ChunkCvs(m, input[..1024 * k], t)[i]
    {
      ChunkOfPrefix(input, k, i);
    }
  }

  lemma ChunkCvsSuffix(m: Mode, input: Bytes, t: nat, k: nat)
    requires 1024 * k <= |input|
    ensures k <= |ChunkCvs(m, input, t)| && ChunkCvs(m, input, t)[k..] == ChunkCvs(m, input[1024 * k..], t + k)
  {
    hide ChunkOutput, ChainingValue, Chunk, NumChunks, ChunkCvs;
    NumChunksSuffix(|input|, k);
    var xs, ys := ChunkCvs(m, input, t), ChunkCvs(m, input[1024 * k..], t + k);
    forall i | 0 <= i < |ys|
      ensures xs[k..][i] == ys[i]
    {
      ChunkOfSuffix(input, k, i);
      ChunkCvsAt(m, input, t, k + i);
      ChunkCvsAt(m, input[1024 * k..], t + k, i);
    }
  }

  lemma ChunkCvsSplit(m: Mode, input: Bytes, t: nat, k: nat)
    requires 1024 * k <= |input|
    ensures ChunkCvs(m, input, t) == ChunkCvs(m, input[..1024 * k], t) + ChunkCvs(m, input[1024 * k..], t + k)
  {
    hide ChunkCvs;
    ChunkCvsPrefix(m, input, t, k);
    ChunkCvsSuffix(m, input, t, k);
    var all := ChunkCvs(m, input, t);
    assert all == all[..k] + all[k..];
  }

  lemma ChunkCvsSingle(m: Mode, input: Bytes, t: nat)
    requires 1 <= |input| <= 1024
    ensures ChunkCvs(m, input, t) == [ChainingValue(m.h, ChunkOutput(m, input, t))]
  {
    assert NumChunks(|input|) == 1;
    assert Chunk(input, 0) == input;
  }

  lemma TreeOutputSmall(m: Mode, input: Bytes, t: nat)
    requires |input| <= 1024
    ensures TreeOutput(m, input, t) == ChunkOutput(m, input, t)
  {
  }

  lemma TreeOutputSplit(m: Mode, input: Bytes, t: nat, k: nat)
    requires |input| > 1024 && k == Floor2((|input| - 1) / 1024)
    ensures 1 <= k && 1024 * k < |input|
    ensures TreeOutput(m, input, t) ==
            ParentOutput(m, ChainingValue(m.h, TreeOutput(m, input[..1024 * k], t)),
                         ChainingValue(m.h, TreeOutput(m, input[1024 * k..], t + k)))
  {
    hide ChunkOutput, Floor2;
    assert LeftLen(|input|) == 1024 * k;
  }

  /** The tree over bytes is the left-balanced tree over the chunk chaining values. */
  lemma {:induction false} TreeIsLeftTree(m: Mode, input: Bytes, t: nat)
    requires |input| >= 1
    ensures ChainingValue(m.h, TreeOutput(m, input, t)) == Tree(ParentCv(m), ChunkCvs(m, input, t))
    ensures |input| > 1024 ==>
      var (l, r) := Top(ParentCv(m), ChunkCvs(m, input, t));
      TreeOutput(m, input, t) == ParentOutput(m, l, r)
    decreases |input|
  {
    hide ChunkOutput, ChunkCvs, Floor2, IsPow2, Top, TreeOutput, ChainingValue;
    if |input| <= 1024 {
      TreeOutputSmall(m, input, t);
      ChunkCvsSingle(m, input, t);
    } else {
      var k := Floor2((|input| - 1) / 1024);
      var l := 1024 * k;
      var a, b := input[..l], input[l..];
      TreeOutputSplit(m, input, t, k);
      TreeIsLeftTree(m, a, t);
      TreeIsLeftTree(m, b, t + k);
      ChunkCvsSplit(m, input, t, k);
      TopOfConcat(ParentCv(m), ChunkCvs(m, a, t), ChunkCvs(m, b, t + k));
    }
  }
}
