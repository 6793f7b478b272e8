/** What the tree asks of the compression function, in numbers: which flags, counters and lengths go with
    blocks, chunks, parents and the root. */
module Blake3Domains {
  import opened Bytes
  import opened Bits
  import opened Blake3Spec

  // ------------------------------------------------------------ definition

  /** A chunk chains its blocks from the key: flag 1 on the first, flag 2 on the last, which is padded with
      zeros and withheld. */
  lemma ChunkChain(m: Mode, chunk: Bytes, t: nat) returns (cvs: seq<Cv>)
    ensures |cvs| >= 1 && cvs[0] == m.key
    ensures var n := |cvs| - 1;
      && 64 * n <= |chunk| <= 64 * n + 64 && (n > 0 ==> 64 * n < |chunk|)
      && (forall i | 0 <= i < n ::
            cvs[i + 1] ==
            m.h.inPlace(cvs[i], chunk[64 * i..64 * i + 64], 64, t, if i == 0 then m.flags | 1 else m.flags))
      && ChunkOutput(m, chunk, t) ==
         Output(cvs[n], chunk[64 * n..] + seq(64 * n + 64 - |chunk|, _ => 0), |chunk| - 64 * n, t,
                if n == 0 then m.flags | 1 | 2 else m.flags | 2)
  {
    hide FullBlocks, BlocksCv, ChunkOutput;
    var n := FullBlocks(|chunk|);
    cvs := seq(n + 1, i requires 0 <= i <= n => BlocksCv(m, CHUNK_START, chunk, t, i));
    forall i | 0 <= i < n
      ensures cvs[i + 1] ==
              m.h.inPlace(cvs[i], chunk[64 * i..64 * i + 64], 64, t, if i == 0 then m.flags | 1 else m.flags)
    {
      BlockStep(m, chunk, t, i);
    }
    BlockStep(m, chunk, t, 0);
    LastBlock(m, chunk, t);
  }

  lemma BlockStep(m: Mode, chunk: Bytes, t: nat, i: nat)
    ensures BlocksCv(m, CHUNK_START, chunk, t, 0) == m.key
    ensures 64 * i + 64 <= |chunk| ==>
      BlocksCv(m, CHUNK_START, chunk, t, i + 1) ==
      m.h.inPlace(BlocksCv(m, CHUNK_START, chunk, t, i), chunk[64 * i..64 * i + 64], 64, t,
                  if i == 0 then m.flags | 1 else m.flags)
  {
    OrNothing(m.flags);
  }

  lemma LastBlock(m: Mode, chunk: Bytes, t: nat)
    ensures var n := FullBlocks(|chunk|);
      ChunkOutput(m, chunk, t) ==
      Output(BlocksCv(m, CHUNK_START, chunk, t, n), chunk[64 * n..] + seq(64 * n + 64 - |chunk|, _ => 0),
             |chunk| - 64 * n, t, if n == 0 then m.flags | 1 | 2 else m.flags | 2)
  {
    hide FullBlocks, BlocksCv;
    OrNothing(m.flags);
  }

  lemma OrNothing(f: bv8)
    ensures f | 0 == f
  {
  }

  /** Above one chunk, the left part holds the largest power of two of chunks that leaves a byte, and the node
      is compressed from the key with flag 4, counter 0 and full length. */
  lemma ParentSplit(m: Mode, input: Bytes, t: nat, k: nat)
    requires 1024 * Pow2(k) < |input| <= 2048 * Pow2(k)
    ensures var l, r := TreeOutput(m, input[..1024 * Pow2(k)], t), TreeOutput(m, input[1024 * Pow2(k)..], t + Pow2(k));
      var left: Bytes := m.h.inPlace(l.inputCv, l.block, l.blockLen, l.counter, l.flags);
      TreeOutput(m, input, t) ==
      Output(m.key, left + m.h.inPlace(r.inputCv, r.block, r.blockLen, r.counter, r.flags), 64, 0, m.flags | 4)
  {
    PowIsPow2(k);
    hide Floor2, Pow2, IsPow2, ChunkOutput;
    ChunksLeft(|input|, Pow2(k));
    Floor2Is(Pow2(k), (|input| - 1) / 1024);
    assert LeftLen(|input|) == 1024 * Pow2(k);
    hide LeftLen;
  }

  lemma ChunksLeft(len: nat, p: nat)
    requires 1024 * p < len <= 2048 * p
    ensures p <= (len - 1) / 1024 < 2 * p && len > 1024 && (1024 * p) / 1024 == p
  {
  }

  /** The output stream compresses the top node with flag 8 and the number of the output block. */
  lemma HashByte(m: Mode, input: Bytes, seek: nat, n: nat, i: nat)
    requires i < n
    ensures |input| <= 1024 ==> TreeOutput(m, input, 0) == ChunkOutput(m, input, 0)
    ensures var o := TreeOutput(m, input, 0);
      Hash(m, input, seek, n)[i] ==
      m.h.xof(o.inputCv, o.block, o.blockLen, (seek + i) / 64, o.flags | 8)[(seek + i) % 64]
  {
    hide ChunkOutput;
  }

  // ------------------------------------------------------------ separation

  /** The two agree below the root without flag 8, and at the root with it. */
  ghost predicate Agree(h: Compression, k: Compression) {
    && (forall cv, b, n, t, f: bv8 | f & 8 == 0 :: h.inPlace(cv, b, n, t, f) == k.inPlace(cv, b, n, t, f))
    && (forall cv, b, n, t, f: bv8 | f & 8 == 8 :: h.xof(cv, b, n, t, f) == k.xof(cv, b, n, t, f))
  }

  lemma KeepsClear(f: bv8)
    requires f & 8 == 0
    ensures (f | 0) & 8 == 0 && (f | 1) & 8 == 0 && (f | 2) & 8 == 0 && (f | 4) & 8 == 0
    ensures (f | 0 | 2) & 8 == 0 && (f | 1 | 2) & 8 == 0
  {
  }

  lemma RootSet(f: bv8)
    ensures (f | 8) & 8 == 8
  {
  }

  lemma {:induction false} SameBlocks(m: Mode, k: Compression, data: Bytes, t: nat, n: nat)
    requires Agree(m.h, k) && m.flags & 8 == 0 && 64 * n <= |data|
    ensures BlocksCv(m, CHUNK_START, data, t, n) == BlocksCv(m.(h := k), CHUNK_START, data, t, n)
  {
    if n > 0 {
      SameBlocks(m, k, data, t, n - 1);
      KeepsClear(m.flags);
    }
  }

  lemma SameChunk(m: Mode, k: Compression, chunk: Bytes, t: nat)
    requires Agree(m.h, k) && m.flags & 8 == 0
    ensures ChunkOutput(m, chunk, t) == ChunkOutput(m.(h := k), chunk, t)
    ensures ChunkOutput(m, chunk, t).flags & 8 == 0
  {
    hide BlocksCv, FullBlocks, Pad;
    SameBlocks(m, k, chunk, t, FullBlocks(|chunk|));
    KeepsClear(m.flags);
  }

  lemma {:induction false} SameTree(m: Mode, k: Compression, input: Bytes, t: nat)
    requires Agree(m.h, k) && m.flags & 8 == 0
    ensures TreeOutput(m, input, t) == TreeOutput(m.(h := k), input, t)
    ensures TreeOutput(m, input, t).flags & 8 == 0
    decreases |input|
  {
    hide ChunkOutput, LeftLen;
    if |input| <= CHUNK_LEN {
      SameChunk(m, k, input, t);
    } else {
      var l := LeftLen(|input|);
      SameTree(m, k, input[..l], t);
      SameTree(m, k, input[l..], t + l / CHUNK_LEN);
      KeepsClear(m.flags);
    }
  }

  /** The hash depends on the compression of inner nodes only without flag 8, and on the output compression
      only with it. */
  lemma RootSeparated(m: Mode, k: Compression, input: Bytes, seek: nat, n: nat)
    requires m.flags & 8 == 0
    requires forall cv, b, n, t, f: bv8 | f & 8 == 0 :: m.h.inPlace(cv, b, n, t, f) == k.inPlace(cv, b, n, t, f)
    requires forall cv, b, n, t, f: bv8 | f & 8 == 8 :: m.h.xof(cv, b, n, t, f) == k.xof(cv, b, n, t, f)
    ensures Hash(m, input, seek, n) == Hash(m.(h := k), input, seek, n)
  {
    hide TreeOutput;
    SameTree(m, k, input, 0);
    RootSet(TreeOutput(m, input, 0).flags);
  }
}
