/** The incremental chunk state, and the block loop that the parallel path uses for
    whole chunks and parents. Both reach the chunk output of the specification. */
module Blake3Chunk {
  import opened Bytes
  import opened Blake3Spec

  lemma {:induction false} BlocksCvPrefix(m: Mode, start: bv8, a: Bytes, b: Bytes, t: nat, n: nat)
    requires 64 * n <= |a| && 64 * n <= |b| && a[..64 * n] == b[..64 * n]
    ensures BlocksCv(m, start, a, t, n) == BlocksCv(m, start, b, t, n)
  {
    if n > 0 {
      var lo, hi := 64 * (n - 1), 64 * n;
      assert a[..lo] == a[..hi][..lo] && b[..lo] == b[..hi][..lo];
      assert a[lo..hi] == a[..hi][lo..] && b[lo..hi] == b[..hi][lo..];
      BlocksCvPrefix(m, start, a, b, t, n - 1);
    }
  }

  lemma NextBlock(all: Bytes, k: nat, block: Bytes, rest: Bytes)
    requires |block| == 64 && 64 * k <= |all| && all[64 * k..] == block + rest
    ensures 64 * (k + 1) <= |all|
    ensures all[64 * k..64 * (k + 1)] == block && all[64 * (k + 1)..] == rest
  {
    assert all[64 * k..64 * (k + 1)] == all[64 * k..][..64];
    assert all[64 * (k + 1)..] == all[64 * k..][64..];
  }

  lemma PadFull(x: Bytes)
    requires |x| == 64
    ensures Pad(x) == x
  {
  }

  class ChunkState {
    const h: Compression
    const buf: array<Byte>
    var cv: Cv
    var chunkCounter: nat
    var bufLen: nat
    var blocksCompressed: nat
    var flags: bv8

    /** What has been absorbed since the last reset, and under which key. */
    ghost var bytes: Bytes
    ghost var key: Cv

    ghost function M(): Mode
      reads this
    {
      Mode(h, key, flags)
    }

    /** The last block is always withheld in the buffer, which is zero beyond its end. */
    ghost predicate Valid()
      reads this, buf
    {
      && buf.Length == 64
      && |bytes| <= 1024
      && blocksCompressed == FullBlocks(|bytes|)
      && bufLen == |bytes| - 64 * blocksCompressed
      && cv == BlocksCv(M(), CHUNK_START, bytes, chunkCounter, blocksCompressed)
      && buf[..] == Pad(bytes[64 * blocksCompressed..])
    }

    constructor (h: Compression, key: Cv, flags: bv8)
      ensures Valid() && fresh(buf)
      ensures bytes == [] && chunkCounter == 0 && M() == Mode(h, key, flags)
    {
      this.h := h;
      cv := key;
      chunkCounter := 0;
      buf := new Byte[64](i => 0);
      bufLen := 0;
      blocksCompressed := 0;
      this.flags := flags;
      bytes := [];
      this.key := key;
    }

    method Reset(key: Cv, chunkCounter: nat)
      requires buf.Length == 64
      modifies this, buf
      ensures Valid() && bytes == []
      ensures this.chunkCounter == chunkCounter && M() == Mode(h, key, old(flags))
    {
      cv := key;
      this.chunkCounter := chunkCounter;
      blocksCompressed := 0;
      ClearBuf();
      bytes := [];
      this.key := key;
    }

    /** The counter may only move while nothing has been absorbed. */
    method Advance(chunks: nat)
      requires Valid() && bytes == []
      modifies `chunkCounter
      ensures Valid() && chunkCounter == old(chunkCounter) + chunks
    {
      chunkCounter := chunkCounter + chunks;
    }

    method ClearBuf()
      requires buf.Length == 64
      modifies buf, `bufLen
      ensures bufLen == 0 && buf[..] == Pad([])
    {
      forall i | 0 <= i < 64 { buf[i] := 0; }
      bufLen := 0;
    }

    function Len(): (n: nat)
      reads this, buf
      requires Valid()
      ensures n == |bytes|
    {
      64 * blocksCompressed + bufLen
    }

    function MaybeStartFlag(): bv8
      reads this
    {
      if blocksCompressed == 0 then CHUNK_START else 0
    }

    /** Copies as much input as the buffer, which holds x, has room for. */
    method FillBuf(input: Bytes, ghost x: Bytes) returns (take: nat)
      requires buf.Length == 64 && bufLen == |x| <= 64 && buf[..] == Pad(x)
      modifies buf, `bufLen
      ensures take == if |input| < 64 - |x| then |input| else 64 - |x|
      ensures bufLen == |x| + take && buf[..] == Pad(x + input[..take])
    {
      take := 64 - bufLen;
      if take > |input| {
        take := |input|;
      }
      forall i | 0 <= i < take { buf[bufLen + i] := input[i]; }
      bufLen := bufLen + take;
    }

    /** Compresses the next block of all, which is not the last one. */
    method CompressBlock(block: Block, ghost rest: Bytes, ghost all: Bytes)
      requires 64 * blocksCompressed <= |all| && all[64 * blocksCompressed..] == block + rest
      requires cv == BlocksCv(M(), CHUNK_START, all, chunkCounter, blocksCompressed)
      modifies `cv, `blocksCompressed
      ensures blocksCompressed == old(blocksCompressed) + 1
      ensures 64 * blocksCompressed <= |all| && all[64 * blocksCompressed..] == rest
      ensures cv == BlocksCv(M(), CHUNK_START, all, chunkCounter, blocksCompressed)
    {
      NextBlock(all, blocksCompressed, block, rest);
      cv := h.inPlace(cv, block, 64, chunkCounter, With(flags, MaybeStartFlag()));
      blocksCompressed := blocksCompressed + 1;
    }

    /** Compresses whole blocks straight from the input, and leaves a last one to the caller. */
    method CompressBlocks(input: Bytes, ghost all: Bytes) returns (rest: Bytes)
      requires |input| > 64 && 64 * blocksCompressed <= |all| && all[64 * blocksCompressed..] == input
      requires cv == BlocksCv(M(), CHUNK_START, all, chunkCounter, blocksCompressed)
      modifies `cv, `blocksCompressed
      ensures blocksCompressed > old(blocksCompressed) && 0 < |rest| <= 64
      ensures 64 * blocksCompressed <= |all| && all[64 * blocksCompressed..] == rest
      ensures cv == BlocksCv(M(), CHUNK_START, all, chunkCounter, blocksCompressed)
    {
      hide BlocksCv;
      rest := input;
      while |rest| > 64
        invariant |rest| > 0 && blocksCompressed >= old(blocksCompressed)
        invariant rest != input ==> blocksCompressed > old(blocksCompressed)
        invariant 64 * blocksCompressed <= |all| && all[64 * blocksCompressed..] == rest
        invariant cv == BlocksCv(M(), CHUNK_START, all, chunkCounter, blocksCompressed)
      {
        assert rest == rest[..64] + rest[64..];
        CompressBlock(rest[..64], rest[64..], all);
        rest := rest[64..];
      }
    }

    /** Absorbs input; the state only depends on all bytes absorbed, not on how they were split. */
    method Update(input0: Bytes)
      requires Valid() && |bytes| + |input0| <= 1024
      modifies this, buf
      ensures Valid() && bytes == old(bytes) + input0
      ensures chunkCounter == old(chunkCounter) && M() == old(M())
    {
      hide Pad, BlocksCv, With;
      var input := input0;
      ghost var all, x := bytes + input0, bytes[64 * blocksCompressed..];
      BlocksCvPrefix(M(), CHUNK_START, bytes, all, chunkCounter, blocksCompressed);
      if bufLen > 0 {
        var take := FillBuf(input, x);
        x := x + input[..take];
        input := input[take..];
        assert all[64 * blocksCompressed..] == x + input;
        if |input| > 0 {
          PadFull(x);
          CompressBlock(buf[..], input, all);
          ClearBuf();
          x := [];
        }
      }
      assert all[64 * blocksCompressed..] == x + input && (x == [] || input == []);
      if |input| > 64 {
        assert x + input == input;
        input := CompressBlocks(input, all);
        assert x + input == input;
      }
      assert blocksCompressed == FullBlocks(|all|);
      var take := FillBuf(input, x);
      assert input[..take] == input;
      bytes := all;
    }

    /** The node this chunk would be if it ended here. */
    method Finish() returns (o: Output)
      requires Valid()
      ensures o == ChunkOutput(M(), bytes, chunkCounter)
    {
      o := Output(cv, buf[..], bufLen, chunkCounter, With(With(flags, MaybeStartFlag()), CHUNK_END));
    }
  }
}
