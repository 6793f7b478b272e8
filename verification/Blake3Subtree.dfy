/** Hashing whole subtrees at once. Chaining values are laid out in caller-provided
    buffers, as many side by side as the platform hashes in parallel. */
module Blake3Subtree {
  import opened Bytes
  import opened Bits
  import opened LeftTree
  import opened Blake3Spec
  import opened Blake3Chunk

  const ZERO_CV: Cv := seq(32, i => 0)

  /** The detected SIMD degree and the largest one compiled in; both are powers of two. */
  datatype Platform = Platform(degree: nat, maxDegree: nat) {
    ghost predicate Valid() {
      IsPow2(degree) && IsPow2(maxDegree) && degree <= maxDegree
    }

    /** The number of chaining values a subtree buffer has room for. */
    function MaxOr2(): nat {
      if maxDegree > 2 then maxDegree else 2
    }

    function DegreeOr2(): nat {
      if degree > 2 then degree else 2
    }
  }

  // ------------------------------------------------------------- hash_many

  /** Chaining value of n blocks, of which the last one carries the end flag. */
  function LastBlockCv(m: Mode, start: bv8, end: bv8, data: Bytes, n: nat, t: nat): Cv
    requires |data| == 64 * n
  {
    if n == 0 then m.key
    else m.h.inPlace(BlocksCv(m, start, data, t, n - 1), data[64 * (n - 1)..], 64, t,
                     With(With(m.flags, StartFlag(start, n - 1)), end))
  }

  lemma FullChunkIsBlocks(m: Mode, chunk: Bytes, t: nat)
    requires |chunk| == 1024
    ensures LastBlockCv(m, CHUNK_START, CHUNK_END, chunk, 16, t) == ChainingValue(m.h, ChunkOutput(m, chunk, t))
  {
    hide BlocksCv;
    PadFull(chunk[64 * 15..]);
  }

  lemma ParentIsBlock(m: Mode, left: Cv, right: Cv)
    ensures LastBlockCv(m.(flags := With(m.flags, PARENT)), 0, 0, Join(left, right), 1, 0) == ParentCv(m)(left, right)
  {
    assert Join(left, right)[0..] == Join(left, right);
  }

  lemma BlocksCvStep(m: Mode, start: bv8, data: Bytes, t: nat, n: nat)
    requires 64 * n <= |data|
    ensures StartFlag(start, 0) == start && With(m.flags, StartFlag(start, n + 1)) == m.flags
    ensures BlocksCv(m, start, data, t, 0) == m.key
    ensures 64 * (n + 1) <= |data| ==>
      BlocksCv(m, start, data, t, n + 1) ==
      m.h.inPlace(BlocksCv(m, start, data, t, n), data[64 * n..64 * (n + 1)], 64, t, With(m.flags, StartFlag(start, n)))
  {
  }

  lemma LastBlockIs(m: Mode, start: bv8, end: bv8, data: Bytes, n: nat, t: nat)
    requires |data| == 64 * n
    ensures n == 0 ==> LastBlockCv(m, start, end, data, n, t) == m.key
    ensures n >= 1 ==>
      LastBlockCv(m, start, end, data, n, t) ==
      m.h.inPlace(BlocksCv(m, start, data, t, n - 1), data[64 * (n - 1)..], 64, t,
                  With(With(m.flags, StartFlag(start, n - 1)), end))
  {
  }

  method HashOne(m: Mode, input0: Bytes, blocks0: nat, t: nat, start: bv8, end: bv8) returns (cv: Cv)
    requires |input0| == 64 * blocks0
    ensures cv == LastBlockCv(m, start, end, input0, blocks0, t)
  {
    hide BlocksCv, StartFlag, With, LastBlockCv;
    BlocksCvStep(m, start, input0, t, 0);
    LastBlockIs(m, start, end, input0, blocks0, t);
    var input, blocks := input0, blocks0;
    cv := m.key;
    var blockFlags := With(m.flags, start);
    while blocks > 0
      invariant 0 <= blocks <= blocks0
      invariant input == input0[64 * (blocks0 - blocks)..]
      invariant blockFlags == With(m.flags, StartFlag(start, blocks0 - blocks))
      invariant blocks > 0 || blocks0 == 0 ==> cv == BlocksCv(m, start, input0, t, blocks0 - blocks)
      invariant blocks == 0 && blocks0 >= 1 ==> cv == LastBlockCv(m, start, end, input0, blocks0, t)
    {
      if blocks == 1 {
        blockFlags := With(blockFlags, end);
      }
      ghost var n := blocks0 - blocks;
      BlocksCvStep(m, start, input0, t, n);
      assert input[..64] == input0[64 * n..64 * (n + 1)];
      assert blocks == 1 ==> input[..64] == input0[64 * n..];
      cv := m.h.inPlace(cv, input[..64], 64, t, blockFlags);
      input := input[64..];
      blocks := blocks - 1;
      blockFlags := m.flags;
    }
  }

  /** Hashes equally long inputs one after another into consecutive slots. */
  method HashMany(m: Mode, inputs: seq<Bytes>, blocks: nat, t: nat, increment: bool, start: bv8, end: bv8,
                  out: array<Cv>, off: nat)
    requires forall i | 0 <= i < |inputs| :: |inputs[i]| == 64 * blocks
    requires off + |inputs| <= out.Length
    modifies out
    ensures forall i | 0 <= i < |inputs| ::
      out[off + i] == LastBlockCv(m, start, end, inputs[i], blocks, if increment then t + i else t)
    ensures forall i | 0 <= i < off :: out[i] == old(out[i])
  {
    var counter := t;
    for k := 0 to |inputs|
      invariant counter == if increment then t + k else t
      invariant forall i | 0 <= i < k ::
        out[off + i] == LastBlockCv(m, start, end, inputs[i], blocks, if increment then t + i else t)
      invariant forall i | 0 <= i < off :: out[i] == old(out[i])
    {
      var cv := HashOne(m, inputs[k], blocks, counter, start, end);
      out[off + k] := cv;
      if increment {
        counter := counter + 1;
      }
    }
  }

  // ---------------------------------------------------------- one level

  /** The whole chunks of input, and where the partial one after them begins. */
  method WholeChunks(input: Bytes) returns (chunks: seq<Bytes>, position: nat)
    ensures position == 1024 * |chunks| <= |input| < 1024 * (|chunks| + 1)
    ensures forall i | 0 <= i < |chunks| :: chunks[i] == Chunk(input, i) && |chunks[i]| == 1024
  {
    chunks, position := [], 0;
    while |input| - position >= 1024
      invariant position == 1024 * |chunks| <= |input|
      invariant forall i | 0 <= i < |chunks| :: chunks[i] == Chunk(input, i) && |chunks[i]| == 1024
    {
      chunks := chunks + [input[position..position + 1024]];
      position := position + 1024;
    }
  }

  /** The chaining value of a chunk that is not full, by the streaming chunk state. */
  method ShortChunk(m: Mode, bytes: Bytes, t: nat) returns (cv: Cv)
    requires |bytes| <= 1024
    ensures cv == ChainingValue(m.h, ChunkOutput(m, bytes, t))
  {
    hide ChunkOutput, ChainingValue, BlocksCv, Pad, FullBlocks, With, ChunkState.Valid;
    var state := new ChunkState(m.h, m.key, m.flags);
    state.Advance(t);
    state.Update(bytes);
    assert state.M() == m && state.bytes == bytes;
    var output := state.Finish();
    cv := ChainingValue(m.h, output);
  }

  /** The chaining values of at most `degree` chunks; the last chunk may be short. */
  method CompressChunksParallel(m: Mode, input: Bytes, t: nat, out: array<Cv>, off: nat) returns (n: nat)
    requires 0 < |input| && off + NumChunks(|input|) <= out.Length
    modifies out
    ensures n == NumChunks(|input|) && out[off..off + n] == ChunkCvs(m, input, t)
    ensures forall i | 0 <= i < off :: out[i] == old(out[i])
  {
    hide ChunkOutput, LastBlockCv, ChainingValue;
    var chunks, position := WholeChunks(input);
    n := |chunks|;
    HashMany(m, chunks, 16, t, true, CHUNK_START, CHUNK_END, out, off);
    forall i | 0 <= i < n
      ensures out[off + i] == ChunkCvs(m, input, t)[i]
    {
      FullChunkIsBlocks(m, chunks[i], t + i);
    }
    if |input| > position {
      assert input[position..] == Chunk(input, n);
      var cv := ShortChunk(m, input[position..], t + n);
      out[off + n] := cv;
      assert out[off + n] == ChunkCvs(m, input, t)[n];
      n := n + 1;
    }
    assert n == NumChunks(|input|);
  }

  /** One level of parents; an odd chaining value left over moves up unchanged. */
  method CompressParentsParallel(m: Mode, cvs: seq<Cv>, out: array<Cv>, off: nat) returns (n: nat)
    requires 2 <= |cvs| && off + (|cvs| + 1) / 2 <= out.Length
    modifies out
    ensures n == (|cvs| + 1) / 2 && out[off..off + n] == Pair(ParentCv(m), cvs)
    ensures forall i | 0 <= i < off :: out[i] == old(out[i])
  {
    var parents: seq<Bytes> := [];
    while |cvs| - 2 * |parents| >= 2
      invariant 2 * |parents| <= |cvs|
      invariant forall i | 0 <= i < |parents| :: parents[i] == Join(cvs[2 * i], cvs[2 * i + 1])
    {
      parents := parents + [Join(cvs[2 * |parents|], cvs[2 * |parents| + 1])];
    }
    n := |parents|;
    HashMany(m.(flags := With(m.flags, PARENT)), parents, 1, 0, false, 0, 0, out, off);
    forall i | 0 <= i < n
      ensures out[off + i] == Pair(ParentCv(m), cvs)[i]
    {
      ParentIsBlock(m, cvs[2 * i], cvs[2 * i + 1]);
    }
    if |cvs| > 2 * n {
      out[off + n] := cvs[2 * n];
      n := n + 1;
    }
  }

  // ------------------------------------------------------- whole subtrees

  method LeftSubtreeLen(len: nat) returns (l: nat)
    requires 1024 < len < Pow2(64)
    ensures l == LeftLen(len)
  {
    hide Pow2, Floor2;
    var p := RoundDownToPowerOf2((len - 1) / 1024);
    l := p * 1024;
  }

  /** Layers that stand for the two halves of a tree stand for the tree, and share its top pair. */
  lemma JoinLayers<T>(f: (T, T) -> T, l: seq<T>, r: seq<T>, xs: seq<T>, ys: seq<T>)
    requires IsPow2(|l|) && 1 <= |r| <= |l|
    requires IsPow2(|xs|) && 1 <= |ys| <= |xs|
    requires Tree(f, l) == Tree(f, xs) && Tree(f, r) == Tree(f, ys)
    ensures Tree(f, l + r) == Tree(f, xs + ys)
    ensures Top(f, l + r) == Top(f, xs + ys)
  {
    hide IsPow2, Tree, Top;
    TopOfConcat(f, l, r);
    TopOfConcat(f, xs, ys);
  }

  /** What the left and right parts of an input longer than `degree` chunks look like. */
  lemma SplitShape(p: Platform, len: nat, k: nat)
    requires p.Valid() && len > p.degree * 1024 && len > 1024
    requires k == Floor2((len - 1) / 1024)
    ensures IsPow2(k) && p.degree <= k && 1024 * k < len <= 2048 * k
    ensures len % 1024 == 0 && IsPow2(len / 1024) ==> len == 2048 * k
    ensures NumChunks(1024 * k) == k && 1 <= NumChunks(len - 1024 * k) <= k
    ensures LeftLen(len) == 1024 * k
  {
    hide Floor2, IsPow2;
    FloorShape(len, k);
    DegreeFits(p, (len - 1) / 1024, k);
    FullSplit(len, k);
  }

  lemma FloorShape(len: nat, k: nat)
    requires len > 1024 && k == Floor2((len - 1) / 1024)
    ensures IsPow2(k) && 1024 * k < len <= 2048 * k
    ensures NumChunks(1024 * k) == k && 1 <= NumChunks(len - 1024 * k) <= k
    ensures LeftLen(len) == 1024 * k
  {
    hide Floor2, IsPow2;
  }

  lemma DegreeFits(p: Platform, c: nat, k: nat)
    requires p.Valid() && p.degree <= c && c >= 1 && k == Floor2(c)
    ensures p.degree <= k
  {
    hide Floor2;
    if k < p.degree {
      Pow2Gap(k, p.degree);
      assert false;
    }
  }

  lemma FullSplit(len: nat, k: nat)
    requires len > 1024 && k == Floor2((len - 1) / 1024)
    ensures len % 1024 == 0 && IsPow2(len / 1024) ==> len == 2048 * k
  {
    hide Floor2;
    if len % 1024 == 0 && IsPow2(len / 1024) {
      assert len / 1024 == (len - 1) / 1024 + 1;
      Pow2Gap(k, len / 1024);
    }
  }

  lemma PlatformShape(p: Platform)
    requires p.Valid()
    ensures 1 <= p.degree && p.DegreeOr2() <= p.MaxOr2() && p.MaxOr2() % 2 == 0
    ensures IsPow2(1) && IsPow2(2)
  {
  }

  ghost predicate FullSubtree(p: Platform, len: nat) {
    len % 1024 == 0 && IsPow2(len / 1024) && len / 1024 >= p.degree
  }

  lemma ShortShape(p: Platform, len: nat)
    requires p.Valid() && 0 < len <= p.degree * 1024
    ensures 1 <= NumChunks(len) <= p.degree && (NumChunks(len) == 1 <==> len <= 1024)
    ensures FullSubtree(p, len) ==> NumChunks(len) == p.degree
  {
    hide IsPow2;
  }

  /** Hashes a subtree down to at most `degree` (but at least two) chaining values that
      have the same tree, and the same top pair, as the chunks of the input. A full
      subtree fills exactly `degree` slots, which makes the halves written by the two
      recursive calls adjacent. */
  method CompressSubtreeWide(p: Platform, m: Mode, input: Bytes, t: nat, out: array<Cv>, off: nat) returns (n: nat)
    requires p.Valid() && 0 < |input| < Pow2(64)
    requires off + p.DegreeOr2() <= out.Length
    modifies out
    ensures 1 <= n <= p.DegreeOr2() && (n == 1 <==> |input| <= 1024)
    ensures FullSubtree(p, |input|) && |input| > 1024 ==> n == p.DegreeOr2()
    ensures Tree(ParentCv(m), out[off..off + n]) == Tree(ParentCv(m), ChunkCvs(m, input, t))
    ensures |input| > 1024 ==> Top(ParentCv(m), out[off..off + n]) == Top(ParentCv(m), ChunkCvs(m, input, t))
    ensures forall i | 0 <= i < off :: out[i] == old(out[i])
    decreases |input|, 1
  {
    hide IsPow2, Pow2, Floor2, Tree, Top, ChunkCvs, Pair, ParentCv, NumChunks, LeftLen;
    PlatformShape(p);
    if |input| <= p.degree * 1024 {
      ShortShape(p, |input|);
      n := CompressChunksParallel(m, input, t, out, off);
      return;
    }
    SplitShape(p, |input|, Floor2((|input| - 1) / 1024));
    var cvs, leftN := CompressHalves(p, m, input, t);
    n := CompressLayer(m, cvs, leftN, out, off);
  }

  /** The two recursive calls write adjacent halves of one array. */
  method CompressHalves(p: Platform, m: Mode, input: Bytes, t: nat) returns (cvs: seq<Cv>, leftN: nat)
    requires p.Valid() && p.degree * 1024 < |input| < Pow2(64) && 1024 < |input|
    ensures leftN < |cvs| <= leftN + p.DegreeOr2()
    ensures leftN == if |input| <= 2048 then p.degree else p.DegreeOr2()
    ensures leftN == 1 ==> |cvs| == 2
    ensures FullSubtree(p, |input|) ==> |cvs| == 2 * leftN
    ensures Tree(ParentCv(m), cvs) == Tree(ParentCv(m), ChunkCvs(m, input, t))
    ensures Top(ParentCv(m), cvs) == Top(ParentCv(m), ChunkCvs(m, input, t))
    decreases |input|, 0
  {
    hide IsPow2, Pow2, Floor2, Tree, Top, ChunkCvs, Pair, ParentCv, NumChunks, LeftLen;
    PlatformShape(p);
    var leftLen := LeftSubtreeLen(|input|);
    ghost var k := Floor2((|input| - 1) / 1024);
    SplitShape(p, |input|, k);
    var degree := p.degree;
    if leftLen > 1024 && degree == 1 {
      degree := 2;
    }
    var cvArray := new Cv[2 * p.MaxOr2()](i => ZERO_CV);
    leftN := CompressSubtreeWide(p, m, input[..leftLen], t, cvArray, 0);
    assert leftN == degree;
    ghost var left := cvArray[0..leftN];
    var rightN := CompressSubtreeWide(p, m, input[leftLen..], t + leftLen / 1024, cvArray, degree);
    ghost var right := cvArray[degree..degree + rightN];
    cvs := cvArray[..leftN + rightN];
    assert cvs == left + right;
    ChunkCvsSplit(m, input, t, k);
    JoinLayers(ParentCv(m), left, right, ChunkCvs(m, input[..leftLen], t), ChunkCvs(m, input[leftLen..], t + k));
  }

  /** One layer of parents over two adjacent halves, unless they are single values that may be the root's children. */
  method CompressLayer(m: Mode, cvs: seq<Cv>, leftN: nat, out: array<Cv>, off: nat) returns (n: nat)
    requires 1 <= leftN && leftN + 1 <= |cvs| && (leftN == 1 ==> |cvs| == 2)
    requires off + (|cvs| + 1) / 2 <= out.Length && off + 2 <= out.Length
    modifies out
    ensures n == if leftN == 1 then 2 else (|cvs| + 1) / 2
    ensures Tree(ParentCv(m), out[off..off + n]) == Tree(ParentCv(m), cvs)
    ensures Top(ParentCv(m), out[off..off + n]) == Top(ParentCv(m), cvs)
    ensures forall i | 0 <= i < off :: out[i] == old(out[i])
  {
    hide Tree, Top, Pair, ParentCv;
    if leftN == 1 {
      out[off], out[off + 1] := cvs[0], cvs[1];
      assert out[off..off + 2] == cvs;
      return 2;
    }
    PairKeepsTree(ParentCv(m), cvs);
    n := CompressParentsParallel(m, cvs, out, off);
  }

  /** Condenses a subtree of more than one chunk to the chaining values of its two children. */
  method CompressSubtreeToParentNode(p: Platform, m: Mode, input: Bytes, t: nat) returns (left: Cv, right: Cv)
    requires p.Valid() && 1024 < |input| < Pow2(64)
    ensures (left, right) == Top(ParentCv(m), ChunkCvs(m, input, t))
  {
    hide IsPow2, Pow2, Tree, Top, ChunkCvs, Pair, ParentCv;
    PlatformShape(p);
    var cvArray := new Cv[p.MaxOr2()](i => ZERO_CV);
    var n := CompressSubtreeWide(p, m, input, t, cvArray, 0);
    var outArray := new Cv[p.MaxOr2() / 2](i => ZERO_CV);
    while n > 2
      invariant 2 <= n <= p.MaxOr2()
      invariant Top(ParentCv(m), cvArray[..n]) == Top(ParentCv(m), ChunkCvs(m, input, t))
    {
      var cvs := cvArray[..n];
      PairKeepsTree(ParentCv(m), cvs);
      n := CompressParentsParallel(m, cvs, outArray, 0);
      assert outArray[0..0 + n] == Pair(ParentCv(m), cvs);
      forall i | 0 <= i < n { cvArray[i] := outArray[i]; }
      assert cvArray[..n] == Pair(ParentCv(m), cvs);
    }
    TopOfTwo(ParentCv(m), cvArray[..n]);
    left, right := cvArray[0], cvArray[1];
  }
}
