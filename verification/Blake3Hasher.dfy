/** The streaming hasher: a chunk state, and a stack of chaining values of finished
    subtrees whose merging is delayed until more input is known to follow. */
module Blake3Hasher {
  import opened Bytes
  import opened Bits
  import opened LeftTree
  import opened Blake3Spec
  import opened Blake3Chunk
  import opened Blake3Subtree
  import opened Blake3Output

  const MAX_DEPTH: nat := 54

  /** The stack stands for the chunks xs, the last s of them as one entry that may still await merging. */
  ghost predicate StackHolds(f: (Cv, Cv) -> Cv, stack: seq<Cv>, xs: seq<Cv>, s: nat) {
    if xs == [] then stack == []
    else 1 <= s <= |xs| && IsPow2(s) && Aligned(|xs| - s, s) && stack == Lazy(f, xs, s)
  }

  /** Two equal subtrees are waiting on top of the stack for c chunks. */
  ghost predicate CanMerge(c: nat, s: nat) {
    1 <= s <= c && IsPow2(s) && !Aligned(c - s, 2 * s)
  }

  /** The population count of the number of chunks decides correctly whether the top two entries merge. */
  lemma StackMerge(f: (Cv, Cv) -> Cv, stack: seq<Cv>, xs: seq<Cv>, s: nat)
    requires StackHolds(f, stack, xs, s)
    ensures |stack| > PopCount(|xs|) <==> CanMerge(|xs|, s)
    ensures !CanMerge(|xs|, s) ==> stack == Subtrees(f, xs)
    ensures CanMerge(|xs|, s) ==>
      |stack| >= 2 && StackHolds(f, stack[..|stack| - 2] + [f(stack[|stack| - 2], stack[|stack| - 1])], xs, 2 * s)
  {
    hide Aligned, Tree, Lazy, IsPow2, Subtrees, PopCount;
    if xs == [] {
      NothingToMerge(f);
    } else {
      MergeTest(f, xs, s);
      if CanMerge(|xs|, s) {
        MergeStep(f, xs, s);
      } else {
        MergeDone(f, xs, s);
      }
    }
  }

  lemma NothingToMerge(f: (Cv, Cv) -> Cv)
    ensures PopCount(0) == 0 && Subtrees(f, []) == []
  {
  }

  lemma NothingHeld(m: Mode, s: nat)
    ensures StackHolds(ParentCv(m), [], ChunkCvs(m, [], 0), s)
  {
  }

  lemma StackLength(f: (Cv, Cv) -> Cv, stack: seq<Cv>, xs: seq<Cv>, s: nat)
    requires StackHolds(f, stack, xs, s) && |xs| < Pow2(MAX_DEPTH)
    ensures |stack| <= MAX_DEPTH + 1
    ensures PopCount(|xs|) <= MAX_DEPTH
  {
    hide Pow2, IsPow2, Aligned, Subtrees, Tree;
    PopCountBound(|xs|, MAX_DEPTH);
    if xs != [] {
      SubtreesLength(f, xs[..|xs| - s]);
      PopCountBound(|xs| - s, MAX_DEPTH);
    }
  }

  /** A subtree of |ys| chunks pushed as one value. */
  lemma PushOne(f: (Cv, Cv) -> Cv, xs: seq<Cv>, ys: seq<Cv>)
    requires IsPow2(|ys|) && Aligned(|xs|, |ys|)
    ensures StackHolds(f, Subtrees(f, xs) + [Tree(f, ys)], xs + ys, |ys|)
  {
    hide Aligned, Subtrees, Tree;
    assert (xs + ys)[..|xs|] == xs && (xs + ys)[|xs|..] == ys;
  }

  lemma HalvesStayUnmerged(c: nat, k: nat)
    requires IsPow2(k) && k >= 2 && Aligned(c, k)
    ensures k == 2 * (k / 2) && IsPow2(k / 2)
    ensures Aligned(c, k / 2) && Aligned(c + k / 2, k / 2) && !Aligned(c + k / 2, k)
  {
    var s := k / 2;
    AlignedWeaken(c, s);
    AlignedSelf(s);
    AlignedSum(c, s, s);
    AlignedSum(c, s, k);
    HalfNotAligned(s);
  }

  lemma {:induction false} HalfNotAligned(s: nat)
    requires IsPow2(s)
    ensures IsPow2(2 * s) && !Aligned(s, 2 * s)
  {
    assert (2 * s) / 2 == s;
    if s > 1 {
      HalfNotAligned(s / 2);
    }
  }

  lemma KiloPow2()
    ensures IsPow2(1024)
  {
  }

  /** The mask of a subtree, in bytes, tests whether its chunks divide the count. */
  lemma KiloMask(c: nat, k: nat)
    requires IsPow2(k)
    ensures k >= 1 && (And(1024 * k - 1, c * 1024) == 0 <==> Aligned(c, k))
  {
    AlignedKilo(c, k);
    hide IsPow2, Aligned, And;
    MaskTestsAlignment(1024 * k, c * 1024);
  }

  lemma HalfKilo(k: nat)
    ensures (1024 * k) % 1024 == 0 && (1024 * k) / 1024 == k && (1024 * k) / 2 == 512 * k
  {
  }

  lemma WholeChunksOf(len: nat, inputLen: nat) returns (k: nat)
    requires IsPow2(len) && len <= inputLen < 2 * len && 1024 < inputLen
    ensures 1024 <= len == 1024 * k && IsPow2(k)
  {
    KiloPow2();
    hide IsPow2;
    if len < 1024 {
      Pow2Gap(len, 1024);
      assert false;
    }
    k := Pow2Quotient(len, 1024);
  }

  /** Everything is a multiple of one, so a subtree that does not divide the count can be halved. */
  lemma HalfPow2(c: nat, k: nat)
    requires IsPow2(k) && !Aligned(c, k)
    ensures k == 2 * (k / 2) && IsPow2(k / 2)
  {
  }

  lemma ChunkLimit()
    ensures Pow2(64) == 1024 * Pow2(MAX_DEPTH)
  {
    Pow2Sum(10, MAX_DEPTH);
    assert Pow2(10) == 1024;
  }

  /** Rolls an output up through a stack of left siblings, from the top of the stack down. */
  function RollUp(m: Mode, stack: seq<Cv>, o: Output): Output {
    if stack == [] then o
    else
      var n := |stack| - 1;
      RollUp(m, stack[..n], ParentOutput(m, stack[n], ChainingValue(m.h, o)))
  }

  lemma RollUpStep(m: Mode, stack: seq<Cv>, o: Output)
    ensures stack == [] ==> RollUp(m, stack, o) == o
    ensures stack != [] ==>
      var n := |stack| - 1;
      RollUp(m, stack, o) == RollUp(m, stack[..n], ParentOutput(m, stack[n], ChainingValue(m.h, o)))
  {
    hide ChainingValue, ParentOutput;
  }

  lemma EmptyStack(m: Mode, stack: seq<Cv>, xs: seq<Cv>, s: nat)
    requires StackHolds(ParentCv(m), stack, xs, s)
    ensures |stack| == 0 <==> |xs| == 0
  {
    hide Subtrees, Tree, Aligned, IsPow2;
  }

  lemma {:induction false} RollUpFold(m: Mode, stack: seq<Cv>, o: Output)
    requires stack != []
    ensures RollUp(m, stack, o) ==
            ParentOutput(m, stack[0], Fold(ParentCv(m), stack[1..], ChainingValue(m.h, o)))
    decreases |stack|
  {
    hide ChainingValue, ParentOutput;
    var n := |stack| - 1;
    var o' := ParentOutput(m, stack[n], ChainingValue(m.h, o));
    if n == 0 {
      assert stack[..0] == [] && stack[1..] == [];
    } else {
      RollUpFold(m, stack[..n], o');
      assert stack[1..] == stack[..n][1..] + [stack[n]];
      FoldSnoc(ParentCv(m), stack[..n][1..], stack[n], ChainingValue(m.h, o));
      assert ParentCv(m)(stack[n], ChainingValue(m.h, o)) == ChainingValue(m.h, o');
    }
  }

  /** Rolling up over the full subtrees of xs reaches the root of the tree over xs and ys. */
  lemma RollUpIsRoot(m: Mode, xs: seq<Cv>, ys: seq<Cv>, s: nat, o: Output)
    requires IsPow2(s) && Aligned(|xs|, s) && 1 <= |ys| <= s
    requires ChainingValue(m.h, o) == Tree(ParentCv(m), ys)
    ensures xs == [] ==> RollUp(m, Subtrees(ParentCv(m), xs), o) == o
    ensures xs != [] ==>
      var (l, r) := Top(ParentCv(m), xs + ys);
      RollUp(m, Subtrees(ParentCv(m), xs), o) == ParentOutput(m, l, r)
  {
    hide IsPow2, Aligned, Tree, Top, ChainingValue, ParentOutput, ParentCv;
    if xs != [] {
      hide Subtrees;
      FoldIsTop(ParentCv(m), xs, ys, s);
      RollUpFold(m, Subtrees(ParentCv(m), xs), o);
    }
  }

  /** With a partial chunk at hand, everything on the stack is a left sibling on the path to the root. */
  lemma PartialChunkRoot(m: Mode, input: Bytes, c: nat, o: Output)
    requires 1024 * c < |input| <= 1024 * c + 1024
    requires o == ChunkOutput(m, input[1024 * c..], c)
    ensures RollUp(m, Subtrees(ParentCv(m), ChunkCvs(m, input[..1024 * c], 0)), o) == TreeOutput(m, input, 0)
  {
    hide Aligned, Tree, Top, ChainingValue, ParentOutput, ParentCv, ChunkOutput, ChunkCvs, RollUp, Subtrees, TreeOutput;
    var xs, ys := ChunkCvs(m, input[..1024 * c], 0), ChunkCvs(m, input[1024 * c..], c);
    ChunkCvsSplit(m, input, 0, c);
    ChunkCvsSingle(m, input[1024 * c..], c);
    OneTree(ParentCv(m), ys);
    AlignedByOne(|xs|);
    RollUpIsRoot(m, xs, ys, 1, o);
    if c == 0 {
      assert input[0..] == input;
      TreeOutputSmall(m, input, 0);
    } else {
      TreeIsLeftTree(m, input, 0);
    }
  }

  lemma AlignedByOne(c: nat)
    ensures IsPow2(1) && Aligned(c, 1)
  {
  }

  /** Without one, the two top entries are the children of the lowest node that is not compressed yet. */
  lemma UnmergedRoot(m: Mode, input: Bytes, stack: seq<Cv>, s: nat)
    requires |input| % 1024 == 0
    requires StackHolds(ParentCv(m), stack, ChunkCvs(m, input, 0), s) && CanMerge(|input| / 1024, s)
    ensures |stack| >= 2
    ensures RollUp(m, stack[..|stack| - 2], ParentOutput(m, stack[|stack| - 2], stack[|stack| - 1])) ==
            TreeOutput(m, input, 0)
  {
    hide Aligned, IsPow2, Tree, Top, ChainingValue, ParentOutput, ChunkCvs, RollUp, Subtrees, TreeOutput, Lazy;
    var f, all := ParentCv(m), ChunkCvs(m, input, 0);
    assert |all| == |input| / 1024;
    UnmergedTop(f, all, s);
    var c := |all| - 2 * s;
    var (a, b) := Top(f, all[c..]);
    assert stack[..|stack| - 2] == Subtrees(f, all[..c]);
    assert ChainingValue(m.h, ParentOutput(m, a, b)) == f(a, b);
    RollUpIsRoot(m, all[..c], all[c..], 2 * s, ParentOutput(m, a, b));
    assert all[..c] + all[c..] == all;
    TreeIsLeftTree(m, input, 0);
  }

  class Hasher {
    const platform: Platform
    const key: Cv
    const chunk: ChunkState
    const cvStack: array<Cv>
    var cvStackLen: nat

    /** Everything absorbed since the last reset, and how many chunks the top of the stack stands for. */
    ghost var input: Bytes
    ghost var delayed: nat

    ghost function M(): Mode
      reads this, chunk
    {
      chunk.M()
    }

    ghost predicate Shape()
      reads this, chunk, chunk.buf
    {
      && platform.Valid() && chunk.Valid() && chunk.key == key
      && cvStack.Length == MAX_DEPTH + 1 && cvStackLen <= MAX_DEPTH + 1
      && (chunk.buf as object) != cvStack
    }

    /** The stack stands for xs. */
    ghost predicate Holds(xs: seq<Cv>)
      reads this, chunk, cvStack
      requires cvStackLen <= cvStack.Length
    {
      StackHolds(ParentCv(M()), cvStack[..cvStackLen], xs, delayed)
    }

    ghost predicate Valid()
      reads this, chunk, chunk.buf, cvStack
    {
      && Shape()
      && |input| < Pow2(64)
      && 1024 * chunk.chunkCounter <= |input| && chunk.bytes == input[1024 * chunk.chunkCounter..]
      && Holds(ChunkCvs(M(), input[..1024 * chunk.chunkCounter], 0))
      && (chunk.bytes != [] ==>
            cvStack[..cvStackLen] == Subtrees(ParentCv(M()), ChunkCvs(M(), input[..1024 * chunk.chunkCounter], 0)))
      && (chunk.bytes == [] && chunk.chunkCounter > 0 ==>
            CanMerge(chunk.chunkCounter, delayed))
    }

    constructor (platform: Platform, h: Compression, key: Cv, flags: bv8)
      requires platform.Valid()
      ensures Valid() && fresh(chunk) && fresh(chunk.buf) && fresh(cvStack)
      ensures input == [] && M() == Mode(h, key, flags)
    {
      this.platform := platform;
      this.key := key;
      var state := new ChunkState(h, key, flags);
      chunk := state;
      cvStack := new Cv[MAX_DEPTH + 1](i => ZERO_CV);
      cvStackLen := 0;
      input := [];
      delayed := 0;
    }

    method Reset()
      requires Valid()
      modifies this, chunk, chunk.buf, cvStack
      ensures Valid() && input == [] && M() == old(M())
    {
      hide Pow2, Subtrees, ParentCv, Pad, BlocksCv, FullBlocks, StackHolds, CanMerge, ChunkOutput, IsPow2;
      chunk.Reset(key, 0);
      cvStackLen := 0;
      input := [];
      NothingHeld(M(), delayed);
    }

    /** Merges until as many entries are left as the number of chunks has 1-bits. */
    method MergeCvStack(totalLen: nat, ghost xs: seq<Cv>)
      requires Shape() && totalLen == |xs| && Holds(xs)
      modifies cvStack, `cvStackLen, `delayed
      ensures Shape() && Holds(xs)
      ensures cvStack[..cvStackLen] == Subtrees(ParentCv(M()), xs)
    {
      hide StackHolds, CanMerge, Subtrees, PopCount, ChainingValue, ParentOutput;
      ghost var f := ParentCv(M());
      var postMergeStackLen := PopCnt(totalLen);
      StackMerge(f, cvStack[..cvStackLen], xs, delayed);
      while cvStackLen > postMergeStackLen
        invariant Shape() && Holds(xs)
        invariant cvStackLen > postMergeStackLen <==> CanMerge(|xs|, delayed)
      {
        ghost var st := cvStack[..cvStackLen];
        StackMerge(f, st, xs, delayed);
        var output := ParentOutput(Mode(chunk.h, key, chunk.flags), cvStack[cvStackLen - 2], cvStack[cvStackLen - 1]);
        cvStack[cvStackLen - 2] := ChainingValue(chunk.h, output);
        cvStackLen := cvStackLen - 1;
        delayed := 2 * delayed;
        assert cvStack[..cvStackLen] == st[..|st| - 2] + [f(st[|st| - 2], st[|st| - 1])];
        StackMerge(f, cvStack[..cvStackLen], xs, delayed);
      }
      StackMerge(f, cvStack[..cvStackLen], xs, delayed);
    }

    /** Merges what is now known not to be the root, then adds newCv unmerged. */
    method PushCv(newCv: Cv, chunkCounter: nat, ghost xs: seq<Cv>)
      requires Shape() && chunkCounter == |xs| < Pow2(MAX_DEPTH) && Holds(xs)
      modifies cvStack, `cvStackLen, `delayed
      ensures Shape() && cvStack[..cvStackLen] == Subtrees(ParentCv(M()), xs) + [newCv]
    {
      hide StackHolds, Pow2, Subtrees, ParentCv, PopCount;
      MergeCvStack(chunkCounter, xs);
      StackLength(ParentCv(M()), cvStack[..cvStackLen], xs, delayed);
      SubtreesLength(ParentCv(M()), xs);
      cvStack[cvStackLen] := newCv;
      cvStackLen := cvStackLen + 1;
    }

    /** Hashes one whole chunk onto the stack. */
    method PushChunk(sub: Bytes, ghost xs: seq<Cv>)
      requires Shape() && Holds(xs) && chunk.chunkCounter == |xs| < Pow2(MAX_DEPTH) && |sub| == 1024
      modifies cvStack, `cvStackLen, `delayed
      ensures Shape() && Holds(xs + ChunkCvs(M(), sub, |xs|))
    {
      hide Pow2, Subtrees, ParentCv, ChunkCvs, ChunkOutput, StackHolds;
      var state := new ChunkState(chunk.h, key, chunk.flags);
      state.Advance(chunk.chunkCounter);
      state.Update(sub);
      assert state.bytes == sub && state.M() == M();
      var output := state.Finish();
      var cv := ChainingValue(chunk.h, output);
      PushCv(cv, state.chunkCounter, xs);
      ChunkCvsSingle(M(), sub, |xs|);
      PushOne(ParentCv(M()), xs, [cv]);
      delayed := 1;
    }

    /** Hashes a subtree of k >= 2 chunks, aligned to the chunks so far, onto the stack as two halves. */
    method PushHalves(sub: Bytes, ghost k: nat, ghost xs: seq<Cv>)
      requires Shape() && Holds(xs) && chunk.chunkCounter == |xs| && |xs| + k < Pow2(MAX_DEPTH)
      requires |sub| == 1024 * k && k >= 2 && IsPow2(k) && Aligned(|xs|, k)
      modifies cvStack, `cvStackLen, `delayed
      ensures Shape() && Holds(xs + ChunkCvs(M(), sub, |xs|))
      ensures CanMerge(|xs| + k, delayed)
    {
      hide Pow2, Subtrees, ParentCv, ChunkCvs, StackHolds, IsPow2, Aligned, Top, Tree;
      ghost var f, ys, half := ParentCv(M()), ChunkCvs(M(), sub, |xs|), k / 2;
      ChunkLimit();
      HalvesStayUnmerged(|xs|, k);
      TreeAt(f, ys, half);
      var subtreeChunks := |sub| / 1024;
      var left, right :=
        CompressSubtreeToParentNode(platform, Mode(chunk.h, key, chunk.flags), sub, chunk.chunkCounter);
      PushCv(left, chunk.chunkCounter, xs);
      PushOne(f, xs, ys[..half]);
      delayed := half;
      PushCv(right, chunk.chunkCounter + subtreeChunks / 2, xs + ys[..half]);
      PushOne(f, xs + ys[..half], ys[half..]);
      delayed := half;
      assert xs + ys[..half] + ys[half..] == xs + ys;
    }

    /** Between chunks, the stack stands for the chunks of all that have been counted. */
    ghost predicate Clear(all: Bytes)
      reads this, chunk, chunk.buf, cvStack
    {
      && Shape() && chunk.bytes == []
      && 1024 * chunk.chunkCounter <= |all| < Pow2(64)
      && Holds(ChunkCvs(M(), all[..1024 * chunk.chunkCounter], 0))
    }

    lemma NextChunks(m: Mode, all: Bytes, c: nat, k: nat)
      requires 1024 * (c + k) <= |all|
      ensures |ChunkCvs(m, all[..1024 * c], 0)| == c
      ensures ChunkCvs(m, all[..1024 * (c + k)], 0) ==
              ChunkCvs(m, all[..1024 * c], 0) + ChunkCvs(m, all[1024 * c..1024 * (c + k)], c)
    {
      hide ChunkCvs;
      var a := all[..1024 * (c + k)];
      ChunkCvsSplit(m, a, 0, c);
      assert a[..1024 * c] == all[..1024 * c] && a[1024 * c..] == all[1024 * c..1024 * (c + k)];
    }

    /** The current chunk is full and more input follows, so it is not the root. */
    method CloseChunk(ghost all: Bytes)
      requires Shape() && |chunk.bytes| == 1024
      requires 1024 * (chunk.chunkCounter + 1) <= |all| < Pow2(64)
      requires chunk.bytes == all[1024 * chunk.chunkCounter..1024 * (chunk.chunkCounter + 1)]
      requires Holds(ChunkCvs(M(), all[..1024 * chunk.chunkCounter], 0))
      modifies `cvStackLen, `delayed, chunk, chunk.buf, cvStack
      ensures Clear(all) && M() == old(M()) && chunk.chunkCounter == old(chunk.chunkCounter) + 1
    {
      hide Pow2, Subtrees, ParentCv, ChunkCvs, ChunkOutput, StackHolds;
      ghost var m, c := M(), chunk.chunkCounter;
      ghost var xs := ChunkCvs(m, all[..1024 * c], 0);
      NextChunks(m, all, c, 1);
      ChunkLimit();
      var output := chunk.Finish();
      var cv := ChainingValue(chunk.h, output);
      PushCv(cv, chunk.chunkCounter, xs);
      ChunkCvsSingle(m, chunk.bytes, c);
      PushOne(ParentCv(m), xs, [cv]);
      delayed := 1;
      chunk.Reset(key, chunk.chunkCounter + 1);
    }

    /** The largest power-of-two number of chunks that fits the input and divides the count so far. */
    method ChooseSubtreeLen(inputLen: nat) returns (subtreeLen: nat, ghost k: nat)
      requires 1024 < inputLen < Pow2(64)
      ensures 1024 <= subtreeLen <= inputLen && subtreeLen % 1024 == 0 && k == subtreeLen / 1024
      ensures IsPow2(k) && Aligned(chunk.chunkCounter, k)
      ensures 2 * subtreeLen <= inputLen ==> !Aligned(chunk.chunkCounter, 2 * k)
    {
      hide Pow2, IsPow2, Aligned, Floor2, And;
      ghost var c := chunk.chunkCounter;
      subtreeLen := RoundDownToPowerOf2(inputLen);
      var countSoFar := chunk.chunkCounter * 1024;
      k := WholeChunksOf(subtreeLen, inputLen);
      KiloMask(c, k);
      while And(subtreeLen - 1, countSoFar) != 0
        invariant 1024 <= subtreeLen == 1024 * k <= inputLen && IsPow2(k)
        invariant And(subtreeLen - 1, countSoFar) == 0 <==> Aligned(c, k)
        invariant 2 * subtreeLen <= inputLen ==> IsPow2(2 * k) && !Aligned(c, 2 * k)
        decreases k
      {
        HalfPow2(c, k);
        HalfKilo(k);
        subtreeLen := subtreeLen / 2;
        k := k / 2;
        KiloMask(c, k);
      }
      HalfKilo(k);
    }

    /** Hashes the whole input except at most its last chunk as large subtrees. */
    method HashSubtrees(input0: Bytes, ghost all: Bytes) returns (rest: Bytes)
      requires Clear(all) && input0 != [] && input0 == all[1024 * chunk.chunkCounter..]
      modifies `cvStackLen, `delayed, chunk, cvStack
      ensures Clear(all) && M() == old(M()) && |rest| <= 1024
      ensures rest == all[1024 * chunk.chunkCounter..]
      ensures rest == [] ==> CanMerge(chunk.chunkCounter, delayed)
    {
      hide Pow2, IsPow2, Aligned, ParentCv, ChunkCvs, StackHolds, CanMerge;
      rest := input0;
      ghost var m := M();
      while |rest| > 1024
        invariant Clear(all) && M() == m
        invariant rest == all[1024 * chunk.chunkCounter..]
        invariant rest == [] ==> CanMerge(chunk.chunkCounter, delayed)
        decreases |rest|
      {
        ghost var c := chunk.chunkCounter;
        var subtreeLen, k := ChooseSubtreeLen(|rest|);
        ghost var xs := ChunkCvs(m, all[..1024 * c], 0);
        NextChunks(m, all, c, k);
        ChunkLimit();
        Pow2Double(k);
        assert rest[..subtreeLen] == all[1024 * c..1024 * (c + k)];
        var subtreeChunks := subtreeLen / 1024;
        if subtreeLen <= 1024 {
          PushChunk(rest[..subtreeLen], xs);
        } else {
          PushHalves(rest[..subtreeLen], k, xs);
        }
        chunk.Advance(subtreeChunks);
        rest := rest[subtreeLen..];
      }
    }

    /** Tops the current chunk up, and closes it if more input follows. */
    method FillChunk(data: Bytes, ghost all: Bytes) returns (rest: Bytes)
      requires Valid() && chunk.bytes != [] && data != [] && all == input + data && |all| < Pow2(64)
      modifies this, chunk, chunk.buf, cvStack
      ensures M() == old(M())
      ensures rest == [] ==> Valid() && input == all
      ensures rest != [] ==> Clear(all) && rest == all[1024 * chunk.chunkCounter..]
    {
      hide Pow2, Subtrees, ParentCv, ChunkCvs, StackHolds, CanMerge, Pad, BlocksCv, FullBlocks;
      ghost var c := chunk.chunkCounter;
      assert all[..1024 * c] == input[..1024 * c];
      var take := 1024 - chunk.Len();
      if take > |data| {
        take := |data|;
      }
      chunk.Update(data[..take]);
      rest := data[take..];
      if |rest| == 0 {
        input := all;
      } else {
        assert chunk.bytes == all[1024 * c..1024 * (c + 1)];
        CloseChunk(all);
      }
    }

    /** Absorbs data. However the input is split into calls, only its concatenation matters. */
    method Update(data: Bytes)
      requires Valid() && |input| + |data| < Pow2(64)
      modifies this, chunk, chunk.buf, cvStack
      ensures Valid() && input == old(input) + data && M() == old(M())
    {
      hide Pow2, Subtrees, ParentCv, ChunkCvs, StackHolds, CanMerge, Pad, BlocksCv, FullBlocks;
      if |data| == 0 {
        assert input + data == input;
        return;
      }
      var rest := data;
      ghost var all := input + data;
      if chunk.Len() > 0 {
        rest := FillChunk(data, all);
        if |rest| == 0 {
          return;
        }
      } else {
        assert all[..1024 * chunk.chunkCounter] == input == input[..1024 * chunk.chunkCounter];
      }
      rest := HashSubtrees(rest, all);
      input := all;
      if |rest| > 0 {
        chunk.Update(rest);
        MergeCvStack(chunk.chunkCounter, ChunkCvs(M(), all[..1024 * chunk.chunkCounter], 0));
      }
    }

    /** The root of the tree over everything absorbed, not compressed yet. */
    method RootOutput() returns (output: Output)
      requires Valid()
      ensures output == TreeOutput(M(), input, 0)
    {
      hide Pow2, Subtrees, ParentCv, ChunkCvs, StackHolds, CanMerge, ChunkOutput, TreeOutput, RollUp, ChainingValue,
           ParentOutput, Pad, BlocksCv, FullBlocks;
      var mode := Mode(chunk.h, key, chunk.flags);
      ghost var c, stack := chunk.chunkCounter, cvStack[..cvStackLen];
      EmptyStack(mode, stack, ChunkCvs(mode, input[..1024 * c], 0), delayed);
      // One chunk at most: it is the whole tree.
      if cvStackLen == 0 {
        output := chunk.Finish();
        assert input[0..] == input;
        TreeOutputSmall(mode, input, 0);
        return;
      }
      var cvsRemaining;
      if chunk.Len() > 0 {
        cvsRemaining := cvStackLen;
        output := chunk.Finish();
        PartialChunkRoot(mode, input, c, output);
        assert stack[..cvsRemaining] == stack;
      } else {
        assert input[..1024 * c] == input;
        UnmergedRoot(mode, input, stack, delayed);
        cvsRemaining := cvStackLen - 2;
        output := ParentOutput(mode, cvStack[cvsRemaining], cvStack[cvsRemaining + 1]);
      }
      while cvsRemaining > 0
        invariant 0 <= cvsRemaining <= |stack|
        invariant RollUp(mode, stack[..cvsRemaining], output) == TreeOutput(mode, input, 0)
      {
        RollUpStep(mode, stack[..cvsRemaining], output);
        cvsRemaining := cvsRemaining - 1;
        assert stack[..cvsRemaining + 1][..cvsRemaining] == stack[..cvsRemaining];
        output := ParentOutput(mode, cvStack[cvsRemaining], ChainingValue(chunk.h, output));
      }
      RollUpStep(mode, stack[..cvsRemaining], output);
    }

    /** Writes the bytes of the extendable output from seek on; the hasher can absorb more afterwards. */
    method FinalizeSeek(seek: nat, out: array<Byte>)
      requires Valid() && out != chunk.buf && (out as object) != cvStack
      modifies out
      ensures Valid() && out[..] == Hash(M(), input, seek, out.Length)
    {
      hide Pow2, Subtrees, ParentCv, ChunkCvs, StackHolds, CanMerge, TreeOutput, RootBytes, Pad, BlocksCv, FullBlocks;
      if out.Length == 0 {
        return;
      }
      var output := RootOutput();
      OutputRootBytes(Mode(chunk.h, key, chunk.flags), output, seek, out);
    }

    method Finalize(out: array<Byte>)
      requires Valid() && out != chunk.buf && (out as object) != cvStack
      modifies out
      ensures Valid() && out[..] == Hash(M(), input, 0, out.Length)
    {
      FinalizeSeek(0, out);
    }
  }
}
