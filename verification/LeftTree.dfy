/** Left-balanced binary trees over a sequence, for any combining function: the left
    subtree of n >= 2 leaves holds the largest power of two of them below n. Both the
    hasher and the Merkle root compute such trees by faster routes, and the lemmas
    here say why those routes agree with the recursive definition. */
module LeftTree {
  import opened Bits

  /** The value of the tree over xs. */
  function Tree<T>(f: (T, T) -> T, xs: seq<T>): T
    requires |xs| >= 1
    decreases |xs|
  {
    if |xs| == 1 then xs[0]
    else
      var p := Floor2(|xs| - 1);
      f(Tree(f, xs[..p]), Tree(f, xs[p..]))
  }

  /** The values of the two subtrees right below the top of the tree over xs. */
  function Top<T>(f: (T, T) -> T, xs: seq<T>): (T, T)
    requires |xs| >= 2
  {
    var p := Floor2(|xs| - 1);
    (Tree(f, xs[..p]), Tree(f, xs[p..]))
  }

  /** One level of pairing: neighbours are combined, an odd last one is promoted. */
  function Pair<T>(f: (T, T) -> T, xs: seq<T>): (ys: seq<T>)
    ensures |ys| == (|xs| + 1) / 2
  {
    seq((|xs| + 1) / 2, i requires 0 <= i < (|xs| + 1) / 2 =>
      if 2 * i + 1 < |xs| then f(xs[2 * i], xs[2 * i + 1]) else xs[2 * i])
  }

  lemma PairAt<T>(f: (T, T) -> T, xs: seq<T>, i: nat)
    requires 2 * i < |xs|
    ensures Pair(f, xs)[i] == if 2 * i + 1 < |xs| then f(xs[2 * i], xs[2 * i + 1]) else xs[2 * i]
  {
  }

  /** The values of the full subtrees that the binary digits of |xs| cut xs into, largest first. */
  function Subtrees<T>(f: (T, T) -> T, xs: seq<T>): seq<T>
    decreases |xs|
  {
    if xs == [] then []
    else
      var p := Floor2(|xs|);
      [Tree(f, xs[..p])] + Subtrees(f, xs[p..])
  }

  /** Combines a stack of values with r, starting from the top (right) end. */
  function Fold<T>(f: (T, T) -> T, stack: seq<T>, r: T): T {
    if stack == [] then r else f(stack[0], Fold(f, stack[1..], r))
  }

  // ------------------------------------------------------------------ pairing

  lemma PairSplit<T>(f: (T, T) -> T, xs: seq<T>, k: nat)
    requires 2 * k <= |xs|
    ensures Pair(f, xs)[..k] == Pair(f, xs[..2 * k])
    ensures Pair(f, xs)[k..] == Pair(f, xs[2 * k..])
  {
  }

  /** Pairing a level does not change the tree, nor its top pair while more than two values are left. */
  lemma {:induction false} PairKeepsTree<T>(f: (T, T) -> T, xs: seq<T>)
    requires |xs| >= 1
    ensures Tree(f, Pair(f, xs)) == Tree(f, xs)
    ensures |xs| >= 3 ==> Top(f, Pair(f, xs)) == Top(f, xs)
    decreases |xs|
  {
    hide Tree, Top, Pair, IsPow2, Floor2;
    if |xs| < 3 {
      PairFew(f, xs);
    } else {
      var p := PairCut(|xs|);
      var ys := Pair(f, xs);
      PairSplit(f, xs, p / 2);
      PairKeepsTree(f, xs[..p]);
      PairKeepsTree(f, xs[p..]);
      TreeAt(f, ys, p / 2);
      TreeAt(f, xs, p);
    }
  }

  lemma PairFew<T>(f: (T, T) -> T, xs: seq<T>)
    requires 1 <= |xs| <= 2
    ensures Tree(f, Pair(f, xs)) == Tree(f, xs)
  {
    OneTree(f, Pair(f, xs));
    if |xs| == 1 {
      OneTree(f, xs);
    } else {
      TopOfTwo(f, xs);
      TreeOfTop(f, xs);
    }
  }

  /** Half the cut of n values is the cut of their pairs. */
  lemma PairCut(n: nat) returns (p: nat)
    requires n >= 3
    ensures IsPow2(p) && p < n <= 2 * p
    ensures IsPow2(p / 2) && p == 2 * (p / 2) && p / 2 < (n + 1) / 2 <= p
  {
    p := Floor2(n - 1);
  }

  lemma OneTree<T>(f: (T, T) -> T, xs: seq<T>)
    requires |xs| == 1
    ensures Tree(f, xs) == xs[0]
  {
  }

  lemma TreeOfTop<T>(f: (T, T) -> T, xs: seq<T>)
    requires |xs| >= 2
    ensures Tree(f, xs) == f(Top(f, xs).0, Top(f, xs).1)
  {
    hide Floor2;
  }

  lemma TreeAt<T>(f: (T, T) -> T, xs: seq<T>, p: nat)
    requires IsPow2(p) && p < |xs| <= 2 * p
    ensures Top(f, xs) == (Tree(f, xs[..p]), Tree(f, xs[p..]))
    ensures Tree(f, xs) == f(Tree(f, xs[..p]), Tree(f, xs[p..]))
  {
    hide IsPow2, Floor2, Tree;
    Floor2Is(p, |xs| - 1);
    TreeOfTop(f, xs);
  }

  /** Two sequences whose lengths fit together become the two top subtrees of their concatenation. */
  lemma TopOfConcat<T>(f: (T, T) -> T, xs: seq<T>, ys: seq<T>)
    requires IsPow2(|xs|) && 1 <= |ys| <= |xs|
    ensures Top(f, xs + ys) == (Tree(f, xs), Tree(f, ys))
    ensures Tree(f, xs + ys) == f(Tree(f, xs), Tree(f, ys))
  {
    var zs := xs + ys;
    TreeAt(f, zs, |xs|);
    assert zs[..|xs|] == xs;
    assert zs[|xs|..] == ys;
  }

  lemma TopOfTwo<T>(f: (T, T) -> T, xs: seq<T>)
    requires |xs| == 2
    ensures Top(f, xs) == (xs[0], xs[1])
  {
  }

  // -------------------------------------------------------------------- stack

  lemma {:induction false} SubtreesLength<T>(f: (T, T) -> T, xs: seq<T>)
    ensures |Subtrees(f, xs)| == PopCount(|xs|)
    decreases |xs|
  {
    if xs != [] {
      SubtreesLength(f, xs[Floor2(|xs|)..]);
      PopCountFloor(|xs|);
    }
  }

  /** A full subtree of s values after a multiple of 2s values is one more digit. */
  lemma {:induction false} SubtreesAppend<T>(f: (T, T) -> T, xs: seq<T>, ys: seq<T>)
    requires IsPow2(|ys|) && Aligned(|xs|, 2 * |ys|)
    ensures Subtrees(f, xs + ys) == Subtrees(f, xs) + [Tree(f, ys)]
    decreases |xs|
  {
    hide Aligned, Floor2, Tree;
    var s := |ys|;
    if xs == [] {
      Floor2Is(s, s);
      assert xs + ys == ys && ys[..s] == ys && ys[s..] == [];
    } else {
      var p := Floor2(|xs|);
      AlignedFloor(|xs|, 2 * s);
      AlignedRoom(|xs|, 2 * s, 2 * p);
      Floor2Is(p, |xs| + s);
      assert (xs + ys)[..p] == xs[..p];
      assert (xs + ys)[p..] == xs[p..] + ys;
      SubtreesAppend(f, xs[p..], ys);
    }
  }

  /** Rolling a stack of full subtrees up into the tree on its right gives the whole tree. */
  lemma {:induction false} FoldIsTree<T>(f: (T, T) -> T, xs: seq<T>, ys: seq<T>, s: nat)
    requires IsPow2(s) && Aligned(|xs|, s) && 1 <= |ys| <= s
    ensures Tree(f, xs + ys) == Fold(f, Subtrees(f, xs), Tree(f, ys))
    decreases |xs|
  {
    hide IsPow2, Aligned, Floor2, Tree;
    if xs == [] {
      assert xs + ys == ys;
    } else {
      var p := Floor2(|xs|);
      AlignedFloor(|xs|, s);
      AlignedRoom(|xs|, s, 2 * p);
      var l, r := xs[..p], xs[p..] + ys;
      assert xs + ys == l + r;
      TopOfConcat(f, l, r);
      FoldIsTree(f, xs[p..], ys, s);
    }
  }

  lemma SubtreesFirst<T>(f: (T, T) -> T, xs: seq<T>)
    requires xs != []
    ensures var p := Floor2(|xs|);
            |Subtrees(f, xs)| >= 1 && Subtrees(f, xs)[0] == Tree(f, xs[..p]) &&
            Subtrees(f, xs)[1..] == Subtrees(f, xs[p..])
  {
    hide Floor2, Tree;
  }

  /** The same, one level below the root: the bottom of the stack is the left child of the root. */
  lemma FoldIsTop<T>(f: (T, T) -> T, xs: seq<T>, ys: seq<T>, s: nat)
    requires IsPow2(s) && Aligned(|xs|, s) && 1 <= |ys| <= s && xs != []
    ensures |Subtrees(f, xs)| >= 1
    ensures Top(f, xs + ys) == (Subtrees(f, xs)[0], Fold(f, Subtrees(f, xs)[1..], Tree(f, ys)))
  {
    hide IsPow2, Aligned, Floor2, Tree, Top, Fold, Subtrees;
    var p := Floor2(|xs|);
    SubtreesFirst(f, xs);
    Pow2Double(p);
    AlignedFloor(|xs|, s);
    AlignedRoom(|xs|, s, 2 * p);
    var l, r := xs[..p], xs[p..] + ys;
    assert xs + ys == l + r;
    TopOfConcat(f, l, r);
    FoldIsTree(f, xs[p..], ys, s);
  }

  lemma {:induction false} FoldSnoc<T>(f: (T, T) -> T, stack: seq<T>, x: T, r: T)
    ensures Fold(f, stack + [x], r) == Fold(f, stack, f(x, r))
  {
    if stack == [] {
      assert stack + [x] == [x];
    } else {
      assert (stack + [x])[1..] == stack[1..] + [x];
      FoldSnoc(f, stack[1..], x, r);
    }
  }

  /** The stack while merging is delayed: the full subtrees before the last s values, then those s as one. */
  function Lazy<T>(f: (T, T) -> T, xs: seq<T>, s: nat): seq<T>
    requires 1 <= s <= |xs|
  {
    Subtrees(f, xs[..|xs| - s]) + [Tree(f, xs[|xs| - s..])]
  }

  /** When the delayed subtree completes an equal neighbour, the two top entries are the top pair of the last
      2s values. */
  lemma UnmergedTop<T>(f: (T, T) -> T, xs: seq<T>, s: nat)
    requires 1 <= s <= |xs| && IsPow2(s)
    requires Aligned(|xs| - s, s) && !Aligned(|xs| - s, 2 * s)
    ensures 2 * s <= |xs| && IsPow2(2 * s) && Aligned(|xs| - 2 * s, 2 * s)
    ensures var (a, b) := Top(f, xs[|xs| - 2 * s..]);
            Lazy(f, xs, s) == Subtrees(f, xs[..|xs| - 2 * s]) + [a, b] && Tree(f, xs[|xs| - 2 * s..]) == f(a, b)
  {
    hide IsPow2, Aligned, Tree, Top, Subtrees;
    Pow2Double(s);
    AlignedNext(|xs| - s, s);
    var c := |xs| - 2 * s;
    var x, a, b := xs[..c], xs[c..c + s], xs[c + s..];
    assert xs[..c] + xs[c..c + s] == xs[..c + s];
    assert xs == x + a + b;
    CutThree(xs, x, a, b);
    SubtreesAppend(f, x, a);
    TopOfConcat(f, a, b);
  }

  lemma CutThree<T>(xs: seq<T>, x: seq<T>, a: seq<T>, b: seq<T>)
    requires xs == x + a + b
    ensures xs[..|x| + |a|] == x + a && xs[|x|..] == a + b && xs[..|x|] == x && xs[|x| + |a|..] == b
  {
  }

  /** Combining them delays 2s values instead of s. */
  lemma MergeStep<T>(f: (T, T) -> T, xs: seq<T>, s: nat)
    requires 1 <= s <= |xs| && IsPow2(s)
    requires Aligned(|xs| - s, s) && !Aligned(|xs| - s, 2 * s)
    ensures 2 * s <= |xs| && IsPow2(2 * s) && Aligned(|xs| - 2 * s, 2 * s)
    ensures |Lazy(f, xs, s)| >= 2
    ensures var st := Lazy(f, xs, s);
            Lazy(f, xs, 2 * s) == st[..|st| - 2] + [f(st[|st| - 2], st[|st| - 1])]
  {
    hide IsPow2, Aligned, Tree, Top, Subtrees;
    UnmergedTop(f, xs, s);
    var rest := Subtrees(f, xs[..|xs| - 2 * s]);
    assert Lazy(f, xs, s)[..|rest|] == rest;
  }

  /** When it does not, nothing is delayed. */
  lemma MergeDone<T>(f: (T, T) -> T, xs: seq<T>, s: nat)
    requires 1 <= s <= |xs| && IsPow2(s) && Aligned(|xs| - s, 2 * s)
    ensures Lazy(f, xs, s) == Subtrees(f, xs)
  {
    hide IsPow2, Aligned, Tree, Subtrees;
    var c := |xs| - s;
    assert xs == xs[..c] + xs[c..];
    SubtreesAppend(f, xs[..c], xs[c..]);
  }

  /** The population count of the number of values tells whether anything is delayed. */
  lemma MergeTest<T>(f: (T, T) -> T, xs: seq<T>, s: nat)
    requires 1 <= s <= |xs| && IsPow2(s) && Aligned(|xs| - s, s)
    ensures |Lazy(f, xs, s)| > PopCount(|xs|) <==> !Aligned(|xs| - s, 2 * s)
  {
    hide IsPow2, Aligned, Tree, Subtrees, PopCount;
    SubtreesLength(f, xs[..|xs| - s]);
    PopCountAdd(|xs| - s, s);
  }
}
