/** The leaves of a node's Merkle root: its writes and tombstones, merged in key order. */
module StateRoot {
  import opened Bytes
  import opened Collections
  import opened StateLayers
  import opened Bits
  import opened Blake3Hasher
  import opened CryptoHash
  import opened Blake3Spec
  import Merkle
  import Deltas = StateDelta

  // -------------------------------------------------------------------- order

  /** Lexicographic order of byte strings. */
  predicate Less(a: Bytes, b: Bytes) {
    b != [] && (a == [] || a[0] < b[0] || (a[0] == b[0] && Less(a[1..], b[1..])))
  }

  lemma {:induction false} LessTotal(a: Bytes, b: Bytes)
    ensures Less(a, b) || Less(b, a) || a == b
    ensures !(Less(a, b) && Less(b, a)) && !Less(a, a)
  {
    if a != [] && b != [] {
      LessTotal(a[1..], b[1..]);
      LessTotal(a[1..], a[1..]);
      assert a == [a[0]] + a[1..] && b == [b[0]] + b[1..];
    } else if a != [] {
      LessTotal(a[1..], a[1..]);
    }
  }

  lemma {:induction false} LessTransitive(a: Bytes, b: Bytes, c: Bytes)
    requires Less(a, b) && Less(b, c)
    ensures Less(a, c)
  {
    if a != [] && a[0] == b[0] == c[0] {
      LessTransitive(a[1..], b[1..], c[1..]);
    }
  }

  /** The strings agree up to some place, where the first one ends or has the smaller byte. */
  lemma {:induction false} LessIs(a: Bytes, b: Bytes)
    ensures Less(a, b) <==> exists i | 0 <= i <= |a| && i <= |b| ::
      a[..i] == b[..i] && (i == |a| < |b| || (i < |a| && i < |b| && a[i] < b[i]))
  {
    if Less(a, b) {
      var i := FirstDifference(a, b);
      assert a[..i] == b[..i];
    }
    if i: nat :| i <= |a| && i <= |b| && a[..i] == b[..i] && (i == |a| < |b| || (i < |a| && i < |b| && a[i] < b[i])) {
      DifferenceDecides(a, b, i);
    }
  }

  lemma {:induction false} FirstDifference(a: Bytes, b: Bytes) returns (i: nat)
    requires Less(a, b)
    ensures i <= |a| && i <= |b| && a[..i] == b[..i] && (i == |a| < |b| || (i < |a| && i < |b| && a[i] < b[i]))
  {
    if a == [] || a[0] < b[0] {
      i := 0;
    } else {
      var j := FirstDifference(a[1..], b[1..]);
      i := j + 1;
      assert a[..i] == [a[0]] + a[1..][..j] && b[..i] == [b[0]] + b[1..][..j];
    }
  }

  lemma {:induction false} DifferenceDecides(a: Bytes, b: Bytes, i: nat)
    requires i <= |a| && i <= |b| && a[..i] == b[..i] && (i == |a| < |b| || (i < |a| && i < |b| && a[i] < b[i]))
    ensures Less(a, b)
    decreases i
  {
    if i > 0 {
      assert a[0] == a[..i][0] == b[..i][0] == b[0];
      assert a[1..][..i - 1] == a[..i][1..] == b[..i][1..] == b[1..][..i - 1];
      DifferenceDecides(a[1..], b[1..], i - 1);
    }
  }

  // -------------------------------------------------------------------- items

  datatype Item = Removed(key: Key) | Written(key: Key)

  /** By key; the tombstone of a key that is also written comes first. */
  predicate Before(x: Item, y: Item) {
    Less(x.key, y.key) || (x.key == y.key && x.Removed? && y.Written?)
  }

  lemma BeforeOrder(x: Item, y: Item, z: Item)
    ensures Before(x, y) || Before(y, x) || x == y
    ensures !(Before(x, y) && Before(y, x)) && !Before(x, x)
    ensures Before(x, y) && Before(y, z) ==> Before(x, z)
  {
    hide Less;
    LessTotal(x.key, y.key);
    LessTotal(x.key, x.key);
    if Less(x.key, y.key) && Less(y.key, z.key) {
      LessTransitive(x.key, y.key, z.key);
    }
  }

  ghost predicate Sorted(xs: seq<Item>) {
    forall i, j | 0 <= i < j < |xs| :: Before(xs[i], xs[j])
  }

  ghost predicate Increasing(ks: seq<Key>) {
    forall i, j | 0 <= i < j < |ks| :: Less(ks[i], ks[j])
  }

  function ItemsOf(l: Layer): set<Item> {
    (set k | k in l.puts :: Written(k)) + (set k | k in l.removed :: Removed(k))
  }

  /** There is only one way to list a set in order. */
  lemma {:induction false} SortedUnique(xs: seq<Item>, ys: seq<Item>)
    requires Sorted(xs) && Sorted(ys) && Elements(xs) == Elements(ys)
    ensures xs == ys
    decreases |xs|
  {
    hide Before;
    if xs == [] {
      FirstElement(ys);
    } else {
      assert xs[0] in Elements(ys);
      assert ys[0] in Elements(xs);
      SmallestFirst(xs, ys);
      forall x
        ensures x in xs[1..] <==> x in ys[1..]
      {
        RestElements(xs, x);
        RestElements(ys, x);
        assert x in Elements(xs) <==> x in Elements(ys);
      }
      assert Elements(xs[1..]) == Elements(ys[1..]);
      SortedUnique(xs[1..], ys[1..]);
      assert xs == [xs[0]] + xs[1..] && ys == [ys[0]] + ys[1..];
    }
  }

  lemma FirstElement(xs: seq<Item>)
    ensures xs != [] ==> xs[0] in Elements(xs)
  {
  }

  lemma SmallestFirst(xs: seq<Item>, ys: seq<Item>)
    requires Sorted(xs) && Sorted(ys) && xs != [] && ys != [] && xs[0] in ys && ys[0] in xs
    ensures xs[0] == ys[0]
  {
    hide Before;
    var i :| 0 <= i < |ys| && ys[i] == xs[0];
    var j :| 0 <= j < |xs| && xs[j] == ys[0];
    BeforeOrder(xs[0], ys[0], xs[0]);
  }

  lemma RestElements(xs: seq<Item>, x: Item)
    requires Sorted(xs) && xs != []
    ensures x in xs[1..] <==> x in xs && x != xs[0]
  {
    hide Before;
    if x in xs[1..] {
      var i :| 0 <= i < |xs| - 1 && xs[1..][i] == x;
      BeforeOrder(xs[0], xs[i + 1], xs[0]);
    }
    if x in xs && x != xs[0] {
      var i :| 0 <= i < |xs| && xs[i] == x;
      assert xs[1..][i - 1] == x;
    }
  }

  // ------------------------------------------------------------------- leaves

  predicate ListedWrites(xs: seq<Item>, puts: State) {
    forall x | x in xs && x.Written? :: x.key in puts
  }

  /** What an item's second leaf holds. */
  function ValueLeaf(x: Item, puts: State): Bytes
    requires x.Written? ==> x.key in puts
  {
    if x.Written? then puts[x.key] else []
  }

  /** Two leaves for each item: its key, and its value, which is empty for a tombstone. */
  function LeavesOf(xs: seq<Item>, puts: State): seq<Bytes>
    requires ListedWrites(xs, puts)
  {
    if xs == [] then []
    else
      var n := |xs| - 1;
      LeavesOf(xs[..n], puts) + [xs[n].key, ValueLeaf(xs[n], puts)]
  }

  lemma {:induction false} LeavesLength(xs: seq<Item>, puts: State)
    requires ListedWrites(xs, puts)
    ensures |LeavesOf(xs, puts)| == 2 * |xs|
    decreases |xs|
  {
    if xs != [] {
      LeavesLength(xs[..|xs| - 1], puts);
    }
  }

  lemma {:induction false} LeafAt(xs: seq<Item>, puts: State, i: nat)
    requires ListedWrites(xs, puts) && i < |xs|
    ensures |LeavesOf(xs, puts)| == 2 * |xs|
    ensures LeavesOf(xs, puts)[2 * i] == xs[i].key && LeavesOf(xs, puts)[2 * i + 1] == ValueLeaf(xs[i], puts)
    decreases |xs|
  {
    var n := |xs| - 1;
    LeavesLength(xs[..n], puts);
    if i < n {
      LeafAt(xs[..n], puts, i);
    }
  }

  lemma {:induction false} SameLeaves(xs: seq<Item>, ps: State, ys: seq<Item>, qs: State)
    requires ListedWrites(xs, ps) && ListedWrites(ys, qs) && |xs| == |ys|
    requires forall i | 0 <= i < |xs| :: xs[i].key == ys[i].key && ValueLeaf(xs[i], ps) == ValueLeaf(ys[i], qs)
    ensures LeavesOf(xs, ps) == LeavesOf(ys, qs)
    decreases |xs|
  {
    if xs != [] {
      SameLeaves(xs[..|xs| - 1], ps, ys[..|xs| - 1], qs);
    }
  }

  ghost predicate Lists(xs: seq<Item>, l: Layer) {
    Sorted(xs) && Elements(xs) == ItemsOf(l)
  }

  lemma ListedKeys(xs: seq<Item>, l: Layer)
    requires Lists(xs, l)
    ensures ListedWrites(xs, l.puts)
    ensures forall k | k in l.puts :: Written(k) in xs
    ensures forall k | k in l.removed :: Removed(k) in xs
    ensures forall x | x in xs && x.Removed? :: x.key in l.removed
  {
    hide Sorted;
    assert forall x | x in xs :: x in Elements(xs);
    assert forall k | k in l.puts :: Written(k) in ItemsOf(l);
    assert forall k | k in l.removed :: Removed(k) in ItemsOf(l);
  }

  // ------------------------------------------------- the leaves of every layer

  predicate IsFirst(s: set<Item>, x: Item) {
    x in s && forall y | y in s :: y == x || Before(x, y)
  }

  /** A nonempty set of items has one first item. */
  lemma {:induction false} FirstExists(s: set<Item>)
    requires s != {}
    ensures exists x :: IsFirst(s, x)
    ensures forall x, y | IsFirst(s, x) && IsFirst(s, y) :: x == y
    decreases |s|
  {
    hide Before;
    forall x, y | IsFirst(s, x) && IsFirst(s, y)
      ensures x == y
    {
      BeforeOrder(x, y, x);
    }
    var z :| z in s;
    if s == {z} {
      assert IsFirst(s, z);
    } else {
      var rest := s - {z};
      assert rest != {};
      FirstExists(rest);
      var x :| IsFirst(rest, x);
      BeforeOrder(x, z, x);
      if Before(x, z) {
        assert IsFirst(s, x);
      } else {
        forall y | y in s
          ensures y == z || Before(z, y)
        {
          BeforeOrder(z, x, y);
        }
        assert IsFirst(s, z);
      }
    }
  }

  /** The items of a set, in order. */
  function Listing(s: set<Item>): (xs: seq<Item>)
    ensures Sorted(xs) && Elements(xs) == s
    decreases |s|
  {
    if s == {} then []
    else
      FirstExists(s);
      var x :| IsFirst(s, x);
      var rest := Listing(s - {x});
      FirstThenRest(s, x, rest);
      [x] + rest
  }

  lemma FirstThenRest(s: set<Item>, x: Item, rest: seq<Item>)
    requires IsFirst(s, x) && Sorted(rest) && Elements(rest) == s - {x}
    ensures Sorted([x] + rest) && Elements([x] + rest) == s
  {
    hide Before;
    forall j | 0 <= j < |rest|
      ensures Before(x, rest[j])
    {
      assert rest[j] in Elements(rest);
    }
    forall y
      ensures y in Elements([x] + rest) <==> y in s
    {
      assert y in Elements(rest) <==> y in rest;
    }
  }

  /** The leaves of a layer. */
  function Leaves(l: Layer): seq<Bytes> {
    ListedKeys(Listing(ItemsOf(l)), l);
    LeavesOf(Listing(ItemsOf(l)), l.puts)
  }

  /** Any ordered list of the layer's items gives its leaves. */
  lemma LeavesAre(xs: seq<Item>, l: Layer)
    requires Lists(xs, l)
    ensures ListedWrites(xs, l.puts) && LeavesOf(xs, l.puts) == Leaves(l)
  {
    hide Sorted, LeavesOf, Listing;
    ListedKeys(xs, l);
    SortedUnique(xs, Listing(ItemsOf(l)));
  }

  /** The leaves come in pairs: every written key with its value and every tombstone with nothing, and no more. */
  lemma LeavesListed(l: Layer)
    ensures |Leaves(l)| % 2 == 0
    ensures forall i | 0 <= i < |Leaves(l)| / 2 ::
      var k, v := Leaves(l)[2 * i], Leaves(l)[2 * i + 1];
      (k in l.puts && v == l.puts[k]) || (k in l.removed && v == [])
    ensures forall k | k in l.puts ::
      exists i | 0 <= i < |Leaves(l)| / 2 :: Leaves(l)[2 * i] == k && Leaves(l)[2 * i + 1] == l.puts[k]
    ensures forall k | k in l.removed ::
      exists i | 0 <= i < |Leaves(l)| / 2 :: Leaves(l)[2 * i] == k && Leaves(l)[2 * i + 1] == []
  {
    hide Sorted, Listing, LeavesOf;
    var xs := Listing(ItemsOf(l));
    ListedKeys(xs, l);
    LeavesLength(xs, l.puts);
    forall i | 0 <= i < |xs|
      ensures Leaves(l)[2 * i] == xs[i].key && Leaves(l)[2 * i + 1] == ValueLeaf(xs[i], l.puts) && xs[i] in xs
    {
      LeafAt(xs, l.puts, i);
    }
    forall k | k in l.puts
      ensures exists i | 0 <= i < |Leaves(l)| / 2 :: Leaves(l)[2 * i] == k && Leaves(l)[2 * i + 1] == l.puts[k]
    {
      var i :| 0 <= i < |xs| && xs[i] == Written(k);
      assert Leaves(l)[2 * i] == k && Leaves(l)[2 * i + 1] == l.puts[k];
    }
    forall k | k in l.removed
      ensures exists i | 0 <= i < |Leaves(l)| / 2 :: Leaves(l)[2 * i] == k && Leaves(l)[2 * i + 1] == []
    {
      var i :| 0 <= i < |xs| && xs[i] == Removed(k);
      assert Leaves(l)[2 * i] == k && Leaves(l)[2 * i + 1] == [];
    }
  }

  /** The keys ascend byte by byte; only a key that is both removed and written comes twice, its tombstone
      first. */
  lemma LeavesAscend(l: Layer, i: nat, j: nat)
    requires i < j && 2 * j + 1 < |Leaves(l)|
    ensures var a, b := Leaves(l)[2 * i], Leaves(l)[2 * j];
      || (exists d | 0 <= d <= |a| && d <= |b| ::
            a[..d] == b[..d] && (d == |a| < |b| || (d < |a| && d < |b| && a[d] < b[d])))
      || (a == b && a in l.removed && a in l.puts && Leaves(l)[2 * i + 1] == [] && Leaves(l)[2 * j + 1] == l.puts[a])
  {
    hide Less, Sorted, Listing, LeavesOf;
    var xs := Listing(ItemsOf(l));
    ListedKeys(xs, l);
    LeavesLength(xs, l.puts);
    LeafAt(xs, l.puts, i);
    LeafAt(xs, l.puts, j);
    LessIs(xs[i].key, xs[j].key);
    SortedAt(xs, i, j);
  }

  lemma SortedAt(xs: seq<Item>, i: nat, j: nat)
    requires Sorted(xs) && i < j < |xs|
    ensures Before(xs[i], xs[j])
  {
  }

  // ------------------------------------------------- what the leaves determine

  /** Keys written with an empty value and not removed: their leaves are those of a tombstone. */
  function Bare(l: Layer): set<Key> {
    set k | k in l.puts && l.puts[k] == [] && k !in l.removed
  }

  /** The layer with its bare writes taken for removals. */
  function Plain(l: Layer): Layer {
    Layer(l.puts - Bare(l), l.removed + Bare(l))
  }

  lemma PlainIsPlain(l: Layer)
    ensures Bare(Plain(l)) == {}
  {
  }

  function PlainItem(l: Layer, x: Item): Item {
    if x.Written? && x.key in Bare(l) then Removed(x.key) else x
  }

  function PlainItems(l: Layer, xs: seq<Item>): (ys: seq<Item>)
    ensures |ys| == |xs|
  {
    seq(|xs|, i requires 0 <= i < |xs| => PlainItem(l, xs[i]))
  }

  lemma PlainListed(l: Layer, xs: seq<Item>)
    requires Lists(xs, l)
    ensures Lists(PlainItems(l, xs), Plain(l))
  {
    ListedKeys(xs, l);
    PlainSorted(l, xs);
    hide Sorted, Less;
    var ys, p := PlainItems(l, xs), Plain(l);
    forall y
      ensures y in Elements(ys) <==> y in ItemsOf(p)
    {
      if y in Elements(ys) {
        var i :| 0 <= i < |ys| && ys[i] == y;
        assert xs[i] in xs;
      }
      if y in ItemsOf(p) {
        var x := if y.Removed? && y.key in Bare(l) then Written(y.key) else y;
        assert x in xs;
        var i :| 0 <= i < |xs| && xs[i] == x;
        assert ys[i] == y;
      }
    }
  }

  lemma PlainSorted(l: Layer, xs: seq<Item>)
    requires Lists(xs, l)
    ensures Sorted(PlainItems(l, xs))
  {
    hide Less;
    ListedKeys(xs, l);
    var ys := PlainItems(l, xs);
    forall i, j | 0 <= i < j < |ys|
      ensures Before(ys[i], ys[j])
    {
      assert Before(xs[i], xs[j]);
      assert xs[i] in xs && xs[j] in xs;
    }
  }

  /** Taking bare writes for removals keeps the leaves. */
  lemma PlainKeepsLeaves(l: Layer)
    ensures Leaves(Plain(l)) == Leaves(l)
  {
    hide Sorted, Listing, Leaves;
    var xs := Listing(ItemsOf(l));
    var ys := PlainItems(l, xs);
    PlainListed(l, xs);
    LeavesAre(xs, l);
    LeavesAre(ys, Plain(l));
    hide LeavesOf;
    SameLeaves(ys, Plain(l).puts, xs, l.puts);
  }

  /** Without bare writes an item is a write exactly if its value is not empty or a tombstone of
      the same key stands before it. */
  lemma KindOf(l: Layer, xs: seq<Item>, i: nat)
    requires Lists(xs, l) && Bare(l) == {} && ListedWrites(xs, l.puts) && i < |xs|
    ensures xs[i].Written? <==> ValueLeaf(xs[i], l.puts) != [] || exists j | 0 <= j < i :: xs[j].key == xs[i].key
  {
    ListedKeys(xs, l);
    hide Less;
    var k := xs[i].key;
    assert xs[i] in xs;
    if xs[i].Written? && l.puts[k] == [] {
      assert k in l.removed by {
        assert k !in Bare(l);
      }
      var j :| 0 <= j < |xs| && xs[j] == Removed(k);
      BeforeOrder(Removed(k), Written(k), Removed(k));
      assert j < i;
    }
    forall j | 0 <= j < i && xs[j].key == k
      ensures xs[i].Written?
    {
      LessTotal(k, k);
      assert Before(xs[j], xs[i]);
    }
  }

  lemma PlainLeavesTell(xs: seq<Item>, l: Layer, ys: seq<Item>, m: Layer)
    requires Lists(xs, l) && Lists(ys, m) && Bare(l) == Bare(m) == {}
    requires ListedWrites(xs, l.puts) && ListedWrites(ys, m.puts) && LeavesOf(xs, l.puts) == LeavesOf(ys, m.puts)
    ensures xs == ys && forall x | x in xs && x.Written? :: l.puts[x.key] == m.puts[x.key]
  {
    LeavesLength(xs, l.puts);
    LeavesLength(ys, m.puts);
    hide LeavesOf, Lists, Bare;
    forall i | 0 <= i < |xs|
      ensures xs[i].key == ys[i].key && ValueLeaf(xs[i], l.puts) == ValueLeaf(ys[i], m.puts)
    {
      LeafAt(xs, l.puts, i);
      LeafAt(ys, m.puts, i);
    }
    forall i | 0 <= i < |xs|
      ensures xs[i] == ys[i]
    {
      KindOf(l, xs, i);
      KindOf(m, ys, i);
      assert (exists j | 0 <= j < i :: xs[j].key == xs[i].key) <==> (exists j | 0 <= j < i :: ys[j].key == ys[i].key);
    }
  }

  lemma PlainDetermined(l: Layer, m: Layer)
    requires Bare(l) == Bare(m) == {} && Leaves(l) == Leaves(m)
    ensures l == m
  {
    hide Sorted, Listing, LeavesOf;
    var xs, ys := Listing(ItemsOf(l)), Listing(ItemsOf(m));
    LeavesAre(xs, l);
    LeavesAre(ys, m);
    hide Bare;
    PlainLeavesTell(xs, l, ys, m);
    ListedKeys(xs, l);
    ListedKeys(ys, m);
    assert forall k | k in l.puts :: Written(k) in xs;
    assert forall k | k in m.puts :: Written(k) in ys;
    assert forall k | k in l.removed :: Removed(k) in xs;
    assert forall k | k in m.removed :: Removed(k) in ys;
    assert l.puts == m.puts && l.removed == m.removed;
  }

  /** Two layers have the same leaves exactly if they differ only in which keys they remove and
      which they overwrite with nothing. */
  lemma LeavesTellPlain(l: Layer, m: Layer)
    ensures Leaves(l) == Leaves(m) <==> Plain(l) == Plain(m)
  {
    PlainIsPlain(l);
    PlainIsPlain(m);
    hide Leaves, Plain, Bare;
    PlainKeepsLeaves(l);
    PlainKeepsLeaves(m);
    if Leaves(l) == Leaves(m) {
      PlainDetermined(Plain(l), Plain(m));
    }
  }

  /** In particular, layers without bare writes are told apart by their leaves. */
  lemma LeavesTellLayer(l: Layer, m: Layer)
    requires Bare(l) == Bare(m) == {}
    ensures Leaves(l) == Leaves(m) <==> l == m
  {
    hide Leaves;
    LeavesTellPlain(l, m);
    assert l.puts - {} == l.puts && m.puts - {} == m.puts;
  }

  /** An empty value and a tombstone have the same leaves. */
  lemma EmptyValueLooksRemoved(k: Key)
    ensures Layer(map[k := []], {}) != Layer(map[], {k}) && Leaves(Layer(map[k := []], {})) == Leaves(Layer(map[], {k}))
  {
    hide Leaves;
    var l, m := Layer(map[k := []], {}), Layer(map[], {k});
    assert Bare(l) == {k} && Bare(m) == {};
    assert Plain(l) == m == Plain(m);
    LeavesTellPlain(l, m);
  }

  // -------------------------------------------------------------------- merge

  /** The first i writes and the first j tombstones are listed; all others come later. */
  ghost predicate Merged(xs: seq<Item>, ks: seq<Key>, rs: seq<Key>, i: nat, j: nat) {
    && i <= |ks| && j <= |rs| && Sorted(xs)
    && (forall x, p | x in xs && i <= p < |ks| :: Before(x, Written(ks[p])))
    && (forall x, q | x in xs && j <= q < |rs| :: Before(x, Removed(rs[q])))
    && (forall p | 0 <= p < i :: Written(ks[p]) in xs) && (forall q | 0 <= q < j :: Removed(rs[q]) in xs)
    && (forall x | x in xs :: if x.Written? then x.key in ks[..i] else x.key in rs[..j])
  }

  lemma TakeWritten(xs: seq<Item>, ks: seq<Key>, rs: seq<Key>, i: nat, j: nat)
    requires Merged(xs, ks, rs, i, j) && Increasing(ks) && Increasing(rs) && i < |ks|
    requires j == |rs| || Less(ks[i], rs[j])
    ensures Merged(xs + [Written(ks[i])], ks, rs, i + 1, j)
  {
    var x := Written(ks[i]);
    forall q | j <= q < |rs|
      ensures Before(x, Removed(rs[q]))
    {
      if q > j {
        LessTransitive(ks[i], rs[j], rs[q]);
      }
    }
    hide Less;
    assert ks[..i + 1] == ks[..i] + [ks[i]];
  }

  lemma TakeRemoved(xs: seq<Item>, ks: seq<Key>, rs: seq<Key>, i: nat, j: nat)
    requires Merged(xs, ks, rs, i, j) && Increasing(ks) && Increasing(rs) && j < |rs|
    requires i == |ks| || !Less(ks[i], rs[j])
    ensures Merged(xs + [Removed(rs[j])], ks, rs, i, j + 1)
  {
    var x := Removed(rs[j]);
    forall p | i <= p < |ks|
      ensures Before(x, Written(ks[p]))
    {
      LessTotal(ks[i], rs[j]);
      if p > i && Less(rs[j], ks[i]) {
        LessTransitive(rs[j], ks[i], ks[p]);
      }
    }
    hide Less;
    assert rs[..j + 1] == rs[..j] + [rs[j]];
  }

  lemma MergedAll(xs: seq<Item>, ks: seq<Key>, rs: seq<Key>, l: Layer)
    requires Merged(xs, ks, rs, |ks|, |rs|) && Elements(ks) == l.puts.Keys && Elements(rs) == l.removed
    ensures Lists(xs, l) && ListedWrites(xs, l.puts)
  {
    hide Sorted, Before;
    assert ks[..|ks|] == ks && rs[..|rs|] == rs;
    forall x
      ensures x in Elements(xs) <==> x in ItemsOf(l)
    {
      if x in ItemsOf(l) && x.Written? {
        assert x.key in Elements(ks);
        var p :| 0 <= p < |ks| && ks[p] == x.key;
      }
      if x in ItemsOf(l) && x.Removed? {
        assert x.key in Elements(rs);
        var q :| 0 <= q < |rs| && rs[q] == x.key;
      }
      assert x in xs && x.Written? ==> x.key in Elements(ks);
      assert x in xs && x.Removed? ==> x.key in Elements(rs);
    }
    assert forall x | x in xs && x.Written? :: x.key in Elements(ks);
  }

  lemma LeavesSnoc(xs: seq<Item>, x: Item, puts: State)
    requires ListedWrites(xs, puts) && (x.Written? ==> x.key in puts)
    ensures ListedWrites(xs + [x], puts)
    ensures LeavesOf(xs + [x], puts) == LeavesOf(xs, puts) + [x.key, ValueLeaf(x, puts)]
  {
    assert (xs + [x])[..|xs|] == xs;
  }

  /** One pass over the ordered writes and the ordered tombstones. */
  method MergeLeaves(puts: State, ks: seq<Key>, rs: seq<Key>) returns (leaves: seq<Bytes>)
    requires Increasing(ks) && Increasing(rs) && Elements(ks) == puts.Keys
    ensures leaves == Leaves(Layer(puts, Elements(rs)))
  {
    hide Increasing, Merged, Lists, ListedWrites, LeavesOf, Leaves, Less, Elements;
    leaves := [];
    ghost var xs: seq<Item> := [];
    var i, j := 0, 0;
    StartMerge(ks, rs, puts);
    KeysListed(ks, puts);
    while i < |ks| && j < |rs|
      invariant i <= |ks| && j <= |rs| && Merged(xs, ks, rs, i, j)
      invariant ListedWrites(xs, puts) && leaves == LeavesOf(xs, puts)
      decreases |ks| - i + |rs| - j
    {
      if Less(ks[i], rs[j]) {
        TakeWritten(xs, ks, rs, i, j);
        LeavesSnoc(xs, Written(ks[i]), puts);
        xs := xs + [Written(ks[i])];
        leaves := leaves + [ks[i], puts[ks[i]]];
        i := i + 1;
      } else {
        TakeRemoved(xs, ks, rs, i, j);
        LeavesSnoc(xs, Removed(rs[j]), puts);
        xs := xs + [Removed(rs[j])];
        leaves := leaves + [rs[j], []];
        j := j + 1;
      }
    }
    while i < |ks|
      invariant i <= |ks| && j <= |rs| && Merged(xs, ks, rs, i, j) && (i == |ks| || j == |rs|)
      invariant ListedWrites(xs, puts) && leaves == LeavesOf(xs, puts)
    {
      TakeWritten(xs, ks, rs, i, j);
      LeavesSnoc(xs, Written(ks[i]), puts);
      xs := xs + [Written(ks[i])];
      leaves := leaves + [ks[i], puts[ks[i]]];
      i := i + 1;
    }
    while j < |rs|
      invariant j <= |rs| && Merged(xs, ks, rs, |ks|, j)
      invariant ListedWrites(xs, puts) && leaves == LeavesOf(xs, puts)
    {
      TakeRemoved(xs, ks, rs, |ks|, j);
      LeavesSnoc(xs, Removed(rs[j]), puts);
      xs := xs + [Removed(rs[j])];
      leaves := leaves + [rs[j], []];
      j := j + 1;
    }
    MergedAll(xs, ks, rs, Layer(puts, Elements(rs)));
    LeavesAre(xs, Layer(puts, Elements(rs)));
  }

  lemma StartMerge(ks: seq<Key>, rs: seq<Key>, puts: State)
    ensures Merged([], ks, rs, 0, 0) && ListedWrites([], puts) && LeavesOf([], puts) == []
  {
  }

  lemma KeysListed(ks: seq<Key>, puts: State)
    requires Elements(ks) == puts.Keys
    ensures forall i | 0 <= i < |ks| :: ks[i] in puts
  {
    assert forall i | 0 <= i < |ks| :: ks[i] in Elements(ks);
  }

  lemma {:induction false} SortedSize(xs: seq<Item>)
    requires Sorted(xs)
    ensures |Elements(xs)| == |xs|
    decreases |xs|
  {
    hide Before;
    if xs != [] {
      SortedSize(xs[1..]);
      assert Elements(xs) == {xs[0]} + Elements(xs[1..]);
      RestElements(xs, xs[0]);
    }
  }

  /** Once its writes are drained, a node's leaves are no longer what they were, unless it wrote nothing. */
  lemma DrainedLeaves(l: Layer)
    ensures Leaves(Layer(map[], l.removed)) == Leaves(l) <==> l.puts == map[]
  {
    hide Sorted, LeavesOf, Listing;
    var m := Layer(map[], l.removed);
    if l.puts != map[] {
      var xs, ys := Listing(ItemsOf(l)), Listing(ItemsOf(m));
      LeavesAre(xs, l);
      LeavesAre(ys, m);
      SortedSize(xs);
      SortedSize(ys);
      LeavesLength(xs, l.puts);
      LeavesLength(ys, map[]);
      var k :| k in l.puts;
      assert ItemsOf(m) + {Written(k)} <= ItemsOf(l) && Written(k) !in ItemsOf(m);
      SmallerSet(ItemsOf(m) + {Written(k)}, ItemsOf(l));
    }
  }

  lemma {:induction false} SmallerSet(a: set<Item>, b: set<Item>)
    requires a <= b
    ensures |a| <= |b|
    decreases |a|
  {
    if a != {} {
      var x :| x in a;
      SmallerSet(a - {x}, b - {x});
    }
  }

  /** The Merkle root of a layer. */
  function RootOf(m: Mode): Layer -> Bytes {
    l => Merkle.Root(m, false, Merkle.AllData(Leaves(l)))
  }

  /** The root of a final node: the Merkle root over its leaves in order. */
  method LayerRoot(hasher: Hasher, puts: State, ks: seq<Key>, rs: seq<Key>) returns (root: Digest)
    requires hasher.Valid() && Increasing(ks) && Increasing(rs) && Elements(ks) == puts.Keys
    requires forall k | k in puts :: |k| < Pow2(64) && |puts[k]| < Pow2(64)
    requires forall r | r in rs :: |r| < Pow2(64)
    modifies hasher, hasher.chunk, hasher.chunk.buf, hasher.cvStack
    ensures hasher.Valid() && hasher.M() == old(hasher.M())
    ensures root == RootOf(hasher.M())(Layer(puts, Elements(rs)))
    ensures root == Merkle.Root(hasher.M(), false, Merkle.AllData(Leaves(Layer(puts, Elements(rs)))))
  {
    ShortLeaves(Layer(puts, Elements(rs)), Pow2(64));
    hide Pow2, Hasher.Valid, Leaves, Increasing, Merkle.Root;
    var leaves := MergeLeaves(puts, ks, rs);
    root := Merkle.MerkleRoot(hasher, false, Merkle.AllData(leaves));
  }

  lemma ShortLeaves(l: Layer, n: nat)
    requires n > 0 && (forall k | k in l.puts :: |k| < n && |l.puts[k]| < n) && forall r | r in l.removed :: |r| < n
    ensures forall v | v in Leaves(l) :: |v| < n
  {
    hide Sorted, Listing, LeavesOf;
    var xs := Listing(ItemsOf(l));
    LeavesAre(xs, l);
    ListedKeys(xs, l);
    ShortBytes(xs, l.puts, n);
  }

  lemma {:induction false} ShortBytes(xs: seq<Item>, puts: State, n: nat)
    requires ListedWrites(xs, puts) && n > 0
    requires forall x | x in xs :: |x.key| < n && (x.Written? ==> |puts[x.key]| < n)
    ensures forall v | v in LeavesOf(xs, puts) :: |v| < n
    decreases |xs|
  {
    if xs != [] {
      ShortBytes(xs[..|xs| - 1], puts, n);
    }
  }

  // ------------------------------------------------------------------- commit

  /** The leaves of the layer and those of its tombstones alone do not collide. */
  predicate Distinguished(m: Mode, l: Layer) {
    RootOf(m)(Layer(map[], l.removed)) == RootOf(m)(l) ==> Leaves(Layer(map[], l.removed)) == Leaves(l)
  }

  /** The root that a commit leaves behind is the node's own exactly if it was asked for before or
      the node wrote nothing. */
  lemma StoredRoot(m: Mode, cached: Option<Bytes>, l: Layer)
    requires cached.Some? ==> cached.value == RootOf(m)(l)
    requires Distinguished(m, l)
    ensures Deltas.CachedOr(cached, RootOf(m)(Layer(map[], l.removed))) == RootOf(m)(l) <==>
            cached.Some? || l.puts == map[]
  {
    hide Leaves, Merkle.Root;
    DrainedLeaves(l);
    assert l.puts == map[] ==> Layer(map[], l.removed) == l;
  }

  /** Committing a node with the Merkle root of its layer. */
  method CommitNode(m: Mode, node: Deltas.StateDelta, ghost chain: seq<Deltas.StateDelta>)
      returns (outcome: Deltas.Outcome)
    requires Deltas.StateDelta.Linked(chain) && chain[0] == node
    requires node.CachesOwn(RootOf(m))
    modifies chain, Deltas.StateDelta.Backends(chain)
    ensures outcome.Ok? <==> |chain| > 1 && old(node.final)
    ensures outcome.Ok? ==> node.IsRoot() && node.backend != null
    ensures outcome.Ok? ==>
      var l := old(Deltas.StateDelta.LayerOf(node));
      Distinguished(m, l) ==>
      (node.backend.merkleRoot == RootOf(m)(l) <==> old(node.cachedRoot).Some? || l.puts == map[])
  {
    ghost var cached, l := node.cachedRoot, Deltas.StateDelta.LayerOf(node);
    hide Leaves, RootOf;
    if Distinguished(m, l) {
      StoredRoot(m, cached, l);
    }
    outcome := node.Commit(RootOf(m), chain);
  }
}
