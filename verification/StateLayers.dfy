/** The key/value view of a chain of overlay layers, each a set of writes above a set
    of tombstones. A key may be in both; the write wins. */
module StateLayers {
  import opened Bytes

  type Key = Bytes
  type Value = Bytes
  type State = map<Key, Value>
  type NodeId = Bytes

  /** The id that stands for no id. */
  function NullId(): (id: NodeId)
    ensures |id| == 32 && forall i | 0 <= i < 32 :: id[i] == 0
  {
    seq(32, i => 0)
  }

  datatype Option<T> = None | Some(value: T)

  datatype Layer = Layer(puts: State, removed: set<Key>)

  function Lookup(s: State, k: Key): Option<Value> {
    if k in s then Some(s[k]) else None
  }

  /** A layer seen on top of a state. */
  function Apply(s: State, l: Layer): State {
    (s - l.removed) + l.puts
  }

  /** The view from the first layer down to the last one, the root, whose tombstones mean nothing. */
  function View(layers: seq<Layer>): State
    requires |layers| >= 1
  {
    if |layers| == 1 then layers[0].puts else Apply(View(layers[1..]), layers[0])
  }

  lemma ViewStep(layers: seq<Layer>, i: nat)
    requires i < |layers|
    ensures i == |layers| - 1 ==> View(layers[i..]) == layers[i].puts
    ensures i < |layers| - 1 ==> View(layers[i..]) == Apply(View(layers[i + 1..]), layers[i])
  {
    hide Apply;
    assert i < |layers| - 1 ==> layers[i..][1..] == layers[i + 1..];
  }

  /** The nearest layer that names a key decides: its write shows, else its tombstone hides. A key that no
      layer names is absent, and so is one that only the root has removed. */
  lemma {:induction false} NearestDecides(layers: seq<Layer>, i: nat, k: Key)
    requires i < |layers| && forall j | 0 <= j < i :: k !in layers[j].puts && k !in layers[j].removed
    ensures k in layers[i].puts ==> Lookup(View(layers), k) == Some(layers[i].puts[k])
    ensures k !in layers[i].puts && (k in layers[i].removed || i == |layers| - 1) ==> Lookup(View(layers), k) == None
    decreases i
  {
    if i > 0 {
      NearestDecides(layers[1..], i - 1, k);
    }
  }

  lemma PutApply(s: State, l: Layer, k: Key, v: Value)
    ensures Apply(s, l.(puts := l.puts[k := v])) == Apply(s, l)[k := v]
  {
  }

  /** A tombstone is only needed for what is written here or visible below. */
  lemma RemoveApply(s: State, l: Layer, k: Key)
    ensures k in l.puts || k in s ==> Apply(s, Layer(l.puts - {k}, l.removed + {k})) == Apply(s, l) - {k}
    ensures !(k in l.puts || k in s) ==> Apply(s, l.(puts := l.puts - {k})) == Apply(s, l) - {k}
  {
  }

  /** What squashing leaves in the parent layer; a root keeps no new tombstones. */
  function Squashed(parent: Layer, child: Layer, parentIsRoot: bool): Layer {
    Layer((parent.puts - child.removed) + child.puts,
          if parentIsRoot then parent.removed else (parent.removed + child.removed) - child.puts.Keys)
  }

  lemma SquashApply(base: State, parent: Layer, child: Layer)
    ensures Apply(base, Squashed(parent, child, false)) == Apply(Apply(base, parent), child)
  {
    var l, r := Apply(base, Squashed(parent, child, false)), Apply(Apply(base, parent), child);
    forall k
      ensures Lookup(l, k) == Lookup(r, k)
    {
    }
    LookupExtensional(l, r);
  }

  lemma SquashIntoRoot(parent: Layer, child: Layer)
    ensures Squashed(parent, child, true).puts == Apply(parent.puts, child)
  {
  }

  lemma LookupExtensional(a: State, b: State)
    requires forall k :: Lookup(a, k) == Lookup(b, k)
    ensures a == b
  {
    assert forall k :: k in a <==> Lookup(a, k).Some?;
    assert forall k :: k in b <==> Lookup(b, k).Some?;
    forall k | k in a
      ensures k in b && a[k] == b[k]
    {
      assert Lookup(a, k) == Lookup(b, k);
    }
  }

  /** The parent then shows what the child showed. */
  lemma SquashKeepsView(child: Layer, below: seq<Layer>)
    requires |below| >= 1
    ensures View([Squashed(below[0], child, |below| == 1)] + below[1..]) == View([child] + below)
  {
    hide Apply, Squashed;
    var merged := [Squashed(below[0], child, |below| == 1)] + below[1..];
    assert ([child] + below)[1..] == below;
    if |below| > 1 {
      assert merged[1..] == below[1..];
      SquashApply(View(below[1..]), below[0], child);
    } else {
      SquashIntoRoot(below[0], child);
    }
  }

  /** Any part of a chain down to the root can be replaced by a root that holds its view. */
  lemma {:induction false} CollapseKeepsView(above: seq<Layer>, below: seq<Layer>)
    requires |below| >= 1
    ensures View(above + [Layer(View(below), {})]) == View(above + below)
  {
    if above == [] {
      assert above + below == below;
      assert above + [Layer(View(below), {})] == [Layer(View(below), {})];
    } else {
      CollapseKeepsView(above[1..], below);
      assert (above + below)[1..] == above[1..] + below;
      assert (above + [Layer(View(below), {})])[1..] == above[1..] + [Layer(View(below), {})];
    }
  }

  /** One step of moving the entries of e, of which those at keys are still to be moved, on top of d. */
  lemma DrainStep(d: State, e: State, keys: set<Key>, k: Key)
    requires keys <= e.Keys && k in keys
    ensures (d + (e - keys))[k := e[k]] == d + (e - (keys - {k}))
  {
  }

  /** A fresh, empty layer changes nothing. */
  lemma EmptyLayerKeepsView(below: seq<Layer>)
    requires |below| >= 1
    ensures View([Layer(map[], {})] + below) == View(below)
  {
    assert ([Layer(map[], {})] + below)[1..] == below;
    assert Apply(View(below), Layer(map[], {})) == View(below);
  }
}
