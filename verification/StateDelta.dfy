/** State deltas: nodes that point to their parent and own a backend. A chain is the
    list of nodes from one of them to the root; the view of a node is the view of the
    layers along its chain. */
module StateDelta {
  import opened Bytes
  import opened StateLayers

  datatype Outcome = Ok | Threw(message: string)

  class MapBackend {
    var entries: State
    var id: NodeId
    var revision: nat
    var merkleRoot: Bytes

    constructor (id: NodeId, revision: nat)
      ensures entries == map[] && this.id == id && this.revision == revision
    {
      entries := map[];
      merkleRoot := [];
      this.id := id;
      this.revision := revision;
    }

    method Put(key: Key, value: Value)
      modifies `entries
      ensures entries == old(entries)[key := value]
    {
      entries := entries[key := value];
    }

    /** Whether the key was there; the source reports this as a nonzero size. */
    method Remove(key: Key) returns (present: bool)
      modifies `entries
      ensures present == (key in old(entries)) && entries == old(entries) - {key}
    {
      present := key in entries;
      entries := entries - {key};
    }

    /** Removes every key of a set, one at a time. */
    method RemoveAll(keys: set<Key>)
      modifies `entries
      ensures entries == old(entries) - keys
    {
      var left := keys;
      while left != {}
        invariant left <= keys && entries == old(entries) - (keys - left)
        decreases left
      {
        var key :| key in left;
        var _ := Remove(key);
        left := left - {key};
      }
    }

    /** Releases the entries one at a time and puts each into another backend. */
    method DrainInto(dest: MapBackend)
      requires dest != this
      modifies `entries, dest`entries
      ensures entries == map[] && dest.entries == old(dest.entries) + old(entries)
    {
      ghost var e, d := entries, dest.entries;
      while entries.Keys != {}
        invariant entries.Keys <= e.Keys && (forall k | k in entries :: entries[k] == e[k])
        invariant dest.entries == d + (e - entries.Keys)
        decreases entries.Keys
      {
        var key :| key in entries.Keys;
        DrainStep(d, e, entries.Keys, key);
        var value := entries[key];
        entries := entries - {key};
        dest.Put(key, value);
      }
    }
  }

  function CachedOr(cached: Option<Bytes>, root: Bytes): Bytes {
    if cached.Some? then cached.value else root
  }

  /** What the first layer stands on. */
  ghost function BelowOf(layers: seq<Layer>): State
    requires layers != []
  {
    if |layers| == 1 then map[] else View(layers[1..])
  }

  class StateDelta {
    var parent: StateDelta?
    var backend: MapBackend?
    var removed: set<Key>
    var final: bool
    var cachedRoot: Option<Bytes>

    predicate IsRoot()
      reads this
    {
      parent == null
    }

    /** A cached Merkle root is that of the node's own layer, which can no longer change. */
    ghost predicate CachesOwn(rootOf: Layer -> Bytes)
      reads this, backend
    {
      backend != null && (cachedRoot.Some? ==> final && cachedRoot.value == rootOf(LayerOf(this)))
    }

    // ------------------------------------------------------------ chains

    static ghost function Backends(chain: seq<StateDelta>): set<MapBackend>
      reads chain
    {
      set d | d in chain && d.backend != null :: d.backend
    }

    /** From chain[0] to the root, each node with a backend of its own. */
    static ghost predicate Linked(chain: seq<StateDelta>)
      reads chain
    {
      && |chain| >= 1
      && (forall i | 0 <= i < |chain| :: chain[i].backend != null)
      && (forall i | 0 <= i < |chain| - 1 :: chain[i].parent == chain[i + 1])
      && chain[|chain| - 1].parent == null
      && (forall i, j | 0 <= i < j < |chain| :: chain[i] != chain[j] && chain[i].backend != chain[j].backend)
    }

    static ghost function LayerOf(d: StateDelta): Layer
      reads d, d.backend
      requires d.backend != null
    {
      Layer(d.backend.entries, d.removed)
    }

    static ghost function LayersOf(chain: seq<StateDelta>): (ls: seq<Layer>)
      reads chain, Backends(chain)
      requires Linked(chain)
      ensures |ls| == |chain|
    {
      seq(|chain|, i requires 0 <= i < |chain| && chain[i].backend != null reads chain, Backends(chain) =>
        LayerOf(chain[i]))
    }

    static ghost function ViewOf(chain: seq<StateDelta>): State
      reads chain, Backends(chain)
      requires Linked(chain)
    {
      View(LayersOf(chain))
    }

    static lemma Unfold(chain: seq<StateDelta>)
      requires Linked(chain)
      ensures |chain| >= 1 && chain[0].backend != null && (chain[0].parent == null <==> |chain| == 1)
      ensures |chain| == 1 ==> ViewOf(chain) == chain[0].backend.entries
      ensures |chain| > 1 ==>
        chain[0].parent == chain[1] && Linked(chain[1..]) &&
        LayersOf(chain) == [LayerOf(chain[0])] + LayersOf(chain[1..]) &&
        ViewOf(chain) == Apply(ViewOf(chain[1..]), LayerOf(chain[0]))
    {
      hide Apply;
      assert LayersOf(chain)[0] == LayerOf(chain[0]);
      if |chain| > 1 {
        var rest := chain[1..];
        assert forall i | 0 <= i < |rest| :: rest[i] == chain[i + 1];
        assert Linked(rest);
        assert LayersOf(chain)[1..] == LayersOf(rest);
        assert LayersOf(chain) == [LayerOf(chain[0])] + LayersOf(rest);
        assert ViewOf(rest) == View(LayersOf(rest));
      }
    }

    static lemma Apart(chain: seq<StateDelta>)
      requires Linked(chain)
      ensures forall d | d in chain[1..] :: d != chain[0] && d.backend != null && d.backend != chain[0].backend
    {
    }

    /** Nodes that are not touched keep their layers and view. */
    static twostate lemma Frame(chain: seq<StateDelta>)
      requires old(Linked(chain))
      requires forall d | d in chain :: unchanged(d) && unchanged(old(d.backend))
      ensures Linked(chain) && LayersOf(chain) == old(LayersOf(chain)) && ViewOf(chain) == old(ViewOf(chain))
    {
      assert LayersOf(chain) == old(LayersOf(chain));
    }

    /** Changing only the layer of the first node leaves everything below it. */
    static twostate lemma FrameBelow(chain: seq<StateDelta>)
      requires old(Linked(chain))
      requires chain[0].parent == old(chain[0].parent) && chain[0].backend == old(chain[0].backend)
      requires forall d | d in chain[1..] :: unchanged(d) && unchanged(old(d.backend))
      ensures Linked(chain) && LayersOf(chain)[1..] == old(LayersOf(chain))[1..]
      ensures |chain| > 1 ==> Linked(chain[1..]) && ViewOf(chain[1..]) == old(ViewOf(chain[1..]))
    {
      hide Apply, View;
      assert forall i | 1 <= i < |chain| :: chain[i] in chain[1..];
      assert Linked(chain);
      Unfold(chain);
      if |chain| > 1 {
        Frame(chain[1..]);
      }
    }

    // -------------------------------------------------------- operations

    method Get(key: Key, ghost chain: seq<StateDelta>) returns (value: Option<Value>)
      requires Linked(chain) && chain[0] == this
      ensures value == Lookup(ViewOf(chain), key)
      decreases |chain|
    {
      Unfold(chain);
      if key in backend.entries {
        return Some(backend.entries[key]);
      }
      if IsRoot() || key in removed {
        return None;
      }
      value := parent.Get(key, chain[1..]);
      Unfold(chain);
    }

    method Put(key: Key, value: Value, ghost chain: seq<StateDelta>) returns (outcome: Outcome)
      requires Linked(chain) && chain[0] == this
      modifies backend
      ensures Linked(chain) && outcome.Ok? == !final
      ensures final ==> LayersOf(chain) == old(LayersOf(chain))
      ensures !final ==>
        && LayersOf(chain) == old(LayersOf(chain))[0 := Layer(old(backend.entries)[key := value], removed)]
        && ViewOf(chain) == old(ViewOf(chain))[key := value]
      ensures forall r: Layer -> Bytes :: old(CachesOwn(r)) ==> CachesOwn(r)
    {
      if final {
        return Threw("cannot modify a final state delta");
      }
      hide Apply, View;
      Unfold(chain);
      if |chain| > 1 {
        PutApply(ViewOf(chain[1..]), LayerOf(this), key, value);
      }
      backend.Put(key, value);
      Unfold(chain);
      outcome := Ok;
    }

    /** A tombstone is kept exactly for a key that was written here or visible below. */
    method Remove(key: Key, ghost chain: seq<StateDelta>) returns (outcome: Outcome)
      requires Linked(chain) && chain[0] == this
      modifies `removed, backend
      ensures Linked(chain) && outcome.Ok? == !final
      ensures final ==> LayersOf(chain) == old(LayersOf(chain))
      ensures !final ==>
        && LayersOf(chain)[1..] == old(LayersOf(chain))[1..]
        && ViewOf(chain) == old(ViewOf(chain)) - {key}
        && removed == old(removed) + (if key in old(backend.entries) + BelowOf(old(LayersOf(chain))) then {key} else {})
      ensures forall r: Layer -> Bytes :: old(CachesOwn(r)) ==> CachesOwn(r)
    {
      if final {
        return Threw("cannot modify a final state delta");
      }
      hide Apply, View, StateDelta.LayersOf, StateDelta.ViewOf, StateDelta.Linked;
      Unfold(chain);
      Apart(chain);
      ghost var rest, l := chain[1..], LayerOf(this);
      var present := backend.Remove(key);
      FrameBelow(chain);
      if !present && !IsRoot() {
        var value := parent.Get(key, rest);
        FrameBelow(chain);
        present := value.Some?;
      }
      if present {
        removed := removed + {key};
      }
      FrameBelow(chain);
      Unfold(chain);
      if |chain| > 1 {
        RemoveApply(ViewOf(rest), l, key);
        assert LayerOf(this) ==
               if present then Layer(l.puts - {key}, l.removed + {key}) else l.(puts := l.puts - {key});
        assert present <==> key in l.puts || key in ViewOf(rest);
      }
      outcome := Ok;
    }

    /** First half of squash: tombstones delete from the parent, and stay on if the parent is no root. */
    method MoveTombstones(p: StateDelta)
      requires p != this && backend != null && p.backend != null && p.backend != backend
      modifies `removed, p`removed, p.backend`entries
      ensures removed == {} && p.backend.entries == old(p.backend.entries) - old(removed)
      ensures p.removed == if p.IsRoot() then old(p.removed) else old(p.removed) + old(removed)
    {
      ghost var r := removed;
      while removed != {}
        invariant removed <= r && p.backend.entries == old(p.backend.entries) - (r - removed)
        invariant p.removed == if p.IsRoot() then old(p.removed) else old(p.removed) + (r - removed)
        decreases removed
      {
        var key :| key in removed;
        var _ := p.backend.Remove(key);
        if !p.IsRoot() {
          p.removed := p.removed + {key};
        }
        removed := removed - {key};
      }
    }

    /** Second half: writes replace the parent's, and lift its tombstones. */
    method MoveEntries(p: StateDelta)
      requires p != this && backend != null && p.backend != null && p.backend != backend
      modifies backend`entries, p`removed, p.backend`entries
      ensures backend.entries == map[] && p.backend.entries == old(p.backend.entries) + old(backend.entries)
      ensures p.removed == if p.IsRoot() then old(p.removed) else old(p.removed) - old(backend.entries).Keys
    {
      ghost var e := backend.entries;
      while backend.entries.Keys != {}
        invariant backend.entries.Keys <= e.Keys && (forall k | k in backend.entries :: backend.entries[k] == e[k])
        invariant p.backend.entries == old(p.backend.entries) + (e - backend.entries.Keys)
        invariant p.removed == if p.IsRoot() then old(p.removed) else old(p.removed) - (e.Keys - backend.entries.Keys)
        decreases backend.entries.Keys
      {
        var key :| key in backend.entries.Keys;
        if !p.IsRoot() {
          p.removed := p.removed - {key};
        }
        DrainStep(old(p.backend.entries), e, backend.entries.Keys, key);
        var value := backend.entries[key];
        backend.entries := backend.entries - {key};
        p.backend.Put(key, value);
      }
    }

    static ghost function Front(chain: seq<StateDelta>): set<StateDelta> {
      set i | 0 <= i < |chain| && i < 2 :: chain[i]
    }

    /** Moves everything from this node into its parent; afterwards both show what this node showed. */
    method Squash(ghost chain: seq<StateDelta>)
      requires Linked(chain) && chain[0] == this
      modifies Front(chain)`removed, (set d | d in Front(chain) && d.backend != null :: d.backend)`entries
      ensures Linked(chain)
      ensures |chain| == 1 ==> LayersOf(chain) == old(LayersOf(chain))
      ensures |chain| > 1 ==>
        && LayersOf(chain)[0] == Layer(map[], {})
        && LayersOf(chain)[2..] == old(LayersOf(chain))[2..]
        && Linked(chain[1..]) && ViewOf(chain[1..]) == old(ViewOf(chain))
        && ViewOf(chain) == old(ViewOf(chain))
      ensures forall d, r: Layer -> Bytes | d in Front(chain) && !d.final :: old(d.CachesOwn(r)) ==> d.CachesOwn(r)
    {
      if IsRoot() {
        return;
      }
      hide Apply, View, Squashed;
      Unfold(chain);
      Unfold(chain[1..]);
      assert parent == chain[1] && parent.backend != null && parent.IsRoot() == (|chain| == 2);
      ghost var l, p := LayerOf(this), LayerOf(parent);
      MoveTombstones(parent);
      MoveEntries(parent);
      assert LayerOf(parent) == Squashed(p, l, |chain| == 2);
      FrameBelowTwo(chain);
      Unfold(chain);
      SquashKeepsView(l, old(LayersOf(chain[1..])));
      EmptyLayerKeepsView(LayersOf(chain[1..]));
    }

    static twostate lemma FrameBelowTwo(chain: seq<StateDelta>)
      requires old(Linked(chain)) && |chain| > 1
      requires forall i | 0 <= i < 2 ::
        chain[i].parent == old(chain[i].parent) && chain[i].backend == old(chain[i].backend)
      requires forall d | d in chain[2..] :: unchanged(d) && unchanged(old(d.backend))
      ensures Linked(chain) && LayersOf(chain)[2..] == old(LayersOf(chain))[2..]
      ensures Linked(chain[1..]) && LayersOf(chain[1..]) == [LayerOf(chain[1])] + old(LayersOf(chain))[2..]
    {
      assert forall i | 2 <= i < |chain| :: chain[i] in chain[2..];
    }

    constructor Root()
      ensures parent == null && backend != null && fresh(backend) && !final && cachedRoot == None
      ensures Linked([this]) && ViewOf([this]) == map[]
      ensures forall r: Layer -> Bytes :: CachesOwn(r)
    {
      parent := null;
      backend := new MapBackend(NullId(), 0);
      removed := {};
      final := false;
      cachedRoot := None;
    }

    constructor Child(parent: StateDelta, backend: MapBackend, removed: set<Key>)
      ensures this.parent == parent && this.backend == backend && this.removed == removed
      ensures !final && cachedRoot == None
    {
      this.parent := parent;
      this.backend := backend;
      this.removed := removed;
      final := false;
      cachedRoot := None;
    }

    /** An empty node on top of this one; it shows what this one shows. */
    method MakeChild(id: NodeId, ghost chain: seq<StateDelta>) returns (child: StateDelta)
      requires Linked(chain) && chain[0] == this
      ensures fresh(child) && child.backend != null && fresh(child.backend) && !child.final
      ensures Linked([child] + chain) && ViewOf([child] + chain) == ViewOf(chain)
      ensures child.backend.revision == backend.revision + 1
      ensures child.backend.id == if id == NullId() then backend.id else id
      ensures forall r: Layer -> Bytes :: child.CachesOwn(r)
    {
      var b := new MapBackend(if id == NullId() then backend.id else id, backend.revision + 1);
      child := new StateDelta.Child(this, b, {});
      ghost var longer := [child] + chain;
      assert forall i | 1 <= i < |longer| :: longer[i] == chain[i - 1];
      assert Linked(longer);
      assert LayersOf(longer) == [Layer(map[], {})] + LayersOf(chain);
      EmptyLayerKeepsView(LayersOf(chain));
    }

    /** A node beside this one, with the same layer, state and cached root, under the given or the same id. */
    method Clone(id: NodeId, ghost chain: seq<StateDelta>) returns (copy: StateDelta)
      requires Linked(chain) && chain[0] == this
      ensures fresh(copy) && copy.backend != null && fresh(copy.backend) && copy.final == final
      ensures Linked([copy] + chain[1..]) && LayersOf([copy] + chain[1..]) == LayersOf(chain)
      ensures copy.backend.id == if id == NullId() then backend.id else id
      ensures copy.backend.revision == backend.revision
      ensures copy.backend.merkleRoot == CachedOr(cachedRoot, backend.merkleRoot)
      ensures forall r: Layer -> Bytes :: CachesOwn(r) ==> copy.CachesOwn(r)
    {
      var b := new MapBackend(backend.id, backend.revision);
      b.entries, b.merkleRoot := backend.entries, backend.merkleRoot;
      if id != NullId() {
        b.id := id;
      }
      if cachedRoot.Some? {
        b.merkleRoot := cachedRoot.value;
      }
      copy := new StateDelta.Copy(this, b);
      Beside(copy, chain);
    }

    static lemma Beside(copy: StateDelta, chain: seq<StateDelta>)
      requires Linked(chain) && copy !in chain && copy.backend != null && copy.backend !in Backends(chain)
      requires copy.parent == chain[0].parent && LayerOf(copy) == LayerOf(chain[0])
      ensures Linked([copy] + chain[1..]) && LayersOf([copy] + chain[1..]) == LayersOf(chain)
    {
      hide LayerOf;
      BesideLinked(copy, chain);
      var beside := [copy] + chain[1..];
      forall i | 0 <= i < |chain|
        ensures LayersOf(beside)[i] == LayersOf(chain)[i]
      {
        assert i > 0 ==> beside[i] == chain[i];
      }
    }

    static lemma BesideLinked(copy: StateDelta, chain: seq<StateDelta>)
      requires Linked(chain) && copy !in chain && copy.backend != null && copy.backend !in Backends(chain)
      requires copy.parent == chain[0].parent
      ensures Linked([copy] + chain[1..])
    {
      var beside := [copy] + chain[1..];
      forall i | 1 <= i < |chain|
        ensures beside[i] == chain[i] && chain[i] in chain && chain[i].backend in Backends(chain)
      {
      }
    }

    constructor Copy(of: StateDelta, backend: MapBackend)
      ensures parent == of.parent && this.backend == backend && removed == of.removed
      ensures final == of.final && cachedRoot == of.cachedRoot
    {
      parent := of.parent;
      this.backend := backend;
      removed := of.removed;
      final := of.final;
      cachedRoot := of.cachedRoot;
    }

    method Finalize()
      modifies `final
      ensures final
      ensures forall r: Layer -> Bytes :: old(CachesOwn(r)) ==> CachesOwn(r)
    {
      final := true;
    }

    /** The nodes from this one to the root. */
    method NodeStack(ghost chain: seq<StateDelta>) returns (nodeStack: seq<StateDelta>)
      requires Linked(chain) && chain[0] == this
      ensures nodeStack == chain
    {
      nodeStack := [];
      var current: StateDelta? := this;
      while current != null
        invariant |nodeStack| <= |chain| && nodeStack == chain[..|nodeStack|]
        invariant current == if |nodeStack| < |chain| then chain[|nodeStack|] else null
        decreases |chain| - |nodeStack|
      {
        nodeStack := nodeStack + [current];
        current := current.parent;
      }
    }

    /** Applies one layer to the backend of the root. */
    method WriteTo(dest: MapBackend)
      requires backend != null && backend != dest
      modifies backend`entries, dest`entries
      ensures backend.entries == map[] && dest.entries == Apply(old(dest.entries), old(LayerOf(this)))
    {
      dest.RemoveAll(removed);
      backend.DrainInto(dest);
    }

    /** Drains the layers of all nodes but the root into the root's backend, the oldest layer first. */
    static method WriteLayers(stack: seq<StateDelta>, dest: MapBackend, ghost ls: seq<Layer>)
      requires |ls| == |stack| + 1 && dest.entries == ls[|stack|].puts
      requires forall i | 0 <= i < |stack| :: stack[i].backend != null && stack[i].backend != dest
      requires forall i, j | 0 <= i < j < |stack| :: stack[i].backend != stack[j].backend
      requires forall i | 0 <= i < |stack| :: LayerOf(stack[i]) == ls[i]
      modifies (set d | d in stack && d.backend != null :: d.backend)`entries, dest`entries
      ensures dest.entries == View(ls)
      ensures forall i | 0 <= i < |stack| :: stack[i].backend.entries == map[]
    {
      hide View, Apply;
      ViewStep(ls, |stack|);
      var nodeStack := stack;
      while nodeStack != []
        invariant |nodeStack| <= |stack| && nodeStack == stack[..|nodeStack|]
        invariant forall i | 0 <= i < |nodeStack| :: LayerOf(stack[i]) == ls[i]
        invariant forall i | |nodeStack| <= i < |stack| :: stack[i].backend.entries == map[]
        invariant dest.entries == View(ls[|nodeStack|..])
        decreases |nodeStack|
      {
        var last := |nodeStack| - 1;
        ViewStep(ls, last);
        nodeStack[last].WriteTo(dest);
        nodeStack := nodeStack[..last];
      }
      assert ls[0..] == ls;
    }

    /** The Merkle root of this node's own layer; computed once, and only for a final node. */
    method MerkleRoot(rootOf: Layer -> Bytes) returns (outcome: Outcome, root: Bytes)
      requires backend != null
      modifies `cachedRoot
      ensures outcome.Ok? == final && (outcome.Threw? ==> cachedRoot == old(cachedRoot))
      ensures outcome.Ok? ==>
        root == CachedOr(old(cachedRoot), rootOf(LayerOf(this))) && cachedRoot == Some(root)
      ensures old(CachesOwn(rootOf)) ==> CachesOwn(rootOf) && (outcome.Ok? ==> root == rootOf(LayerOf(this)))
    {
      if !final {
        return Threw("cannot return merkle root of non-final node"), [];
      }
      if cachedRoot == None {
        cachedRoot := Some(rootOf(Layer(backend.entries, removed)));
      }
      return Ok, cachedRoot.value;
    }

    /** Writes this node and everything between it and the root into the root's backend, which becomes this
        node's own. The Merkle root is asked for after the layers have been drained, so a node that is not
        final throws with its view already emptied. */
    method Commit(rootOf: Layer -> Bytes, ghost chain: seq<StateDelta>) returns (outcome: Outcome)
      requires Linked(chain) && chain[0] == this
      modifies chain, Backends(chain)
      ensures |chain| == 1 ==> outcome.Threw? && Linked(chain) && LayersOf(chain) == old(LayersOf(chain))
      ensures |chain| > 1 ==> outcome.Ok? == old(final)
      ensures |chain| > 1 && outcome.Threw? ==>
        backend == old(backend) && backend.entries == map[] && chain[|chain| - 1].backend == null
      ensures outcome.Ok? ==>
        && IsRoot() && Linked([this]) && backend == old(chain[|chain| - 1].backend)
        && LayersOf([this]) == [Layer(old(ViewOf(chain)), {})] && ViewOf([this]) == old(ViewOf(chain))
        && backend.id == old(backend.id) && backend.revision == old(backend.revision)
        && backend.merkleRoot == CachedOr(old(cachedRoot), rootOf(Layer(map[], old(removed))))
    {
      hide View, Apply;
      Unfold(chain);
      if IsRoot() {
        return Threw("cannot commit root");
      }
      var nodeStack := NodeStack(chain);
      var top := |nodeStack| - 1;
      var rootBackend := nodeStack[top].backend;
      nodeStack[top].backend := null;
      WriteLayers(nodeStack[..top], rootBackend, old(LayersOf(chain)));
      outcome := TakeOver(rootBackend, rootOf);
      if outcome.Ok? {
        assert LayersOf([this])[0] == LayerOf(this);
        Unfold([this]);
      }
    }

    /** Writes the metadata and makes the root's backend this node's own. */
    method TakeOver(rootBackend: MapBackend, rootOf: Layer -> Bytes) returns (outcome: Outcome)
      requires backend != null && backend != rootBackend
      modifies this, rootBackend
      ensures outcome.Ok? == old(final) && rootBackend.entries == old(rootBackend.entries)
      ensures outcome.Threw? ==> backend == old(backend)
      ensures outcome.Ok? ==>
        && parent == null && backend == rootBackend && removed == {}
        && rootBackend.id == old(backend.id) && rootBackend.revision == old(backend.revision)
        && rootBackend.merkleRoot == CachedOr(old(cachedRoot), rootOf(old(LayerOf(this))))
    {
      rootBackend.revision := backend.revision;
      rootBackend.id := backend.id;
      var root;
      outcome, root := MerkleRoot(rootOf);
      if outcome.Ok? {
        rootBackend.merkleRoot := root;
        removed := {};
        backend := rootBackend;
        parent := null;
      }
    }

    /** The nodes of above lead to root, and none of them or their backends is among the given ones. */
    static ghost predicate Rests(above: seq<StateDelta>, root: StateDelta, nodes: seq<StateDelta>,
                                 backends: set<MapBackend>)
      reads above
    {
      && (forall i | 0 <= i < |above| ::
            above[i] !in nodes && above[i].backend != null && above[i].backend !in backends)
      && (forall i | 0 <= i < |above| - 1 :: above[i].parent == above[i + 1])
      && (|above| > 0 ==> above[|above| - 1].parent == root)
      && (forall i, j | 0 <= i < j < |above| :: above[i] != above[j] && above[i].backend != above[j].backend)
    }

    static lemma SplitChain(above: seq<StateDelta>, chain: seq<StateDelta>)
      requires Linked(chain) && Linked(above + chain)
      ensures Rests(above, chain[0], chain, Backends(chain))
      ensures forall i | 0 <= i < |above| :: LayersOf(above + chain)[i] == LayerOf(above[i])
      ensures View(LayersOf(above + chain)[|above|..]) == ViewOf(chain)
    {
      hide View;
      var all := above + chain;
      assert forall i | 0 <= i < |above| :: all[i] == above[i];
      assert forall i | 0 <= i < |chain| :: all[|above| + i] == chain[i];
      forall i | 0 <= i < |above|
        ensures above[i] !in chain && above[i].backend !in Backends(chain)
      {
        forall j | 0 <= j < |chain|
          ensures above[i] != chain[j] && above[i].backend != chain[j].backend
        {
          assert all[i] == above[i] && all[|above| + j] == chain[j];
        }
      }
      assert LayersOf(all)[|above|..] == LayersOf(chain);
    }

    static lemma JoinChain(above: seq<StateDelta>, root: StateDelta, ls: seq<Layer>)
      requires Linked([root]) && Rests(above, root, [root], {root.backend})
      requires |above| < |ls| && forall i | 0 <= i < |above| :: LayerOf(above[i]) == ls[i]
      requires LayersOf([root]) == [Layer(View(ls[|above|..]), {})]
      ensures Linked(above + [root]) && ViewOf(above + [root]) == View(ls)
    {
      hide View, Rests, Linked, LayerOf;
      var n, lowest := |above|, Layer(View(ls[|above|..]), {});
      JoinLinked(above, root);
      JoinLayers(above, root, ls[..n] + [lowest]);
      CollapseKeepsView(ls[..n], ls[n..]);
      assert ls[..n] + ls[n..] == ls;
    }

    static lemma JoinLinked(above: seq<StateDelta>, root: StateDelta)
      requires Linked([root]) && Rests(above, root, [root], {root.backend})
      ensures Linked(above + [root])
    {
      assert root == [root][0] && root in [root];
      var all, n := above + [root], |above|;
      assert all[n] == root && forall i | 0 <= i < n :: all[i] == above[i];
      assert n > 0 ==> all[n - 1].parent == root;
    }

    static lemma JoinLayers(above: seq<StateDelta>, root: StateDelta, ls: seq<Layer>)
      requires Linked([root]) && Linked(above + [root]) && |ls| == |above| + 1
      requires forall i | 0 <= i < |above| :: above[i].backend != null && LayerOf(above[i]) == ls[i]
      requires LayersOf([root]) == [ls[|above|]]
      ensures LayersOf(above + [root]) == ls
    {
      hide LayerOf;
      var all := above + [root];
      assert LayersOf([root])[0] == LayerOf(root);
      forall i | 0 <= i < |all|
        ensures LayersOf(all)[i] == ls[i]
      {
        assert i < |above| ==> all[i] == above[i];
      }
    }

    /** A successful commit leaves the view of every descendant as it was: above is any list of nodes that
        leads down to this one, and being ghost it cannot influence what happens. */
    method CommitBelow(rootOf: Layer -> Bytes, ghost chain: seq<StateDelta>, ghost above: seq<StateDelta>)
        returns (outcome: Outcome)
      requires Linked(chain) && chain[0] == this && Linked(above + chain)
      modifies chain, Backends(chain)
      ensures outcome.Ok? <==> |chain| > 1 && old(final)
      ensures outcome.Ok? ==> Linked([this]) && ViewOf([this]) == old(ViewOf(chain))
      ensures outcome.Ok? ==> Linked(above + [this]) && ViewOf(above + [this]) == old(ViewOf(above + chain))
    {
      hide View, Apply;
      SplitChain(above, chain);
      outcome := Commit(rootOf, chain);
      if outcome.Ok? {
        assert Rests(above, this, [this], {backend});
        JoinChain(above, this, old(LayersOf(above + chain)));
      }
    }
  }
}
