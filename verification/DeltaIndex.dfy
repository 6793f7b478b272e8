/** The fork index of the state database, as the object that the state nodes share.
    Nodes are named by their ids, which the index keeps unique. */
module DeltaIndex {
  import opened Collections
  import opened StateLayers
  import opened ForkIndex
  import Deltas = StateDelta

  type Outcome = Deltas.Outcome

  // ------------------------------------------------------------- work queue

  /** The children of a node that are not to be kept. */
  function Children(nodes: map<NodeId, Node>, p: NodeId, keep: set<NodeId>): set<NodeId> {
    set c | c in nodes && nodes[c].parent == Some(p) && c !in keep
  }

  ghost predicate Distinct(q: seq<NodeId>) {
    forall i, j | 0 <= i < j < |q| :: q[i] != q[j]
  }

  ghost predicate AllUnder(nodes: map<NodeId, Node>, top: NodeId, keep: set<NodeId>, q: seq<NodeId>) {
    forall i | 0 <= i < |q| :: q[i] in nodes && Under(nodes, top, q[i], keep)
  }

  /** What is not top was put there by its parent, one of the first n. */
  ghost predicate FromParent(nodes: map<NodeId, Node>, top: NodeId, q: seq<NodeId>, n: nat)
    requires n <= |q|
  {
    forall i | 0 <= i < |q| && q[i] != top ::
      q[i] in nodes && nodes[q[i]].parent.Some? && nodes[q[i]].parent.value in q[..n]
  }

  /** The first n entries have put all their children there. */
  ghost predicate ChildrenIn(nodes: map<NodeId, Node>, keep: set<NodeId>, q: seq<NodeId>, n: nat)
    requires n <= |q|
  {
    forall i | 0 <= i < n :: Children(nodes, q[i], keep) <= Elements(q)
  }

  ghost predicate Queued(nodes: map<NodeId, Node>, top: NodeId, keep: set<NodeId>, q: seq<NodeId>, n: nat) {
    && n <= |q| && Distinct(q) && top in q && AllUnder(nodes, top, keep, q)
    && FromParent(nodes, top, q, n) && ChildrenIn(nodes, keep, q, n)
  }

  /** A queue that is worked off holds exactly the subtree. */
  lemma {:induction false} QueueIsSubtree(nodes: map<NodeId, Node>, top: NodeId, keep: set<NodeId>, q: seq<NodeId>)
    requires Queued(nodes, top, keep, q, |q|)
    ensures Elements(q) == Subtree(nodes, top, keep)
  {
    forall n | n in nodes && Under(nodes, top, n, keep)
      ensures n in q
    {
      UnderQueued(nodes, top, keep, q, n);
    }
  }

  lemma {:induction false} UnderQueued(nodes: map<NodeId, Node>, top: NodeId, keep: set<NodeId>, q: seq<NodeId>,
                                       n: NodeId)
    requires Queued(nodes, top, keep, q, |q|) && n in nodes && Under(nodes, top, n, keep)
    ensures n in q
    decreases nodes[n].revision
  {
    if n != top {
      var p := nodes[n].parent.value;
      UnderQueued(nodes, top, keep, q, p);
      var i :| 0 <= i < |q| && q[i] == p;
      assert n in Children(nodes, q[i], keep);
    }
  }

  lemma QueueStart(nodes: map<NodeId, Node>, top: NodeId, keep: set<NodeId>)
    requires top in nodes
    ensures Queued(nodes, top, keep, [top], 0)
  {
  }

  /** A node's children are not in the queue before the node is worked off. */
  lemma ChildrenFresh(nodes: map<NodeId, Node>, root: NodeId, top: NodeId, keep: set<NodeId>, q: seq<NodeId>, n: nat)
    requires Tree(nodes, root) && Queued(nodes, top, keep, q, n) && n < |q|
    ensures forall c | c in Children(nodes, q[n], keep) :: c !in q
  {
    forall c | c in Children(nodes, q[n], keep)
      ensures c !in q
    {
      assert c != root && Hangs(nodes, c);
      AncestorKept(nodes, top, q[n], keep);
      assert c != top;
    }
  }

  lemma {:induction false} AncestorKept(nodes: map<NodeId, Node>, top: NodeId, n: NodeId, keep: set<NodeId>)
    requires n in nodes && Under(nodes, top, n, keep)
    ensures top in nodes && nodes[top].revision <= nodes[n].revision
    decreases nodes[n].revision
  {
    if n != top {
      AncestorKept(nodes, top, nodes[n].parent.value, keep);
    }
  }

  lemma DistinctConcat(q: seq<NodeId>, r: seq<NodeId>)
    requires Distinct(q) && Distinct(r) && forall x | x in Elements(r) :: x !in q
    ensures Distinct(q + r)
  {
    forall j | 0 <= j < |r|
      ensures r[j] !in q
    {
      assert r[j] in Elements(r);
    }
  }

  lemma KidsUnder(nodes: map<NodeId, Node>, root: NodeId, top: NodeId, keep: set<NodeId>, p: NodeId, kids: seq<NodeId>)
    requires Tree(nodes, root) && p in nodes && Under(nodes, top, p, keep)
    requires Elements(kids) == Children(nodes, p, keep)
    ensures AllUnder(nodes, top, keep, kids)
    ensures forall i | 0 <= i < |kids| :: kids[i] in nodes && nodes[kids[i]].parent == Some(p)
  {
    forall i | 0 <= i < |kids|
      ensures kids[i] in nodes && Under(nodes, top, kids[i], keep) && nodes[kids[i]].parent == Some(p)
    {
      assert kids[i] in Elements(kids);
      assert kids[i] != root && Hangs(nodes, kids[i]);
    }
  }

  lemma FromParentStep(nodes: map<NodeId, Node>, top: NodeId, q: seq<NodeId>, n: nat, kids: seq<NodeId>)
    requires n < |q| && FromParent(nodes, top, q, n)
    requires forall i | 0 <= i < |kids| :: kids[i] in nodes && nodes[kids[i]].parent == Some(q[n])
    ensures FromParent(nodes, top, q + kids, n + 1)
  {
    var r := q + kids;
    assert r[..n + 1] == q[..n] + [q[n]];
    forall i | 0 <= i < |r| && r[i] != top
      ensures r[i] in nodes && nodes[r[i]].parent.Some? && nodes[r[i]].parent.value in r[..n + 1]
    {
      assert r[i] == if i < |q| then q[i] else kids[i - |q|];
    }
  }

  lemma UnderConcat(nodes: map<NodeId, Node>, top: NodeId, keep: set<NodeId>, q: seq<NodeId>, kids: seq<NodeId>)
    requires AllUnder(nodes, top, keep, q) && AllUnder(nodes, top, keep, kids)
    ensures AllUnder(nodes, top, keep, q + kids)
  {
    hide Under;
  }

  lemma ChildrenInStep(nodes: map<NodeId, Node>, keep: set<NodeId>, q: seq<NodeId>, n: nat, kids: seq<NodeId>)
    requires n < |q| && ChildrenIn(nodes, keep, q, n) && Elements(kids) == Children(nodes, q[n], keep)
    ensures ChildrenIn(nodes, keep, q + kids, n + 1)
  {
    hide Children;
    ElementsConcat(q, kids);
    hide Elements;
  }

  lemma QueueStep(nodes: map<NodeId, Node>, root: NodeId, top: NodeId, keep: set<NodeId>, q: seq<NodeId>, n: nat,
                  kids: seq<NodeId>)
    requires Tree(nodes, root) && Queued(nodes, top, keep, q, n) && n < |q|
    requires Distinct(kids) && Elements(kids) == Children(nodes, q[n], keep)
    ensures Queued(nodes, top, keep, q + kids, n + 1)
  {
    assert q[n] in nodes && Under(nodes, top, q[n], keep);
    hide Distinct, Tree, FromParent, Under, Children, Elements, AllUnder, ChildrenIn;
    ChildrenFresh(nodes, root, top, keep, q, n);
    DistinctConcat(q, kids);
    KidsUnder(nodes, root, top, keep, q[n], kids);
    FromParentStep(nodes, top, q, n, kids);
    UnderConcat(nodes, top, keep, q, kids);
    ChildrenInStep(nodes, keep, q, n, kids);
  }

  lemma {:induction false} DistinctSize(q: seq<NodeId>, s: set<NodeId>)
    requires Distinct(q) && forall i | 0 <= i < |q| :: q[i] in s
    ensures |q| <= |s|
    decreases |q|
  {
    if q != [] {
      var last := q[|q| - 1];
      DistinctSize(q[..|q| - 1], s - {last});
      assert s == (s - {last}) + {last};
    }
  }

  /** Lists a set, in no particular order. */
  method Listed(s: set<NodeId>) returns (q: seq<NodeId>)
    ensures Distinct(q) && Elements(q) == s
  {
    q := [];
    var left := s;
    while left != {}
      invariant left <= s && Distinct(q) && Elements(q) == s - left
      decreases left
    {
      var x :| x in left;
      assert x !in Elements(q);
      ElementsConcat(q, [x]);
      q := q + [x];
      left := left - {x};
    }
  }

  // ---------------------------------------------------------------- the index

  /** First come, first served: on equal revisions the head stays. */
  function FifoComparator(forkHeads: set<NodeId>, head: NodeId, candidate: NodeId): NodeId {
    head
  }

  class DeltaIndex {
    var nodes: map<NodeId, Node>
    var root: Option<NodeId>
    var head: Option<NodeId>
    var forkHeads: set<NodeId>

    predicate IsOpen()
      reads this
    {
      root.Some? && head.Some?
    }

    ghost function Model(): Index
      reads this
      requires IsOpen()
    {
      Index(nodes, root.value, head.value, forkHeads)
    }

    /** Open and well formed, or closed and empty. */
    ghost predicate Valid()
      reads this
    {
      if IsOpen() then Good(Model()) else root == None && head == None && nodes == map[] && forkHeads == {}
    }

    constructor ()
      ensures Valid() && !IsOpen()
    {
      nodes, root, head, forkHeads := map[], None, None, {};
    }

    method Open(id: NodeId, revision: nat)
      requires Valid() && !IsOpen()
      modifies this
      ensures Valid() && IsOpen() && Model() == Opened(id, revision)
      ensures nodes == map[id := Node(None, revision, true)] && root == head == Some(id) && forkHeads == {id}
    {
      var delta := Node(None, revision, false);
      delta := delta.(final := true);
      nodes := nodes[id := delta];
      forkHeads := forkHeads + {id};
      root := Some(id);
      head := Some(id);
      OpenedGood(id, revision);
    }

    method Close()
      modifies this
      ensures Valid() && !IsOpen()
    {
      nodes, forkHeads := map[], {};
      root, head := None, None;
    }

    method Get(id: NodeId) returns (outcome: Outcome, node: Option<NodeId>)
      ensures outcome.Ok? <==> IsOpen()
      ensures IsOpen() ==> node == if id in nodes then Some(id) else None
    {
      if !IsOpen() {
        return Deltas.Threw("database is not open"), None;
      }
      return Deltas.Ok, if id in nodes then Some(id) else None;
    }

    /** The ancestor-or-self, at the asked revision, of the given node, or of the head if
        the node is not indexed. A revision above the start yields the start itself. */
    method AtRevision(revision: nat, child: NodeId) returns (outcome: Outcome, id: NodeId)
      requires Valid()
      ensures outcome.Ok? <==> IsOpen() && nodes[root.value].revision <= revision
      ensures outcome.Ok? ==>
        var start := if child in nodes then child else head.value;
        && id in nodes
        && (nodes[id].revision == revision || (nodes[id].revision < revision && id == start))
        && (revision <= nodes[start].revision ==>
              nodes[id].revision == revision && Under(nodes, id, start, {}))
    {
      id := NullId();
      if !IsOpen() {
        return Deltas.Threw("database is not open"), id;
      }
      if revision < nodes[root.value].revision {
        return Deltas.Threw("cannot ask for node with revision less than root."), id;
      }
      ghost var start := if child in nodes then child else head.value;
      if revision == nodes[root.value].revision {
        RootAncestor(nodes, root.value, start);
        return Deltas.Ok, root.value;
      }
      id := if child in nodes then child else head.value;
      hide Highest, Tips;
      while nodes[id].revision > revision
        invariant id in nodes && Under(nodes, id, start, {})
        invariant id == start || nodes[id].revision >= revision
        decreases nodes[id].revision
      {
        assert id != root.value && Hangs(nodes, id);
        AncestorUp(nodes, id, start);
        id := nodes[id].parent.value;
      }
      outcome := Deltas.Ok;
    }

    /** Adds a node below an indexed one, unless its id is taken. */
    method MakeChild(parent: NodeId, childId: NodeId) returns (outcome: Outcome)
      requires Valid() && parent in nodes
      modifies this
      ensures Valid() && IsOpen()
      ensures Model() == Step(old(Model()), Op.MakeChild(parent, if childId == NullId() then parent else childId))
      ensures outcome.Ok? <==> childId != NullId() && childId !in old(nodes)
      ensures outcome.Ok? ==> nodes == old(nodes)[childId := Node(Some(parent), old(nodes)[parent].revision + 1, false)]
      ensures !outcome.Ok? ==> nodes == old(nodes)
      ensures root == old(root) && head == old(head) && forkHeads == old(forkHeads)
    {
      var id := if childId == NullId() then parent else childId;
      var child := Node(Some(parent), nodes[parent].revision + 1, false);
      if id in nodes {
        return Deltas.Threw("could not add state delta");
      }
      ChildGood(Model(), parent, id);
      nodes := nodes[id := child];
      outcome := Deltas.Ok;
    }

    /** Adds a copy of an indexed node beside it. Copying the root is where the index
        stops being well formed. */
    method Clone(node: NodeId, newId: NodeId) returns (outcome: Outcome)
      requires Valid() && node in nodes
      modifies this
      ensures IsOpen() && Model() == Step(old(Model()), Op.Clone(node, if newId == NullId() then node else newId))
      ensures outcome.Ok? <==> newId != NullId() && newId !in old(nodes)
      ensures nodes == if outcome.Ok? then old(nodes)[newId := old(nodes)[node]] else old(nodes)
      ensures root == old(root) && head == old(head) && forkHeads == old(forkHeads)
      ensures Valid() <==> !(outcome.Ok? && node == old(root.value))
    {
      var id := if newId == NullId() then node else newId;
      if id in nodes {
        return Deltas.Threw("could not add state delta");
      }
      CloneGood(Model(), node, id);
      nodes := nodes[id := nodes[node]];
      outcome := Deltas.Ok;
    }

    /** Marks a node final and moves the head and the fork heads. */
    method Finalize(node: NodeId) returns (outcome: Outcome)
      requires Valid() && (IsOpen() ==> node in nodes)
      modifies this
      ensures Valid() && (outcome.Ok? <==> old(IsOpen())) && IsOpen() == old(IsOpen())
      ensures IsOpen() ==> Model() == Step(old(Model()), Op.Finalize(node))
      ensures IsOpen() ==>
        && nodes == old(nodes)[node := old(nodes)[node].(final := true)] && root == old(root)
        && head == (if nodes[node].revision > old(nodes)[old(head).value].revision then Some(node) else old(head))
        && forkHeads == (set f | f in old(forkHeads) && Some(f) != nodes[node].parent) + {head.value}
    {
      if !IsOpen() {
        return Deltas.Threw("database is not open");
      }
      FinalizedGood(Model(), node);
      nodes := nodes[node := nodes[node].(final := true)];
      var revision, best := nodes[node].revision, nodes[head.value].revision;
      if revision > best {
        head := Some(node);
      } else if revision == best {
        head := Some(FifoComparator(forkHeads, head.value, node));
      }
      if nodes[node].parent.Some? {
        forkHeads := forkHeads - {nodes[node].parent.value};
      }
      forkHeads := forkHeads + {head.value};
      outcome := Deltas.Ok;
    }

    /** Collects a node and everything under it, unless the head turns up. */
    method Collect(node: NodeId, keep: set<NodeId>) returns (found: bool, queue: seq<NodeId>)
      requires IsOpen() && Tree(nodes, root.value) && node in nodes
      ensures found <==> head.value in Subtree(nodes, node, keep)
      ensures !found ==> Elements(queue) == Subtree(nodes, node, keep)
    {
      hide Tree, Queued, Subtree, Elements, Children;
      queue := [node];
      QueueStart(nodes, node, keep);
      var i := 0;
      while i < |queue|
        invariant 0 <= i <= |queue| && Queued(nodes, node, keep, queue, i)
        invariant head.value !in queue[..i]
        decreases |nodes.Keys| - i
      {
        QueueFacts(nodes, node, keep, queue, i);
        if queue[i] == head.value {
          InSubtree(nodes, node, keep, head.value);
          return true, queue;
        }
        var kids := Listed(Children(nodes, queue[i], keep));
        QueueStep(nodes, root.value, node, keep, queue, i, kids);
        ghost var before := queue;
        queue := queue + kids;
        assert queue[..i + 1] == before[..i] + [before[i]];
        i := i + 1;
      }
      assert queue[..i] == queue;
      QueueIsSubtree(nodes, node, keep, queue);
      NotElement(queue, head.value);
      found := false;
    }

    /** Removes exactly the node and what is under it, or throws and changes nothing. */
    method Remove(node: NodeId, keep: set<NodeId>) returns (outcome: Outcome)
      requires Valid() && (IsOpen() ==> node in nodes)
      modifies this
      ensures outcome.Ok? <==> old(IsOpen()) && !Protected(old(Model()), node, keep)
      ensures !outcome.Ok? ==> unchanged(this)
      ensures outcome.Ok? ==> IsOpen() && Model() == Pruned(old(Model()), node, keep)
      ensures outcome.Ok? ==>
        && root == old(root) && head == old(head)
        && nodes == old(nodes) - Subtree(old(nodes), node, keep)
        && forkHeads == set f | f in old(forkHeads) && f !in Subtree(old(nodes), node, keep) &&
                                Some(f) != old(nodes)[node].parent
      ensures keep == {} ==> Valid()
    {
      hide Good, Subtree, Elements;
      if !IsOpen() {
        return Deltas.Threw("database is not open");
      }
      GoodFacts(Model());
      if node == root.value {
        return Deltas.Threw("cannot discard root node");
      }
      var found, queue := Collect(node, keep);
      if found {
        return Deltas.Threw("cannot discard an ancestor of head");
      }
      var parent := nodes[node].parent;
      ghost var was := Model();
      if keep == {} {
        PrunedGood(was, node);
      }
      EraseAll(queue);
      if parent.Some? {
        forkHeads := forkHeads - {parent.value};
      }
      outcome := Deltas.Ok;
    }

    method EraseAll(queue: seq<NodeId>)
      modifies `nodes, `forkHeads
      ensures nodes == old(nodes) - Elements(queue) && forkHeads <= old(forkHeads)
      ensures forall f | f in old(forkHeads) :: f in forkHeads || f in Elements(queue)
      ensures forall f | f in forkHeads :: f !in Elements(queue) || f !in old(nodes)
    {
      for i := 0 to |queue|
        invariant nodes == old(nodes) - Elements(queue[..i]) && forkHeads <= old(forkHeads)
        invariant forall f | f in old(forkHeads) :: f in forkHeads || f in Elements(queue[..i])
        invariant forall f | f in forkHeads :: f !in Elements(queue[..i]) || f !in old(nodes)
      {
        assert queue[..i + 1] == queue[..i] + [queue[i]];
        ElementsConcat(queue[..i], [queue[i]]);
        if queue[i] in nodes {
          nodes := nodes - {queue[i]};
          forkHeads := forkHeads - {queue[i]};
        }
      }
      assert queue[..|queue|] == queue;
    }
  }

  lemma {:induction false} RootAncestor(nodes: map<NodeId, Node>, root: NodeId, n: NodeId)
    requires Tree(nodes, root) && n in nodes
    ensures Under(nodes, root, n, {})
    decreases nodes[n].revision
  {
    if n != root {
      assert Hangs(nodes, n);
      RootAncestor(nodes, root, nodes[n].parent.value);
    }
  }

  lemma QueueFacts(nodes: map<NodeId, Node>, top: NodeId, keep: set<NodeId>, q: seq<NodeId>, i: nat)
    requires Queued(nodes, top, keep, q, i)
    ensures |q| <= |nodes.Keys|
    ensures forall j | 0 <= j < |q| :: q[j] in nodes && Under(nodes, top, q[j], keep)
  {
    DistinctSize(q, nodes.Keys);
  }

  lemma InSubtree(nodes: map<NodeId, Node>, top: NodeId, keep: set<NodeId>, n: NodeId)
    requires n in nodes && Under(nodes, top, n, keep)
    ensures n in Subtree(nodes, top, keep)
  {
  }

  lemma NotElement(q: seq<NodeId>, x: NodeId)
    requires x !in q
    ensures x !in Elements(q)
  {
  }

  lemma GoodFacts(s: Index)
    requires Good(s)
    ensures Tree(s.nodes, s.root) && s.head in s.nodes && forall f | f in s.forkHeads :: f in s.nodes
  {
  }
}
