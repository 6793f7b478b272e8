/** The fork index as a state machine: indexed nodes with a parent, a revision and
    a final flag, one root, one head, and the set of fork heads. */
module ForkIndex {
  import opened StateLayers

  datatype Node = Node(parent: Option<NodeId>, revision: nat, final: bool)

  datatype Index = Index(nodes: map<NodeId, Node>, root: NodeId, head: NodeId, forkHeads: set<NodeId>)

  // --------------------------------------------------------------- invariant

  /** The node hangs one revision below an indexed parent. */
  predicate Hangs(nodes: map<NodeId, Node>, n: NodeId)
    requires n in nodes
  {
    var parent := nodes[n].parent;
    parent.Some? && parent.value in nodes && nodes[n].revision == nodes[parent.value].revision + 1
  }

  ghost predicate Tree(nodes: map<NodeId, Node>, root: NodeId) {
    && root in nodes && nodes[root].parent == None
    && forall n {:trigger Hangs(nodes, n)} | n in nodes && n != root :: Hangs(nodes, n)
  }

  predicate IsChild(nodes: map<NodeId, Node>, c: NodeId, p: NodeId) {
    c in nodes && nodes[c].parent == Some(p)
  }

  /** The head is final, and no final node has a greater revision. */
  predicate Highest(nodes: map<NodeId, Node>, head: NodeId) {
    && head in nodes && nodes[head].final
    && forall n | n in nodes && nodes[n].final :: nodes[n].revision <= nodes[head].revision
  }

  /** Every fork head is final and has no final child. */
  ghost predicate Tips(nodes: map<NodeId, Node>, forkHeads: set<NodeId>) {
    && (forall f | f in forkHeads :: f in nodes && nodes[f].final)
    && (forall f, c {:trigger IsChild(nodes, c, f)} | f in forkHeads && IsChild(nodes, c, f) :: !nodes[c].final)
  }

  ghost predicate Good(s: Index) {
    && Tree(s.nodes, s.root) && s.nodes[s.root].final
    && Highest(s.nodes, s.head)
    && Tips(s.nodes, s.forkHeads)
  }

  // -------------------------------------------------------------- operations

  function Opened(id: NodeId, revision: nat): Index {
    Index(map[id := Node(None, revision, true)], id, id, {id})
  }

  function WithChild(s: Index, parent: NodeId, id: NodeId): Index
    requires parent in s.nodes
  {
    s.(nodes := s.nodes[id := Node(Some(parent), s.nodes[parent].revision + 1, false)])
  }

  function WithClone(s: Index, node: NodeId, id: NodeId): Index
    requires node in s.nodes
  {
    s.(nodes := s.nodes[id := s.nodes[node]])
  }

  function ParentSet(s: Index, node: NodeId): set<NodeId>
    requires node in s.nodes
  {
    if s.nodes[node].parent.Some? then {s.nodes[node].parent.value} else {}
  }

  /** The node becomes final; on equal revisions the old head stays. */
  function Finalized(s: Index, node: NodeId): Index
    requires node in s.nodes && s.head in s.nodes
  {
    var head := if s.nodes[node].revision > s.nodes[s.head].revision then node else s.head;
    Index(s.nodes[node := s.nodes[node].(final := true)], s.root, head, s.forkHeads - ParentSet(s, node) + {head})
  }

  /** n is top, or hangs below it on a path that avoids the kept nodes. */
  predicate Under(nodes: map<NodeId, Node>, top: NodeId, n: NodeId, keep: set<NodeId>)
    requires n in nodes
    decreases nodes[n].revision
  {
    n == top ||
    (n !in keep && nodes[n].parent.Some? &&
     var p := nodes[n].parent.value;
     p in nodes && nodes[p].revision < nodes[n].revision && Under(nodes, top, p, keep))
  }

  function Subtree(nodes: map<NodeId, Node>, top: NodeId, keep: set<NodeId>): set<NodeId> {
    set n | n in nodes && Under(nodes, top, n, keep)
  }

  /** A path from top down to n, along parents, over indexed nodes that are not kept. */
  ghost predicate Path(nodes: map<NodeId, Node>, path: seq<NodeId>, keep: set<NodeId>) {
    forall i | 0 < i < |path| ::
      path[i] in nodes && path[i] !in keep && nodes[path[i]].parent == Some(path[i - 1])
  }

  /** What is removed with a node is what a path leads to. */
  lemma SubtreeIsReached(nodes: map<NodeId, Node>, root: NodeId, top: NodeId, keep: set<NodeId>, n: NodeId)
    requires Tree(nodes, root) && top in nodes
    ensures n in Subtree(nodes, top, keep) <==>
      n in nodes && exists path :: |path| >= 1 && path[0] == top && path[|path| - 1] == n && Path(nodes, path, keep)
  {
    if n in nodes && Under(nodes, top, n, keep) {
      var path := PathTo(nodes, top, n, keep);
    }
    if n in nodes {
      forall path | |path| >= 1 && path[0] == top && path[|path| - 1] == n && Path(nodes, path, keep)
        ensures Under(nodes, top, n, keep)
      {
        ReachedUnder(nodes, root, top, keep, path);
      }
    }
  }

  lemma {:induction false} PathTo(nodes: map<NodeId, Node>, top: NodeId, n: NodeId, keep: set<NodeId>)
      returns (path: seq<NodeId>)
    requires n in nodes && Under(nodes, top, n, keep)
    ensures |path| >= 1 && path[0] == top && path[|path| - 1] == n && Path(nodes, path, keep)
    decreases nodes[n].revision
  {
    if n == top {
      path := [n];
    } else {
      path := PathTo(nodes, top, nodes[n].parent.value, keep);
      path := path + [n];
    }
  }

  lemma {:induction false} ReachedUnder(nodes: map<NodeId, Node>, root: NodeId, top: NodeId, keep: set<NodeId>,
                                        path: seq<NodeId>)
    requires Tree(nodes, root) && top in nodes && |path| >= 1 && path[0] == top && Path(nodes, path, keep)
    ensures path[|path| - 1] in nodes && Under(nodes, top, path[|path| - 1], keep)
    decreases |path|
  {
    if |path| > 1 {
      var n := |path| - 1;
      ReachedUnder(nodes, root, top, keep, path[..n]);
      assert Hangs(nodes, path[n]);
    }
  }

  function Pruned(s: Index, node: NodeId, keep: set<NodeId>): Index
    requires node in s.nodes
  {
    var gone := Subtree(s.nodes, node, keep);
    s.(nodes := s.nodes - gone, forkHeads := s.forkHeads - gone - ParentSet(s, node))
  }

  /** Whether removing the node is refused. */
  predicate Protected(s: Index, node: NodeId, keep: set<NodeId>) {
    node == s.root || s.head in Subtree(s.nodes, node, keep)
  }

  // ------------------------------------------------- what every operation keeps

  lemma OpenedGood(id: NodeId, revision: nat)
    ensures Good(Opened(id, revision))
  {
  }

  /** A new node below an indexed parent, or beside an indexed sibling, keeps the tree. */
  lemma TreeGrows(nodes: map<NodeId, Node>, root: NodeId, id: NodeId, node: Node)
    requires Tree(nodes, root) && id !in nodes
    requires node.parent.Some? && node.parent.value in nodes && node.revision == nodes[node.parent.value].revision + 1
    ensures Tree(nodes[id := node], root)
  {
    var after := nodes[id := node];
    forall n | n in after && n != root
      ensures Hangs(after, n)
    {
      assert n != id ==> Hangs(nodes, n);
    }
  }

  lemma ChildGood(s: Index, parent: NodeId, id: NodeId)
    requires Good(s) && parent in s.nodes && id !in s.nodes
    ensures Good(WithChild(s, parent, id))
  {
    var t := WithChild(s, parent, id);
    TreeGrows(s.nodes, s.root, id, t.nodes[id]);
    hide Tree;
    forall f, c | f in t.forkHeads && IsChild(t.nodes, c, f)
      ensures !t.nodes[c].final
    {
      assert c != id ==> IsChild(s.nodes, c, f);
    }
  }

  /** Cloning keeps the invariant for every node but the root. */
  lemma CloneGood(s: Index, node: NodeId, id: NodeId)
    requires Good(s) && node in s.nodes && id !in s.nodes
    ensures Good(WithClone(s, node, id)) <==> node != s.root
  {
    var t := WithClone(s, node, id);
    if node != s.root {
      assert Hangs(s.nodes, node);
      TreeGrows(s.nodes, s.root, id, t.nodes[id]);
      hide Tree;
      forall f, c | f in t.forkHeads && IsChild(t.nodes, c, f)
        ensures !t.nodes[c].final
      {
        assert IsChild(s.nodes, if c == id then node else c, f);
      }
    } else {
      assert !Hangs(t.nodes, id);
    }
  }

  lemma FinalizedTree(nodes: map<NodeId, Node>, root: NodeId, node: NodeId)
    requires Tree(nodes, root) && node in nodes
    ensures Tree(nodes[node := nodes[node].(final := true)], root)
  {
    var after := nodes[node := nodes[node].(final := true)];
    forall n | n in after && n != root
      ensures Hangs(after, n)
    {
      assert Hangs(nodes, n);
    }
  }

  lemma FinalizedGood(s: Index, node: NodeId)
    requires Good(s) && node in s.nodes
    ensures Good(Finalized(s, node))
  {
    var t := Finalized(s, node);
    FinalizedTree(s.nodes, s.root, node);
    forall f, c | f in t.forkHeads && IsChild(t.nodes, c, f)
      ensures !t.nodes[c].final
    {
      assert IsChild(s.nodes, c, f);
      if f == t.head {
        assert c == s.root || Hangs(s.nodes, c);
      }
    }
  }

  /** The head outlives every removal, and removing a node removes everything below it. */
  lemma PrunedGood(s: Index, node: NodeId)
    requires Good(s) && node in s.nodes && !Protected(s, node, {})
    ensures Good(Pruned(s, node, {}))
  {
    var t := Pruned(s, node, {});
    forall n | n in t.nodes && n != t.root
      ensures Hangs(t.nodes, n)
    {
      assert Hangs(s.nodes, n);
      var p := s.nodes[n].parent.value;
      assert Under(s.nodes, node, p, {}) ==> Under(s.nodes, node, n, {});
    }
    assert forall f, c | f in t.forkHeads && IsChild(t.nodes, c, f) :: IsChild(s.nodes, c, f);
  }

  // -------------------------------------------------------------------- runs

  datatype Op =
    | MakeChild(node: NodeId, id: NodeId)
    | Clone(node: NodeId, id: NodeId)
    | Finalize(node: NodeId)
    | Discard(node: NodeId)

  /** One operation; one that throws, or names a node that is not indexed, changes nothing. */
  function Step(s: Index, op: Op): Index
    requires s.head in s.nodes
  {
    if op.node !in s.nodes then s
    else match op {
      case MakeChild(parent, id) => if id in s.nodes then s else WithChild(s, parent, id)
      case Clone(node, id) => if id in s.nodes then s else WithClone(s, node, id)
      case Finalize(node) => Finalized(s, node)
      case Discard(node) => if Protected(s, node, {}) then s else Pruned(s, node, {})
    }
  }

  lemma StepGood(s: Index, op: Op)
    requires Good(s) && (op.Clone? ==> op.node != s.root)
    ensures Good(Step(s, op)) && Step(s, op).root == s.root
  {
    if op.node in s.nodes {
      match op {
        case MakeChild(parent, id) => if id !in s.nodes { ChildGood(s, parent, id); }
        case Clone(node, id) => if id !in s.nodes { CloneGood(s, node, id); }
        case Finalize(node) => FinalizedGood(s, node);
        case Discard(node) => if !Protected(s, node, {}) { PrunedGood(s, node); }
      }
    }
  }

  /** The root is never cloned in this run. */
  predicate KeepsRoot(s: Index, ops: seq<Op>) {
    forall op | op in ops && op.Clone? :: op.node != s.root
  }

  ghost function Run(s: Index, ops: seq<Op>): (t: Index)
    requires Good(s) && KeepsRoot(s, ops)
    ensures Good(t)
    decreases |ops|
  {
    if ops == [] then s
    else
      StepGood(s, ops[0]);
      Run(Step(s, ops[0]), ops[1..])
  }

  /** The finalizations of a run, in order, with the revisions they had. */
  ghost function Finalizations(s: Index, ops: seq<Op>): seq<(NodeId, nat)>
    requires Good(s) && KeepsRoot(s, ops)
    decreases |ops|
  {
    if ops == [] then []
    else
      StepGood(s, ops[0]);
      (if ops[0].Finalize? && ops[0].node in s.nodes then [(ops[0].node, s.nodes[ops[0].node].revision)] else [])
      + Finalizations(Step(s, ops[0]), ops[1..])
  }

  /** One operation more is one step more, and one entry more in the log if it finalizes a node. */
  lemma {:induction false} RunSnoc(s: Index, ops: seq<Op>, op: Op)
    requires Good(s) && KeepsRoot(s, ops + [op])
    ensures KeepsRoot(s, ops) && Run(s, []) == s && Finalizations(s, []) == []
    ensures Run(s, ops + [op]) == Step(Run(s, ops), op)
    ensures var t := Run(s, ops);
      Finalizations(s, ops + [op]) ==
      Finalizations(s, ops) +
      if op.Finalize? && op.node in t.nodes then [(op.node, t.nodes[op.node].revision)] else []
    decreases |ops|
  {
    hide Tree, Tips, Step;
    assert forall o | o in ops :: o in ops + [op];
    assert op in ops + [op];
    if ops == [] {
      assert ops + [op] == [op] && [op][1..] == [];
      StepGood(s, op);
    } else {
      StepGood(s, ops[0]);
      assert (ops + [op])[1..] == ops[1..] + [op];
      RunSnoc(Step(s, ops[0]), ops[1..], op);
    }
  }

  /** k is the first place where the log reaches its greatest revision. */
  predicate FirstHighest(log: seq<(NodeId, nat)>, k: nat) {
    k < |log| && (forall j | 0 <= j < k :: log[j].1 < log[k].1) && (forall j | 0 <= j < |log| :: log[j].1 <= log[k].1)
  }

  ghost predicate HeadIsFirst(head: (NodeId, nat), log: seq<(NodeId, nat)>) {
    exists k: nat :: FirstHighest(log, k) && log[k] == head
  }

  lemma HeadAppend(head: (NodeId, nat), log: seq<(NodeId, nat)>, next: (NodeId, nat))
    requires HeadIsFirst(head, log)
    ensures HeadIsFirst(if next.1 > head.1 then next else head, log + [next])
  {
    var k: nat :| FirstHighest(log, k) && log[k] == head;
    if next.1 > head.1 {
      assert FirstHighest(log + [next], |log|);
    } else {
      assert FirstHighest(log + [next], k);
    }
  }

  ghost function HeadOf(s: Index): (NodeId, nat)
    requires s.head in s.nodes
  {
    (s.head, s.nodes[s.head].revision)
  }

  lemma StepHead(s: Index, op: Op)
    requires Good(s) && (op.Clone? ==> op.node != s.root)
    ensures Good(Step(s, op))
    ensures HeadOf(Step(s, op)) ==
      if op.Finalize? && op.node in s.nodes && s.nodes[op.node].revision > HeadOf(s).1
      then (op.node, s.nodes[op.node].revision) else HeadOf(s)
  {
    StepGood(s, op);
    hide Tree, Tips;
  }

  /** After any run the head is the first node to have been finalized with the greatest
      revision ever finalized; a node finalized later with the same revision loses. */
  lemma {:induction false} HeadFirstFinalized(s: Index, ops: seq<Op>, log: seq<(NodeId, nat)>)
    requires Good(s) && KeepsRoot(s, ops) && HeadIsFirst(HeadOf(s), log)
    ensures HeadIsFirst(HeadOf(Run(s, ops)), log + Finalizations(s, ops))
    decreases |ops|
  {
    hide Tree, Tips, Step, HeadIsFirst;
    if ops == [] {
      assert log + [] == log;
    } else {
      var op := ops[0];
      StepGood(s, op);
      StepHead(s, op);
      var t := Step(s, op);
      if op.Finalize? && op.node in s.nodes {
        var next := (op.node, s.nodes[op.node].revision);
        HeadAppend(HeadOf(s), log, next);
        HeadFirstFinalized(t, ops[1..], log + [next]);
        assert log + [next] + Finalizations(t, ops[1..]) == log + Finalizations(s, ops);
      } else {
        HeadFirstFinalized(t, ops[1..], log);
        var rest := Finalizations(t, ops[1..]);
        assert Finalizations(s, ops) == [] + rest == rest;
      }
    }
  }

  /** The same from the moment the index is opened. */
  lemma HeadAfterOpen(id: NodeId, revision: nat, ops: seq<Op>)
    requires KeepsRoot(Opened(id, revision), ops)
    ensures Good(Opened(id, revision))
    ensures HeadIsFirst(HeadOf(Run(Opened(id, revision), ops)),
                        [(id, revision)] + Finalizations(Opened(id, revision), ops))
  {
    OpenedGood(id, revision);
    assert FirstHighest([(id, revision)], 0);
    HeadFirstFinalized(Opened(id, revision), ops, [(id, revision)]);
  }

  // --------------------------------------------------------------- ancestors

  /** Revisions grow away from the root, which alone has the lowest one. */
  lemma {:induction false} AboveRoot(nodes: map<NodeId, Node>, root: NodeId, n: NodeId)
    requires Tree(nodes, root) && n in nodes
    ensures n == root || nodes[n].revision > nodes[root].revision
    decreases nodes[n].revision
  {
    if n != root {
      assert Hangs(nodes, n);
      AboveRoot(nodes, root, nodes[n].parent.value);
    }
  }

  /** The parent of an ancestor is an ancestor. */
  lemma {:induction false} AncestorUp(nodes: map<NodeId, Node>, a: NodeId, n: NodeId)
    requires a in nodes && n in nodes && Hangs(nodes, a) && Under(nodes, a, n, {})
    ensures Under(nodes, nodes[a].parent.value, n, {})
    decreases nodes[n].revision
  {
    if n != a {
      AncestorUp(nodes, a, nodes[n].parent.value);
    }
  }

  lemma {:induction false} AncestorLower(nodes: map<NodeId, Node>, a: NodeId, n: NodeId)
    requires a in nodes && n in nodes && Under(nodes, a, n, {})
    ensures a == n || nodes[a].revision < nodes[n].revision
    decreases nodes[n].revision
  {
    if n != a {
      AncestorLower(nodes, a, nodes[n].parent.value);
    }
  }

  /** A node has at most one ancestor of each revision. */
  lemma {:induction false} AncestorUnique(nodes: map<NodeId, Node>, a: NodeId, b: NodeId, n: NodeId)
    requires a in nodes && b in nodes && n in nodes && Under(nodes, a, n, {}) && Under(nodes, b, n, {})
    requires nodes[a].revision == nodes[b].revision
    ensures a == b
    decreases nodes[n].revision
  {
    AncestorLower(nodes, a, n);
    AncestorLower(nodes, b, n);
    if a != n && b != n {
      AncestorUnique(nodes, a, b, nodes[n].parent.value);
    }
  }
}
