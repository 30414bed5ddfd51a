/** The scheduler (StateGraph.py): a set of nodes, the operation that links two of them, and the
    choice of the next nodes to process, those marked nodes with no marked node above them. */
module Graphs {
  import opened Values
  import opened Paths
  import opened Nodes

  /** Some node reachable by one or more parent links is marked. */
  ghost predicate HasNotifiedAncestor(world: set<Node>, n: Node)
    reads world
  {
    exists a :: a in Ancestors(world, n) && a.notified
  }

  /** The parents of a node are in the world and have strictly fewer ancestors. */
  lemma ParentsShrink(world: set<Node>, n: Node)
    requires n in world && ParentClosed(world) && Acyclic(ParentMap(world))
    ensures forall p :: p in n.parents ==> p in world && Ancestors(world, p) < Ancestors(world, n)
  {
    var E := ParentMap(world);
    SnapshotParents(world);
    SuccAbove(E, n);
    forall p | p in n.parents ensures Ancestors(world, p) < Ancestors(world, n) {
      AboveShrinks(E, n, p);
    }
  }

  /** `has_higher_notified_ancestor`: asks each parent whether it or one of its ancestors is
      marked. It terminates because the parent links have no cycle. */
  function HasHigherNotifiedAncestor(n: Node, ghost world: set<Node>): (r: bool)
    reads world
    requires n in world && ParentClosed(world) && Acyclic(ParentMap(world))
    ensures r <==> HasNotifiedAncestor(world, n)
    decreases Ancestors(world, n)
  {
    ParentsShrink(world, n);
    var r := exists p :: p in n.parents && (p.notified || HasHigherNotifiedAncestor(p, world));
    AncestorsOfParents(world, n);
    r
  }

  /** The ancestors of a node are its parents and their ancestors. */
  lemma AncestorsOfParents(world: set<Node>, n: Node)
    requires n in world && ParentClosed(world)
    ensures HasNotifiedAncestor(world, n) <==>
      exists p :: p in n.parents && (p.notified || HasNotifiedAncestor(world, p))
  {
    var E := ParentMap(world);
    SnapshotParents(world);
    if a :| a in Ancestors(world, n) && a.notified {
      AboveUnfold(E, n, a);
      if a !in n.parents {
        var p :| p in Succ(E, n) && a in Above(E, p);
        assert HasNotifiedAncestor(world, p);
      }
    }
    if p :| p in n.parents && (p.notified || HasNotifiedAncestor(world, p)) {
      if p.notified {
        AboveUnfold(E, n, p);
      } else {
        var a :| a in Ancestors(world, p) && a.notified;
        AboveUnfold(E, n, a);
      }
    }
  }

  /** `nodeset_get_notified`. */
  function NotifiedNodes(nodes: set<Node>): (r: set<Node>)
    reads nodes
    ensures r <= nodes
    ensures forall n :: n in nodes ==> (n in r <==> n.notified)
  {
    set n | n in nodes && n.notified
  }

  /** The nodes that can be processed now: marked, with no marked node above them. */
  ghost function Frontier(world: set<Node>, nodes: set<Node>): set<Node>
    reads world
    requires nodes <= world
  {
    set n | n in nodes && n.notified && !HasNotifiedAncestor(world, n)
  }

  class StateGraph {
    var nodes: set<Node>

    constructor ()
      ensures nodes == {}
    {
      nodes := {};
    }

    /** `_add_node`: only a node with a state may join. */
    method AddNode(node: Node) returns (r: Outcome)
      modifies this
      ensures r == (if node.state.None? then Fail(AssertionError) else Pass)
      ensures nodes == if r.Pass? then old(nodes) + {node} else old(nodes)
    {
      if node.state.None? {
        return Fail(AssertionError);
      }
      nodes := nodes + {node};
      r := Pass;
    }

    /** `_check_cycle`: a depth-first search along child links that shares one `visited` set
        with its recursive calls. It answers whether `child` is reachable from `parent` in zero
        or more steps. When the answer is no, every node it newly visits has all its children
        visited. `E` is the child links of `world` as a map. */
    method CheckCycle(parent: Node, child: Node, visited: set<Node>, ghost world: set<Node>, ghost E: map<Node, set<Node>>)
      returns (found: bool, visitedOut: set<Node>)
      requires forall v :: v in world ==> Succ(E, v) == v.children
      requires ClosedUnder(E, world)
      requires parent in world && visited <= world
      requires parent !in visited && child !in visited
      ensures visited <= visitedOut <= world
      ensures found ==> Reach(E, parent, child)
      ensures !found ==> parent in visitedOut && child !in visitedOut
      ensures !found ==> forall v :: v in visitedOut - visited ==> v.children <= visitedOut
      decreases world - visited
    {
      if parent == child {
        ReachRefl(E, parent);
        return true, visited;
      }
      visitedOut := visited + {parent};
      var todo := parent.children;
      while todo != {}
        invariant todo <= parent.children
        invariant visited + {parent} <= visitedOut <= world
        invariant child !in visitedOut
        invariant parent.children - todo <= visitedOut
        invariant forall v :: v in visitedOut - visited - {parent} ==> v.children <= visitedOut
        decreases todo
      {
        var node :| node in todo;
        todo := todo - {node};
        if node in visitedOut {
          continue;
        }
        var f, vs := CheckCycle(node, child, visitedOut, world, E);
        if f {
          ReachPrepend(E, parent, node, child);
          return true, vs;
        }
        visitedOut := vs;
      }
      found := false;
    }

    /** `connect`: refuses a self-link, then (unless cycles are allowed) a link from `parent` to a
        node already reachable from it along child links. Otherwise it records the link on both
        nodes and adds the parent, then the child, to the graph; each addition fails when that
        node has no state, after the link is made. Parent and child links stay each other's
        mirror image. */
    method Connect(parent: Node, child: Node, allowCycle: bool, ghost world: set<Node>) returns (r: Outcome)
      requires parent in world && child in world && ChildClosed(world)
      modifies this, parent, child
      ensures parent == child ==> r == Fail(AssertionError)
      ensures parent != child ==>
        (r == Fail(CycleDetectedError) <==> !allowCycle && old(Reach(ChildMap(world), parent, child)))
      ensures parent == child || r == Fail(CycleDetectedError) ==>
        && nodes == old(nodes)
        && parent.children == old(parent.children) && child.parents == old(child.parents)
      ensures parent != child && r != Fail(CycleDetectedError) ==>
        Linked(parent, child, r) && nodes == old(nodes) + Added(parent, child)
      ensures parent.parents == old(parent.parents) || parent == child
      ensures child.children == old(child.children) || parent == child
      ensures NodesUnchanged(parent) && NodesUnchanged(child)
      ensures old(LinksMirrored(world)) ==> LinksMirrored(world)
      ensures ChildClosed(world) && (old(ParentClosed(world)) ==> ParentClosed(world))
    {
      if parent == child {
        return Fail(AssertionError);
      }
      ghost var E := ChildMap(world);
      SnapshotChildren(world);
      var hasCycle, seen := CheckCycle(parent, child, {}, world, E);
      if !hasCycle && Reach(E, parent, child) {
        assert ClosedUnder(E, seen);
        ClosedContainsReach(E, seen, parent, child);
      }
      if hasCycle && !allowCycle {
        return Fail(CycleDetectedError);
      }
      r := Link(parent, child, world);
    }

    /** The part of `connect` after the cycle check. */
    method Link(parent: Node, child: Node, ghost world: set<Node>) returns (r: Outcome)
      requires parent in world && child in world && ChildClosed(world) && parent != child
      modifies this, parent, child
      ensures Linked(parent, child, r) && nodes == old(nodes) + Added(parent, child)
      ensures parent.parents == old(parent.parents) && child.children == old(child.children)
      ensures NodesUnchanged(parent) && NodesUnchanged(child)
      ensures old(LinksMirrored(world)) ==> LinksMirrored(world)
      ensures ChildClosed(world) && (old(ParentClosed(world)) ==> ParentClosed(world))
      ensures ChildMap(world) == AddEdge(old(ChildMap(world)), parent, child)
    {
      AddLink(parent, child, world);
      r := AddNode(parent);
      if r.Pass? {
        r := AddNode(child);
      }
    }

    /** `connect` with the cycle check the other way round: a link from `parent` to `child`
        closes a cycle exactly when `parent` is already reachable from `child`. This check keeps
        the child links free of cycles, and lets an existing link be made again. */
    method ConnectAcyclic(parent: Node, child: Node, allowCycle: bool, ghost world: set<Node>) returns (r: Outcome)
      requires parent in world && child in world && ChildClosed(world)
      modifies this, parent, child
      ensures parent == child ==> r == Fail(AssertionError)
      ensures parent != child ==>
        (r == Fail(CycleDetectedError) <==> !allowCycle && old(Reach(ChildMap(world), child, parent)))
      ensures parent == child || r == Fail(CycleDetectedError) ==>
        && nodes == old(nodes)
        && parent.children == old(parent.children) && child.parents == old(child.parents)
      ensures parent != child && r != Fail(CycleDetectedError) ==>
        Linked(parent, child, r) && nodes == old(nodes) + Added(parent, child)
      ensures parent.parents == old(parent.parents) || parent == child
      ensures child.children == old(child.children) || parent == child
      ensures NodesUnchanged(parent) && NodesUnchanged(child)
      ensures old(LinksMirrored(world)) ==> LinksMirrored(world)
      ensures ChildClosed(world) && (old(ParentClosed(world)) ==> ParentClosed(world))
      ensures !allowCycle && old(Acyclic(ChildMap(world))) ==> Acyclic(ChildMap(world))
    {
      if parent == child {
        return Fail(AssertionError);
      }
      ghost var E := ChildMap(world);
      SnapshotChildren(world);
      var hasCycle, seen := CheckCycle(child, parent, {}, world, E);
      if !hasCycle && Reach(E, child, parent) {
        assert ClosedUnder(E, seen);
        ClosedContainsReach(E, seen, child, parent);
      }
      if hasCycle && !allowCycle {
        return Fail(CycleDetectedError);
      }
      if !hasCycle && Acyclic(E) {
        AddEdgeKeepsAcyclic(E, parent, child);
      }
      r := Link(parent, child, world);
    }

    /** `notify_all`: marks every node of the graph, and nothing else changes. */
    method NotifyAll()
      modifies nodes
      ensures forall n :: n in nodes ==> n.notified
      ensures OnlyFlags(nodes)
    {
      var todo := nodes;
      while todo != {}
        invariant todo <= nodes
        invariant OnlyFlags(nodes)
        invariant forall n :: n in nodes && n !in todo ==> n.notified
        decreases todo
      {
        var n :| n in todo;
        n.Notify();
        todo := todo - {n};
      }
    }

    /** `next_batch`: the marked nodes of the graph with no marked node above them. `world` is a
        set of nodes closed under parent links, without cycles, that holds the graph. */
    method NextBatch(ghost world: set<Node>) returns (batch: set<Node>)
      requires nodes <= world && ParentClosed(world) && Acyclic(ParentMap(world))
      ensures batch == Frontier(world, nodes)
    {
      var allNotified := NotifiedNodes(nodes);
      batch := {};
      var todo := allNotified;
      while todo != {}
        invariant todo <= allNotified
        invariant forall n :: n in batch <==> n in allNotified - todo && !HasNotifiedAncestor(world, n)
        decreases todo
      {
        var n :| n in todo;
        todo := todo - {n};
        if !HasHigherNotifiedAncestor(n, world) {
          batch := batch + {n};
        }
      }
    }
  }

  /** `parent._children.add(child)` and `child._parents.add(parent)`. */
  method AddLink(parent: Node, child: Node, ghost world: set<Node>)
    requires parent in world && child in world && ChildClosed(world) && parent != child
    modifies parent, child
    ensures parent.children == old(parent.children) + {child} && child.parents == old(child.parents) + {parent}
    ensures parent.parents == old(parent.parents) && child.children == old(child.children)
    ensures NodesUnchanged(parent) && NodesUnchanged(child)
    ensures old(LinksMirrored(world)) ==> LinksMirrored(world)
    ensures ChildClosed(world) && (old(ParentClosed(world)) ==> ParentClosed(world))
    ensures ChildMap(world) == AddEdge(old(ChildMap(world)), parent, child)
  {
    ghost var before := ChildMap(world);
    SnapshotChildren(world);
    parent.children := parent.children + {child};
    child.parents := child.parents + {parent};
    SnapshotChildren(world);
    assert ChildMap(world) == AddEdge(before, parent, child);
  }

  /** What `connect` adds to the graph: the parent if it has a state, then the child if it has
      one too. */
  function Added(parent: Node, child: Node): set<Node>
    reads parent, child
  {
    if parent.state.None? then {} else if child.state.None? then {parent} else {parent, child}
  }

  /** A node's state, loaded state, mark and kind did not change. */
  twostate predicate NodesUnchanged(n: Node)
    reads n
  {
    n.state == old(n.state) && n.prevState == old(n.prevState) && n.notified == old(n.notified)
  }

  /** The link is recorded on both sides, and the graph gained the parent, then the child, as
      far as each has a state. */
  twostate predicate Linked(parent: Node, child: Node, r: Outcome)
    reads parent, child
  {
    && parent.children == old(parent.children) + {child}
    && child.parents == old(child.parents) + {parent}
    && r == (if parent.state.None? || child.state.None? then Fail(AssertionError) else Pass)
  }

  /** With `connect`'s check as written, linking a pair that is already linked is refused: the
      child is reachable from the parent. */
  lemma ExistingLinkIsReported(world: set<Node>, parent: Node, child: Node)
    requires parent in world && child in parent.children
    ensures Reach(ChildMap(world), parent, child)
  {
    var E := ChildMap(world);
    SnapshotChildren(world);
    ReachRefl(E, child);
    ReachPrepend(E, parent, child, child);
  }

  /** With `connect`'s check as written, a link that merely shortcuts a chain `a -> b -> c` is
      refused: `c` is already reachable from `a`. The graph `a -> b`, `b -> c`, `a -> c` has no
      cycle, yet a snapshot of it fails to load when the pair `a -> c` is replayed last. */
  lemma TransitiveLinkIsReported(world: set<Node>, a: Node, b: Node, c: Node)
    requires a in world && b in world && b in a.children && c in b.children
    ensures Reach(ChildMap(world), a, c)
  {
    var E := ChildMap(world);
    SnapshotChildren(world);
    ReachRefl(E, c);
    ReachPrepend(E, b, c, c);
    ReachPrepend(E, a, b, c);
  }

  /** With `connect`'s check as written, closing a chain `a -> ... -> c` with `c -> a` passes the
      check (`a` is not reachable from `c`), and the new link makes a cycle. */
  lemma ClosingChainIsNotReported<T>(E: map<T, set<T>>, a: T, c: T)
    requires Acyclic(E) && a != c && Reach(E, a, c)
    ensures !Reach(E, c, a)
    ensures !Acyclic(AddEdge(E, c, a))
  {
    ReachCases(E, a, c);
    if Reach(E, c, a) {
      StrictReachTrans(E, a, c, a);
    }
    AddEdgeClosesCycle(E, c, a);
  }

  /** With the corrected check, making an existing link again is accepted in a graph without
      cycles. */
  lemma ExistingLinkIsAccepted(world: set<Node>, parent: Node, child: Node)
    requires parent in world && child in parent.children && Acyclic(ChildMap(world))
    ensures !Reach(ChildMap(world), child, parent)
  {
    var E := ChildMap(world);
    SnapshotChildren(world);
    if Reach(E, child, parent) {
      ReachPrepend(E, parent, child, parent);
    }
  }

  /** When parent and child links mirror each other, one side has a cycle exactly when the
      other has. */
  lemma AcyclicBothWays(world: set<Node>)
    requires LinksMirrored(world) && ParentClosed(world) && ChildClosed(world)
    ensures Acyclic(ChildMap(world)) <==> Acyclic(ParentMap(world))
  {
    var C, P := ChildMap(world), ParentMap(world);
    SnapshotChildren(world);
    SnapshotParents(world);
    assert Mirrored(C, P, world);
    assert Mirrored(P, C, world);
    if Acyclic(C) {
      AcyclicReverse(P, C, world);
    }
    if Acyclic(P) {
      AcyclicReverse(C, P, world);
    }
  }

  /** Two nodes of one batch are never one above the other. */
  lemma BatchIsAntichain(world: set<Node>, nodes: set<Node>, a: Node, b: Node)
    requires nodes <= world && a in Frontier(world, nodes) && b in Frontier(world, nodes)
    ensures a !in Ancestors(world, b)
  {
  }

  /** Every marked node of a graph closed under parent links lies below a node of the batch, or
      is one. */
  lemma {:induction false} BatchCovers(world: set<Node>, nodes: set<Node>, n: Node) returns (h: Node)
    requires nodes <= world && ParentClosed(world) && Acyclic(ParentMap(world))
    requires forall m :: m in nodes ==> m.parents <= nodes
    requires n in nodes && n.notified
    ensures h in Frontier(world, nodes)
    ensures h == n || h in Ancestors(world, n)
    decreases Ancestors(world, n)
  {
    if HasNotifiedAncestor(world, n) {
      var E := ParentMap(world);
      var a :| a in Ancestors(world, n) && a.notified;
      SnapshotParents(world);
      AboveWithin(E, n, nodes);
      AboveShrinks(E, n, a);
      h := BatchCovers(world, nodes, a);
      assert Ancestors(world, a) < Ancestors(world, n);
    } else {
      h := n;
    }
  }

  /** On a graph closed under parent links and without cycles, the batch is empty exactly when
      no node is marked. */
  lemma BatchEmptyIffQuiet(world: set<Node>, nodes: set<Node>)
    requires nodes <= world && ParentClosed(world) && Acyclic(ParentMap(world))
    requires forall m :: m in nodes ==> m.parents <= nodes
    ensures Frontier(world, nodes) == {} <==> NotifiedNodes(nodes) == {}
  {
    if n :| n in nodes && n.notified {
      var h := BatchCovers(world, nodes, n);
    }
  }
}
