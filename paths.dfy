/** Reachability in a directed graph given as a successor map. The engine's edges live on the
    nodes (`_children`, `_parents`); the graph operations reason about a snapshot of them taken
    as such a map. */
module Paths {

  /** The successors of `a` (none when `a` is not a key). */
  function Succ<T>(E: map<T, set<T>>, a: T): set<T> {
    if a in E then E[a] else {}
  }

  /** A non-empty sequence of vertices, each a successor of the one before. */
  ghost predicate IsPath<T>(E: map<T, set<T>>, p: seq<T>) {
    |p| >= 1 && forall i :: 0 <= i < |p| - 1 ==> p[i] in E && p[i + 1] in E[p[i]]
  }

  ghost predicate PathFromTo<T>(E: map<T, set<T>>, older p: seq<T>, a: T, b: T) {
    IsPath(E, p) && p[0] == a && p[|p| - 1] == b
  }

  /** `b` can be reached from `a` in zero or more steps. */
  ghost predicate Reach<T>(E: map<T, set<T>>, a: T, b: T) {
    exists p :: PathFromTo(E, p, a, b)
  }

  /** `b` can be reached from `a` in one or more steps. */
  ghost predicate StrictReach<T>(E: map<T, set<T>>, a: T, b: T) {
    exists c :: c in Succ(E, a) && Reach(E, c, b)
  }

  /** No vertex reaches itself in one or more steps (a vertex with no successors cannot). */
  ghost predicate Acyclic<T>(E: map<T, set<T>>) {
    forall n :: n in E ==> !StrictReach(E, n, n)
  }

  /** Every successor of a member of `S` is a member of `S`. */
  ghost predicate ClosedUnder<T>(E: map<T, set<T>>, S: set<T>) {
    forall v :: v in S ==> Succ(E, v) <= S
  }

  /** The graph with one more edge `x -> y`. */
  function AddEdge<T>(E: map<T, set<T>>, x: T, y: T): (E': map<T, set<T>>)
    ensures Succ(E', x) == Succ(E, x) + {y}
    ensures E'.Keys == E.Keys + {x}
    ensures forall v :: v in E && v != x ==> E'[v] == E[v]
  {
    E[x := Succ(E, x) + {y}]
  }

  lemma ReachRefl<T>(E: map<T, set<T>>, a: T)
    ensures Reach(E, a, a)
  {
    assert PathFromTo(E, [a], a, a);
  }

  lemma ReachPrepend<T>(E: map<T, set<T>>, a: T, c: T, b: T)
    requires c in Succ(E, a) && Reach(E, c, b)
    ensures Reach(E, a, b) && StrictReach(E, a, b)
  {
    var p :| PathFromTo(E, p, c, b);
    var q := [a] + p;
    assert forall i :: 0 <= i < |q| - 1 ==> q[i + 1] in Succ(E, q[i]) by {
      forall i | 0 <= i < |q| - 1 ensures q[i + 1] in Succ(E, q[i]) {
        if i > 0 { assert q[i] == p[i - 1] && q[i + 1] == p[i]; }
      }
    }
    assert PathFromTo(E, q, a, b);
  }

  lemma ReachAppend<T>(E: map<T, set<T>>, a: T, b: T, c: T)
    requires Reach(E, a, b) && c in Succ(E, b)
    ensures Reach(E, a, c)
  {
    var p :| PathFromTo(E, p, a, b);
    var q := p + [c];
    assert forall i :: 0 <= i < |q| - 1 ==> q[i + 1] in Succ(E, q[i]) by {
      forall i | 0 <= i < |q| - 1 ensures q[i + 1] in Succ(E, q[i]) {
        if i < |p| - 1 { assert q[i] == p[i] && q[i + 1] == p[i + 1]; }
      }
    }
    assert PathFromTo(E, q, a, c);
  }

  lemma StrictReachIsReach<T>(E: map<T, set<T>>, a: T, b: T)
    requires StrictReach(E, a, b)
    ensures Reach(E, a, b)
  {
    var c :| c in Succ(E, a) && Reach(E, c, b);
    ReachPrepend(E, a, c, b);
  }

  /** A path of one or more vertices is either the single vertex or a first step and the rest. */
  lemma ReachCases<T>(E: map<T, set<T>>, a: T, b: T)
    requires Reach(E, a, b)
    ensures a == b || StrictReach(E, a, b)
  {
    var p :| PathFromTo(E, p, a, b);
    if |p| > 1 {
      assert PathFromTo(E, p[1..], p[1], b);
    }
  }

  lemma {:induction false} ReachTrans<T>(E: map<T, set<T>>, a: T, b: T, c: T)
    requires Reach(E, a, b) && Reach(E, b, c)
    ensures Reach(E, a, c)
  {
    var p :| PathFromTo(E, p, a, b);
    var q :| PathFromTo(E, q, b, c);
    var r := p + q[1..];
    assert forall i :: 0 <= i < |r| - 1 ==> r[i + 1] in Succ(E, r[i]) by {
      forall i | 0 <= i < |r| - 1 ensures r[i + 1] in Succ(E, r[i]) {
        if i < |p| - 1 {
          assert r[i] == p[i] && r[i + 1] == p[i + 1];
        } else {
          assert r[i] == q[i - |p| + 1] && r[i + 1] == q[i - |p| + 2];
        }
      }
    }
    assert PathFromTo(E, r, a, c);
  }

  lemma StrictReachTrans<T>(E: map<T, set<T>>, a: T, b: T, c: T)
    requires StrictReach(E, a, b) && Reach(E, b, c)
    ensures StrictReach(E, a, c)
  {
    var d :| d in Succ(E, a) && Reach(E, d, b);
    ReachTrans(E, d, b, c);
  }

  /** Following one more edge from a strict descendant gives a strict descendant. */
  lemma StrictReachExtend<T>(E: map<T, set<T>>, a: T, b: T, c: T)
    requires StrictReach(E, a, b) && c in Succ(E, b)
    ensures StrictReach(E, a, c)
  {
    ReachRefl(E, c);
    ReachPrepend(E, b, c, c);
    StrictReachIsReach(E, b, c);
    StrictReachTrans(E, a, b, c);
  }

  lemma {:induction false} PathStaysIn<T>(E: map<T, set<T>>, S: set<T>, p: seq<T>, i: nat)
    requires IsPath(E, p) && p[0] in S && ClosedUnder(E, S) && i < |p|
    ensures p[i] in S
  {
    if i > 0 {
      PathStaysIn(E, S, p, i - 1);
    }
  }

  /** A set closed under successors holds everything reachable from its members. */
  lemma ClosedContainsReach<T>(E: map<T, set<T>>, S: set<T>, a: T, b: T)
    requires a in S && ClosedUnder(E, S) && Reach(E, a, b)
    ensures b in S
  {
    var p :| PathFromTo(E, p, a, b);
    PathStaysIn(E, S, p, |p| - 1);
  }

  /** `E` and `F` are each other's reverse on `U`. */
  ghost predicate Mirrored<T>(E: map<T, set<T>>, F: map<T, set<T>>, U: set<T>) {
    forall x, y :: x in U && y in U ==> (y in Succ(E, x) <==> x in Succ(F, y))
  }

  lemma {:induction false} PathReverse<T>(E: map<T, set<T>>, F: map<T, set<T>>, U: set<T>, p: seq<T>)
    requires Mirrored(E, F, U) && ClosedUnder(E, U) && IsPath(E, p) && p[0] in U
    ensures Reach(F, p[|p| - 1], p[0])
    decreases |p|
  {
    if |p| == 1 {
      ReachRefl(F, p[0]);
    } else {
      var q := p[1..];
      assert IsPath(E, q);
      assert p[1] in U;
      PathReverse(E, F, U, q);
      assert p[0] in Succ(F, p[1]);
      ReachAppend(F, p[|p| - 1], p[1], p[0]);
    }
  }

  /** On a closed set where `F` is the reverse of `E`, reachability in `E` is reachability in `F`
      read backwards. */
  lemma ReachReverse<T>(E: map<T, set<T>>, F: map<T, set<T>>, U: set<T>, a: T, b: T)
    requires Mirrored(E, F, U) && ClosedUnder(E, U) && a in U && Reach(E, a, b)
    ensures Reach(F, b, a)
  {
    var p :| PathFromTo(E, p, a, b);
    PathReverse(E, F, U, p);
  }

  lemma {:induction false} AddEdgePath<T>(E: map<T, set<T>>, x: T, y: T, p: seq<T>)
    requires IsPath(AddEdge(E, x, y), p)
    ensures Reach(E, p[0], p[|p| - 1]) || (Reach(E, p[0], x) && Reach(E, y, p[|p| - 1]))
    decreases |p|
  {
    var E' := AddEdge(E, x, y);
    var a, b := p[0], p[|p| - 1];
    if |p| == 1 {
      ReachRefl(E, a);
    } else {
      var q := p[1..];
      assert IsPath(E', q);
      AddEdgePath(E, x, y, q);
      if p[1] in Succ(E, a) {
        if Reach(E, p[1], b) {
          ReachPrepend(E, a, p[1], b);
        } else {
          ReachPrepend(E, a, p[1], x);
        }
      } else {
        assert a == x && p[1] == y;
        ReachRefl(E, x);
        if Reach(E, y, x) && Reach(E, y, b) {
        } else {
          assert Reach(E, y, b);
        }
      }
    }
  }

  /** A path that uses the new edge `x -> y` runs from its start to `x` and from `y` to its end. */
  lemma AddEdgeStrictReach<T>(E: map<T, set<T>>, x: T, y: T, a: T, b: T)
    requires StrictReach(AddEdge(E, x, y), a, b)
    ensures StrictReach(E, a, b) || (Reach(E, a, x) && Reach(E, y, b))
  {
    var E' := AddEdge(E, x, y);
    var c :| c in Succ(E', a) && Reach(E', c, b);
    var p :| PathFromTo(E', p, c, b);
    AddEdgePath(E, x, y, p);
    if c in Succ(E, a) {
      if Reach(E, c, b) {
        ReachPrepend(E, a, c, b);
      } else {
        ReachPrepend(E, a, c, x);
        StrictReachIsReach(E, a, x);
      }
    } else {
      assert a == x && c == y;
      ReachRefl(E, x);
    }
  }

  /** Adding `x -> y` to an acyclic graph keeps it acyclic exactly when `y` does not already reach
      `x`: the textbook cycle check. */
  lemma AddEdgeKeepsAcyclic<T>(E: map<T, set<T>>, x: T, y: T)
    requires Acyclic(E) && !Reach(E, y, x)
    ensures Acyclic(AddEdge(E, x, y))
  {
    var E' := AddEdge(E, x, y);
    forall n | n in E' ensures !StrictReach(E', n, n) {
      if StrictReach(E', n, n) {
        AddEdgeStrictReach(E, x, y, n, n);
        if Reach(E, n, x) && Reach(E, y, n) {
          ReachTrans(E, y, n, x);
        }
      }
    }
  }

  lemma AddEdgeClosesCycle<T>(E: map<T, set<T>>, x: T, y: T)
    requires Reach(E, y, x)
    ensures !Acyclic(AddEdge(E, x, y))
  {
    var E' := AddEdge(E, x, y);
    var p :| PathFromTo(E, p, y, x);
    assert forall i :: 0 <= i < |p| - 1 ==> p[i + 1] in Succ(E', p[i]);
    assert PathFromTo(E', p, y, x);
    ReachAppend(E', y, x, y);
    ReachPrepend(E', x, y, x);
  }

  /** The vertices reachable from `n` in one or more steps (among the keys of `E`). */
  ghost function Above<T>(E: map<T, set<T>>, n: T): set<T> {
    set a | a in E && StrictReach(E, n, a)
  }

  lemma SuccAbove<T>(E: map<T, set<T>>, n: T)
    requires Succ(E, n) <= E.Keys
    ensures Succ(E, n) <= Above(E, n)
  {
    forall p | p in Succ(E, n) ensures p in Above(E, n) {
      ReachRefl(E, p);
      ReachPrepend(E, n, p, p);
    }
  }

  /** The successors of a vertex above `n` are above `n`. */
  lemma AboveStep<T>(E: map<T, set<T>>, n: T, a: T)
    requires a in Above(E, n) && Succ(E, a) <= E.Keys
    ensures Succ(E, a) <= Above(E, n)
  {
    forall p | p in Succ(E, a) ensures p in Above(E, n) {
      StrictReachExtend(E, n, a, p);
    }
  }

  /** A set closed under successors that holds the successors of `n` holds everything above `n`. */
  lemma AboveWithin<T>(E: map<T, set<T>>, n: T, S: set<T>)
    requires Succ(E, n) <= S && ClosedUnder(E, S)
    ensures Above(E, n) <= S
  {
    forall a | a in Above(E, n) ensures a in S {
      var c :| c in Succ(E, n) && Reach(E, c, a);
      ClosedContainsReach(E, S, c, a);
    }
  }

  /** In an acyclic graph, what lies above a vertex above `n` is a strict part of what lies
      above `n`. */
  lemma AboveShrinks<T>(E: map<T, set<T>>, n: T, a: T)
    requires Acyclic(E) && a in Above(E, n)
    ensures Above(E, a) < Above(E, n)
  {
    forall x | x in Above(E, a) ensures x in Above(E, n) {
      StrictReachIsReach(E, a, x);
      StrictReachTrans(E, n, a, x);
    }
    assert a !in Above(E, a);
  }

  /** What lies above `n`: its successors and what lies above them. */
  lemma AboveUnfold<T>(E: map<T, set<T>>, n: T, a: T)
    requires Succ(E, n) <= E.Keys
    ensures a in Above(E, n) <==> a in Succ(E, n) || exists p :: p in Succ(E, n) && a in Above(E, p)
  {
    if a in Above(E, n) {
      var c :| c in Succ(E, n) && Reach(E, c, a);
      ReachCases(E, c, a);
      if c != a {
        assert a in Above(E, c);
      }
    }
    if a in Succ(E, n) {
      SuccAbove(E, n);
    }
    if p :| p in Succ(E, n) && a in Above(E, p) {
      StrictReachIsReach(E, p, a);
      ReachPrepend(E, n, p, a);
    }
  }

  /** Reversing every edge keeps a graph acyclic. */
  lemma AcyclicReverse<T>(E: map<T, set<T>>, F: map<T, set<T>>, U: set<T>)
    requires Mirrored(E, F, U) && ClosedUnder(E, U) && E.Keys <= U && F.Keys <= U && Acyclic(F)
    ensures Acyclic(E)
  {
    forall n | n in E ensures !StrictReach(E, n, n) {
      if StrictReach(E, n, n) {
        var c :| c in Succ(E, n) && Reach(E, c, n);
        ReachReverse(E, F, U, c, n);
        assert n in Succ(F, c);
        ReachPrepend(F, c, n, c);
      }
    }
  }
}
