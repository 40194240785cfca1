/** Finite directed graphs given as adjacency sets: `g[a]` holds everything `a` depends on.
    The results below say which nodes can never be taken away when a node may only go once
    nothing points to it any more: exactly those that lie on, or are reachable from, a cycle. */
module DependencyGraph {
  type Graph = map<int, set<int>>

  predicate Edge(g: Graph, a: int, b: int) {
    a in g && b in g[a]
  }

  /** All nodes `a` has an edge to. */
  function DependenciesOf(g: Graph, a: int): set<int> {
    if a in g then g[a] else {}
  }

  /** All nodes with an edge into `b`. */
  function Dependents(g: Graph, b: int): set<int> {
    set a | a in g && Edge(g, a, b)
  }

  /** The graph with one more edge. */
  function AddEdge(g: Graph, a: int, b: int): (h: Graph)
    ensures forall x, y :: Edge(h, x, y) <==> Edge(g, x, y) || (x == a && y == b)
  {
    g[a := DependenciesOf(g, a) + {b}]
  }

  /** The graph without a node's outgoing edges. */
  function DropEdges(g: Graph, a: int): (h: Graph)
    ensures forall x, y :: Edge(h, x, y) <==> Edge(g, x, y) && x != a
  {
    g - {a}
  }

  /** The graph without the edge from `a` to itself. */
  function DropSelfEdge(g: Graph, a: int): (h: Graph)
    ensures forall x, y :: Edge(h, x, y) <==> Edge(g, x, y) && !(x == a && y == a)
  {
    if a in g then g[a := g[a] - {a}] else g
  }

  ghost predicate EdgesWithin(g: Graph, ids: set<int>) {
    forall a, b :: Edge(g, a, b) ==> a in ids && b in ids
  }

  ghost predicate Walk(g: Graph, p: seq<int>) {
    |p| >= 1 && forall i, j :: 0 <= i && j == i + 1 && j < |p| ==> Edge(g, p[i], p[j])
  }

  ghost predicate OnCycle(g: Graph, a: int) {
    exists p: seq<int> :: Walk(g, p) && |p| >= 2 && p[0] == a && p[|p| - 1] == a
  }

  ghost predicate Acyclic(g: Graph) {
    forall a :: !OnCycle(g, a)
  }

  /** `b` lies on a cycle or is reachable from one. */
  ghost predicate Stuck(g: Graph, b: int) {
    exists p: seq<int> :: Walk(g, p) && OnCycle(g, p[0]) && p[|p| - 1] == b
  }

  /** Some member of `s` has an edge into `x`. */
  ghost predicate HasPredecessorIn(g: Graph, s: set<int>, x: int) {
    exists y :: y in s && Edge(g, y, x)
  }

  ghost predicate BackwardClosed(g: Graph, s: set<int>) {
    forall x {:trigger HasPredecessorIn(g, s, x)} :: x in s ==> HasPredecessorIn(g, s, x)
  }

  /** More than |s| values drawn from s repeat. */
  lemma {:induction false} Pigeonhole(p: seq<int>, s: set<int>)
    requires forall i :: 0 <= i < |p| ==> p[i] in s
    requires |p| > |s|
    ensures exists i, j :: 0 <= i < j < |p| && p[i] == p[j]
  {
    var last := p[|p| - 1];
    if i :| 0 <= i < |p| - 1 && p[i] == last {
    } else {
      var front, rest := p[..|p| - 1], s - {last};
      assert |rest| == |s| - 1;
      Pigeonhole(front, rest);
      var i, j :| 0 <= i < j < |front| && front[i] == front[j];
      assert p[i] == p[j];
    }
  }

  /** In a set where every node has a predecessor, walks can be extended backwards for ever. */
  lemma {:induction false} BackwardWalk(g: Graph, s: set<int>, b: int, n: nat) returns (p: seq<int>)
    requires b in s
    requires BackwardClosed(g, s)
    ensures |p| == n + 1 && Walk(g, p) && p[n] == b
    ensures forall i :: 0 <= i < |p| ==> p[i] in s
  {
    if n == 0 {
      p := [b];
    } else {
      var q := BackwardWalk(g, s, b, n - 1);
      assert HasPredecessorIn(g, s, q[0]);
      var y :| y in s && Edge(g, y, q[0]);
      p := [y] + q;
    }
  }

  lemma WalkSlice(g: Graph, p: seq<int>, lo: nat, hi: nat)
    requires Walk(g, p) && lo < hi <= |p|
    ensures var q := p[lo..hi]; Walk(g, q) && q[0] == p[lo] && q[|q| - 1] == p[hi - 1]
  {
  }

  /** A set in which every node has a predecessor consists of stuck nodes. */
  lemma BackwardClosedIsStuck(g: Graph, s: set<int>, b: int)
    requires b in s
    requires BackwardClosed(g, s)
    ensures Stuck(g, b)
  {
    var p := BackwardWalk(g, s, b, |s|);
    Pigeonhole(p, s);
    var i, j :| 0 <= i < j < |p| && p[i] == p[j];
    WalkSlice(g, p, i, j + 1);
    assert OnCycle(g, p[i]);
    WalkSlice(g, p, i, |p|);
    assert p[i..|p|][0] == p[i];
  }

  /** Every stuck node has a stuck predecessor, so it can never be the first of them to go. */
  lemma StuckHasStuckPredecessor(g: Graph, b: int) returns (y: int)
    requires Stuck(g, b)
    ensures Edge(g, y, b) && Stuck(g, y)
  {
    var p :| Walk(g, p) && OnCycle(g, p[0]) && p[|p| - 1] == b;
    if |p| == 1 {
      var q :| Walk(g, q) && |q| >= 2 && q[0] == b && q[|q| - 1] == b;
      p := q;
    }
    y := p[|p| - 2];
    var front := p[..|p| - 1];
    assert Walk(g, front) && front[0] == p[0] && front[|front| - 1] == y;
    assert Edge(g, p[|p| - 2], p[|p| - 1]);
  }

  /** Adding edges keeps a stuck node stuck. */
  lemma StuckMonotone(small: Graph, big: Graph, b: int)
    requires forall x, y :: Edge(small, x, y) ==> Edge(big, x, y)
    requires Stuck(small, b)
    ensures Stuck(big, b)
  {
    var p :| Walk(small, p) && OnCycle(small, p[0]) && p[|p| - 1] == b;
    var q :| Walk(small, q) && |q| >= 2 && q[0] == p[0] && q[|q| - 1] == p[0];
    assert Walk(big, p) && Walk(big, q);
    assert OnCycle(big, p[0]);
  }

  /** A new edge adds one dependent, at its target. */
  lemma AddEdgeDependents(g: Graph, a: int, b: int, id: int)
    requires !Edge(g, a, b)
    ensures |Dependents(AddEdge(g, a, b), id)| == |Dependents(g, id)| + if id == b then 1 else 0
  {
    var added := if id == b then {a} else {};
    assert Dependents(AddEdge(g, a, b), id) == Dependents(g, id) + added;
    assert Dependents(g, id) !! added;
  }

  /** Dropping a node's edges takes one dependent from each of its targets. */
  lemma DropEdgesDependents(g: Graph, a: int, id: int)
    ensures |Dependents(DropEdges(g, a), id)| == |Dependents(g, id)| - if Edge(g, a, id) then 1 else 0
  {
    var dropped := if Edge(g, a, id) then {a} else {};
    assert Dependents(DropEdges(g, a), id) == Dependents(g, id) - dropped;
  }

  /** Another edge can be added before or after. */
  lemma DropSelfEdgeCommutes(g: Graph, n: int, a: int, b: int)
    requires a != n || b != n
    ensures DropSelfEdge(AddEdge(g, a, b), n) == AddEdge(DropSelfEdge(g, n), a, b)
  {
    var l, r := DropSelfEdge(AddEdge(g, a, b), n), AddEdge(DropSelfEdge(g, n), a, b);
    if a == n {
      assert DependenciesOf(g, n) + {b} - {n} == DependenciesOf(g, n) - {n} + {b};
      assert n !in g ==> {} + {b} - {n} == {} + {b};
    }
    assert l.Keys == r.Keys && forall x :: x in l ==> l[x] == r[x];
  }

  /** Dropping a self-edge takes one dependent from its node. */
  lemma DropSelfEdgeDependents(g: Graph, a: int, id: int)
    ensures |Dependents(DropSelfEdge(g, a), id)| == |Dependents(g, id)| - if id == a && Edge(g, a, a) then 1 else 0
  {
    var dropped := if id == a && Edge(g, a, a) then {a} else {};
    assert Dependents(DropSelfEdge(g, a), id) == Dependents(g, id) - dropped;
  }

  /** A graph has no stuck node exactly when it has no cycle. */
  lemma NoStuckIffAcyclic(g: Graph)
    ensures Acyclic(g) <==> forall b :: !Stuck(g, b)
  {
    forall a | OnCycle(g, a)
      ensures Stuck(g, a)
    {
      assert Walk(g, [a]) && OnCycle(g, [a][0]);
    }
  }
}
