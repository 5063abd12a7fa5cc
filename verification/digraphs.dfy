/**
 * The directed graph seen as an edge relation: `E[u]` lists the identifiers of the
 * targets of u's outgoing edges. Paths, reachability and cycles are defined here once
 * and used by every traversal.
 */
module Digraphs {

  /** Every edge target is itself a vertex (no edge dangles). */
  predicate EdgesInGraph(E: map<int, seq<int>>) {
    forall u, j :: u in E && 0 <= j < |E[u]| ==> E[u][j] in E
  }

  ghost predicate Edge(E: map<int, seq<int>>, u: int, v: int) {
    u in E && v in E[u]
  }

  /** `p` is a walk of vertices, each one an edge target of the one before. */
  ghost predicate IsPath(E: map<int, seq<int>>, p: seq<int>) {
    && |p| >= 1
    && (forall i :: 0 <= i < |p| ==> p[i] in E)
    && (forall i :: 0 <= i < |p| - 1 ==> Edge(E, p[i], p[i + 1]))
  }

  /** `b` can be reached from `a` by a path of zero or more edges. */
  ghost predicate Reachable(E: map<int, seq<int>>, a: int, b: int) {
    exists p :: IsPath(E, p) && p[0] == a && p[|p| - 1] == b
  }

  /** Some path of at least one edge comes back to where it started. */
  ghost predicate HasCycle(E: map<int, seq<int>>) {
    exists p :: IsPath(E, p) && |p| >= 2 && p[0] == p[|p| - 1]
  }

  /** A path followed by one more edge is a path. */
  lemma ExtendPath(E: map<int, seq<int>>, p: seq<int>, v: int)
    requires IsPath(E, p) && Edge(E, p[|p| - 1], v) && v in E
    ensures IsPath(E, p + [v])
  {
    var q := p + [v];
    forall i | 0 <= i < |q| - 1 ensures Edge(E, q[i], q[i + 1]) {
      if i < |p| - 1 { assert q[i] == p[i] && q[i + 1] == p[i + 1]; }
    }
  }

  /** Reachability composes with an edge in front. */
  lemma ReachableViaEdge(E: map<int, seq<int>>, a: int, b: int, c: int)
    requires Edge(E, a, b) && a in E && Reachable(E, b, c)
    ensures Reachable(E, a, c)
  {
    var p :| IsPath(E, p) && p[0] == b && p[|p| - 1] == c;
    var q := [a] + p;
    forall i | 0 <= i < |q| - 1 ensures Edge(E, q[i], q[i + 1]) {
      if i > 0 { assert q[i] == p[i - 1] && q[i + 1] == p[i]; }
    }
    assert IsPath(E, q) && q[0] == a && q[|q| - 1] == c;
  }

  /** Reachability composes with an edge at the end. */
  lemma ReachableViaEdgeAfter(E: map<int, seq<int>>, a: int, b: int, c: int)
    requires Reachable(E, a, b) && Edge(E, b, c) && c in E
    ensures Reachable(E, a, c)
  {
    var p :| IsPath(E, p) && p[0] == a && p[|p| - 1] == b;
    ExtendPath(E, p, c);
    assert (p + [c])[0] == a;
  }

  /** Both ends of a reachability fact are vertices. */
  lemma ReachableInGraph(E: map<int, seq<int>>, a: int, b: int)
    requires Reachable(E, a, b)
    ensures a in E && b in E
  {
    var p :| IsPath(E, p) && p[0] == a && p[|p| - 1] == b;
  }

  /** Every vertex reaches itself. */
  lemma ReachableSelf(E: map<int, seq<int>>, a: int)
    requires a in E
    ensures Reachable(E, a, a)
  {
    assert IsPath(E, [a]);
  }

  /**
   * A vertex set that contains `a` and every edge target of its members holds every
   * vertex reachable from `a`.
   */
  lemma {:induction false} ClosedSetHoldsReachable(E: map<int, seq<int>>, S: set<int>, a: int, p: seq<int>)
    requires a in S
    requires forall u, j :: u in S && u in E && 0 <= j < |E[u]| ==> E[u][j] in S
    requires IsPath(E, p) && p[0] == a
    ensures p[|p| - 1] in S
  {
    if |p| > 1 {
      var q := p[..|p| - 1];
      assert IsPath(E, q);
      ClosedSetHoldsReachable(E, S, a, q);
      assert Edge(E, p[|p| - 2], p[|p| - 1]);
      var j :| 0 <= j < |E[p[|p| - 2]]| && E[p[|p| - 2]][j] == p[|p| - 1];
    }
  }

  /**
   * When a ranking strictly decreases along every edge, the rank of a path's last
   * vertex is below that of its first: no path returns to its start.
   */
  lemma {:induction false} DecreasingAlongPath(E: map<int, seq<int>>, rank: map<int, int>, p: seq<int>)
    requires forall u, v :: Edge(E, u, v) ==> u in rank && v in rank && rank[v] < rank[u]
    requires IsPath(E, p) && |p| >= 2
    ensures p[0] in rank && p[|p| - 1] in rank && rank[p[|p| - 1]] < rank[p[0]]
  {
    assert Edge(E, p[0], p[1]);
    if |p| > 2 {
      var q := p[1..];
      assert IsPath(E, q) by {
        forall i | 0 <= i < |q| - 1 ensures Edge(E, q[i], q[i + 1]) {
          assert Edge(E, p[i + 1], p[i + 2]);
        }
      }
      DecreasingAlongPath(E, rank, q);
    }
  }

  /** A ranking that strictly decreases along every edge rules out cycles. */
  lemma DecreasingLabelsAcyclic(E: map<int, seq<int>>, rank: map<int, int>)
    requires forall u, v :: Edge(E, u, v) ==> u in rank && v in rank && rank[v] < rank[u]
    ensures !HasCycle(E)
  {
    if HasCycle(E) {
      var p :| IsPath(E, p) && |p| >= 2 && p[0] == p[|p| - 1];
      DecreasingAlongPath(E, rank, p);
    }
  }

  /**
   * An edge from the end of a path back to one of its vertices closes a cycle (the
   * back edge of a depth-first search).
   */
  lemma BackEdgeCycle(E: map<int, seq<int>>, p: seq<int>, i: int)
    requires IsPath(E, p) && 0 <= i < |p| && Edge(E, p[|p| - 1], p[i])
    ensures HasCycle(E)
  {
    var q := p[i..];
    assert IsPath(E, q) by {
      forall k | 0 <= k < |q| - 1 ensures Edge(E, q[k], q[k + 1]) {
        assert Edge(E, p[i + k], p[i + k + 1]);
      }
    }
    ExtendPath(E, q, p[i]);
    var c := q + [p[i]];
    assert IsPath(E, c) && |c| >= 2 && c[0] == c[|c| - 1];
  }
}
