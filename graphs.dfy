/**
 * Values the Girvan–Newman engine works on: an undirected graph kept as a map
 * from each node to its neighbour set, the directed edge keys of the score
 * table, and paths, reachability and connected components over such a map.
 */
module Graphs {

  /** The adjacency map `adjList`: node identifier to neighbour set. */
  type Adjacency = map<int, set<int>>

  /** A directed edge key of the score table; equality is by both endpoints. */
  datatype Edge = Edge(source: int, target: int)

  datatype Option<T> = None | Some(value: T)

  /** The neighbours of `a`, or no neighbours when `a` is not a node yet. */
  function Neighbours(adj: Adjacency, a: int): set<int>
  {
    if a in adj then adj[a] else {}
  }

  /** Every neighbour is a node, and `b` is a neighbour of `a` exactly when `a` is one of `b`. */
  ghost predicate Symmetric(adj: Adjacency)
  {
    forall a, b {:trigger b in adj[a]} :: a in adj && b in adj[a] ==> b in adj && a in adj[b]
  }

  /** Both endpoints of every score-table key are nodes of the graph. */
  ghost predicate ScoresOnNodes(adj: Adjacency, scores: map<Edge, int>)
  {
    forall e :: e in scores ==> e.source in adj && e.target in adj
  }

  /** `p` is a walk of at least one node along the edges of `adj`. */
  ghost predicate IsPath(adj: Adjacency, p: seq<int>)
  {
    && |p| > 0
    && (forall k :: 0 <= k < |p| ==> p[k] in adj)
    && (forall k :: 0 < k < |p| ==> p[k] in adj[p[k - 1]])
  }

  /** Some walk leads from `a` to `b`. */
  ghost predicate Reachable(adj: Adjacency, a: int, b: int)
  {
    exists p :: IsPath(adj, p) && p[0] == a && p[|p| - 1] == b
  }

  /** No edge leaves the node set `c`. */
  ghost predicate Closed(adj: Adjacency, c: set<int>)
  {
    forall x, y :: x in c && x in adj && y in adj[x] ==> y in c
  }

  /** `c` is a connected component: non-empty nodes, closed under edges, pairwise reachable. */
  ghost predicate IsComponent(adj: Adjacency, c: set<int>)
  {
    && c != {}
    && c <= adj.Keys
    && Closed(adj, c)
    && forall a, b :: a in c && b in c ==> Reachable(adj, a, b)
  }

  /** A non-empty set has a member to pick. */
  lemma Pick<T>(s: set<T>) returns (x: T)
    requires s != {}
    ensures x in s
  {
    x :| x in s;
  }

  lemma ReachableRefl(adj: Adjacency, a: int)
    requires a in adj
    ensures Reachable(adj, a, a)
  {
    assert IsPath(adj, [a]);
  }

  /** A walk to `b` extends by one edge out of `b`. */
  lemma ReachableStep(adj: Adjacency, a: int, b: int, c: int)
    requires Reachable(adj, a, b) && b in adj && c in adj[b] && c in adj
    ensures Reachable(adj, a, c)
  {
    var p :| IsPath(adj, p) && p[0] == a && p[|p| - 1] == b;
    var q := p + [c];
    assert q[|q| - 1] == c;
    assert IsPath(adj, q);
  }

  lemma ReachableTrans(adj: Adjacency, a: int, b: int, c: int)
    requires Reachable(adj, a, b) && Reachable(adj, b, c)
    ensures Reachable(adj, a, c)
  {
    var p :| IsPath(adj, p) && p[0] == a && p[|p| - 1] == b;
    var q :| IsPath(adj, q) && q[0] == b && q[|q| - 1] == c;
    var r := p + q[1..];
    assert forall k :: |p| <= k < |r| ==> r[k] == q[k - |p| + 1];
    assert r[|r| - 1] == c;
    assert IsPath(adj, r);
  }

  function Reverse(p: seq<int>): (r: seq<int>)
    ensures |r| == |p|
    ensures forall k :: 0 <= k < |p| ==> r[k] == p[|p| - 1 - k]
  {
    seq(|p|, k requires 0 <= k < |p| => p[|p| - 1 - k])
  }

  /** In a symmetric graph every walk can be walked backwards. */
  lemma ReachableSym(adj: Adjacency, a: int, b: int)
    requires Symmetric(adj) && Reachable(adj, a, b)
    ensures Reachable(adj, b, a)
  {
    var p :| IsPath(adj, p) && p[0] == a && p[|p| - 1] == b;
    var r := Reverse(p);
    forall k | 0 < k < |r|
      ensures r[k] in adj[r[k - 1]]
    {
      assert r[k - 1] == p[|p| - k] && r[k] == p[|p| - k - 1];
      assert p[|p| - k] in adj[p[|p| - k - 1]];
    }
    assert IsPath(adj, r);
  }

  /** A walk that starts inside a closed set never leaves it. */
  lemma {:induction false} PathStaysInClosed(adj: Adjacency, c: set<int>, p: seq<int>, n: nat)
    requires Closed(adj, c) && IsPath(adj, p) && p[0] in c && n < |p|
    ensures p[n] in c
  {
    if n > 0 {
      PathStaysInClosed(adj, c, p, n - 1);
      var x, y := p[n - 1], p[n];
      assert x in adj && y in adj[x];
    }
  }

  /** A closed set holds everything reachable from its members. */
  lemma ClosedHoldsReachable(adj: Adjacency, c: set<int>, a: int, b: int)
    requires Closed(adj, c) && a in c && Reachable(adj, a, b)
    ensures b in c
  {
    var p :| IsPath(adj, p) && p[0] == a && p[|p| - 1] == b;
    PathStaysInClosed(adj, c, p, |p| - 1);
  }

  /** Two components that share a node are the same component. */
  lemma ComponentsEqualOrDisjoint(adj: Adjacency, c: set<int>, d: set<int>, x: int)
    requires IsComponent(adj, c) && IsComponent(adj, d) && x in c && x in d
    ensures c == d
  {
    forall y | y in c ensures y in d {
      ClosedHoldsReachable(adj, d, x, y);
    }
    forall y | y in d ensures y in c {
      ClosedHoldsReachable(adj, c, x, y);
    }
  }
}
