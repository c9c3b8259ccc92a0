/**
 * The graph store's updates as functions on values: inserting an undirected
 * edge, deleting a set of edges in both directions, and pruning the graph to
 * a node set. The class in `GirvanNewman` performs these updates in place and
 * is proved to end in the state these functions describe.
 */
module GraphStore {
  import opened Graphs

  /**
   * The adjacency map after `addEdge(u, v)`: `v` joins the neighbours of `u`
   * and `u` those of `v`, creating either entry when it is missing.
   */
  function WithEdge(adj: Adjacency, u: int, v: int): (r: Adjacency)
    ensures r.Keys == adj.Keys + {u, v}
  {
    var m := adj[u := Neighbours(adj, u) + {v}];
    m[v := Neighbours(m, v) + {u}]
  }

  lemma WithEdgeNeighbours(adj: Adjacency, u: int, v: int)
    ensures var r := WithEdge(adj, u, v);
      && v in r[u] && u in r[v]
      && (forall a :: a in r ==>
            r[a] == Neighbours(adj, a) + (if a == u then {v} else {}) + (if a == v then {u} else {}))
      && (forall a :: a in adj && a != u && a != v ==> r[a] == adj[a])
  {
  }

  lemma WithEdgeKeepsSymmetry(adj: Adjacency, u: int, v: int)
    requires Symmetric(adj)
    ensures Symmetric(WithEdge(adj, u, v))
  {
    var r := WithEdge(adj, u, v);
    WithEdgeNeighbours(adj, u, v);
    forall a, b | a in r && b in r[a] ensures b in r && a in r[b] {
      if b !in Neighbours(adj, a) {
        assert (a == u && b == v) || (a == v && b == u);
      }
    }
  }

  /** Inserting an edge that is already there leaves the adjacency map as it is. */
  lemma WithEdgeIdempotent(adj: Adjacency, u: int, v: int)
    ensures WithEdge(WithEdge(adj, u, v), u, v) == WithEdge(adj, u, v)
  {
    var r := WithEdge(adj, u, v);
    var r2 := WithEdge(r, u, v);
    WithEdgeNeighbours(adj, u, v);
    WithEdgeNeighbours(r, u, v);
    assert forall a :: a in r2 ==> r2[a] == r[a];
  }

  /** The score table after `addEdge(u, v)`: both directed keys score zero. */
  function WithEdgeScores(scores: map<Edge, int>, u: int, v: int): (r: map<Edge, int>)
    ensures r.Keys == scores.Keys + {Edge(u, v), Edge(v, u)}
    ensures r[Edge(u, v)] == 0 && r[Edge(v, u)] == 0
    ensures forall e :: e in scores && e != Edge(u, v) && e != Edge(v, u) ==> r[e] == scores[e]
  {
    scores[Edge(u, v) := 0][Edge(v, u) := 0]
  }

  lemma WithEdgeKeepsScoresOnNodes(adj: Adjacency, scores: map<Edge, int>, u: int, v: int)
    requires ScoresOnNodes(adj, scores)
    ensures ScoresOnNodes(WithEdge(adj, u, v), WithEdgeScores(scores, u, v))
  {
  }

  /** `e` holds the highest score of the table. */
  ghost predicate IsTop(scores: map<Edge, int>, e: Edge)
  {
    e in scores && forall f :: f in scores ==> scores[f] <= scores[e]
  }

  /** The keys whose score equals the table's maximum. */
  ghost function TopEdges(scores: map<Edge, int>): (r: set<Edge>)
    ensures r <= scores.Keys
  {
    set e | e in scores && IsTop(scores, e)
  }

  /** A non-empty table has a key of maximal score, so `removeEdges` always selects one. */
  lemma {:induction false} TopEdgesNonEmpty(scores: map<Edge, int>)
    requires scores != map[]
    ensures TopEdges(scores) != {}
    decreases |scores|
  {
    var e := Pick(scores.Keys);
    var rest := scores - {e};
    assert forall g :: g in scores ==> g == e || (g in rest && rest[g] == scores[g]);
    if rest == map[] {
      assert IsTop(scores, e);
    } else {
      TopEdgesNonEmpty(rest);
      var f := Pick(TopEdges(rest));
      assert IsTop(rest, f);
      if scores[e] <= scores[f] {
        assert IsTop(scores, f);
      } else {
        assert IsTop(scores, e);
      }
    }
  }

  /**
   * The adjacency map after deleting every edge of `es`, each in both
   * directions; an edge that is already gone is deleted again harmlessly.
   */
  function WithoutEdges(adj: Adjacency, es: set<Edge>): (r: Adjacency)
    ensures r.Keys == adj.Keys
  {
    map a | a in adj :: set b | b in adj[a] && Edge(a, b) !in es && Edge(b, a) !in es
  }

  /** Deleting no edges leaves the adjacency map as it is. */
  lemma WithoutNoEdges(adj: Adjacency)
    ensures WithoutEdges(adj, {}) == adj
  {
    var r := WithoutEdges(adj, {});
    assert forall a :: a in r ==> r[a] == adj[a];
  }

  /**
   * What `removeEdges` promises of the adjacency map: each deleted edge is
   * gone in both directions, every other neighbour stays, and nothing is added.
   */
  lemma WithoutEdgesSpec(adj: Adjacency, es: set<Edge>)
    ensures var r := WithoutEdges(adj, es);
      && (forall e :: e in es && e.source in adj ==> e.target !in r[e.source])
      && (forall e :: e in es && e.target in adj ==> e.source !in r[e.target])
      && (forall a, b :: a in adj && b in adj[a] && Edge(a, b) !in es && Edge(b, a) !in es ==> b in r[a])
      && (forall a :: a in adj ==> r[a] <= adj[a])
  {
  }

  lemma WithoutEdgesKeepsSymmetry(adj: Adjacency, es: set<Edge>)
    requires Symmetric(adj)
    ensures Symmetric(WithoutEdges(adj, es))
  {
  }

  /** Deleting the same edges twice is the same as deleting them once. */
  lemma WithoutEdgesIdempotent(adj: Adjacency, es: set<Edge>)
    ensures WithoutEdges(WithoutEdges(adj, es), es) == WithoutEdges(adj, es)
  {
    var r := WithoutEdges(adj, es);
    var r2 := WithoutEdges(r, es);
    assert forall a :: a in r2 ==> r2[a] == r[a];
  }

  /**
   * The two in-place deletions `removeEdges` performs for one key `e` carry
   * the graph without `done` to the graph without `done + {e}`.
   */
  lemma {:induction false} WithoutEdgesStep(adj0: Adjacency, done: set<Edge>, e: Edge)
    requires e.source in adj0 && e.target in adj0
    ensures var m := WithoutEdges(adj0, done);
      var m1 := m[e.source := m[e.source] - {e.target}];
      m1[e.target := m1[e.target] - {e.source}] == WithoutEdges(adj0, done + {e})
  {
    var m := WithoutEdges(adj0, done);
    var m1 := m[e.source := m[e.source] - {e.target}];
    var m2 := m1[e.target := m1[e.target] - {e.source}];
    var r := WithoutEdges(adj0, done + {e});
    forall a | a in r ensures m2[a] == r[a] {
      forall b ensures b in m2[a] <==> b in r[a] {
        if a == e.source || a == e.target {
          assert b in m2[a] <==> b in m[a] && !(a == e.source && b == e.target) && !(a == e.target && b == e.source);
        }
      }
    }
  }

  /** The adjacency map pruned to the nodes of `c`, in both keys and neighbour sets. */
  function Restrict(adj: Adjacency, c: set<int>): (r: Adjacency)
    ensures r.Keys == adj.Keys * c
    ensures forall a :: a in r ==> r[a] <= c
  {
    map a | a in adj && a in c :: adj[a] * c
  }

  /** The score table pruned to the keys with both endpoints in `c`. */
  function RestrictScores(scores: map<Edge, int>, c: set<int>): (r: map<Edge, int>)
    ensures forall e :: e in r <==> e in scores && e.source in c && e.target in c
    ensures forall e :: e in r ==> r[e] == scores[e]
  {
    map e | e in scores && e.source in c && e.target in c :: scores[e]
  }

  /**
   * Pruning a symmetric graph to one of its components keeps exactly that
   * component, leaves neighbour relations inside it unchanged, and leaves a
   * symmetric graph that is that component and nothing else.
   */
  lemma RestrictToComponent(adj: Adjacency, c: set<int>)
    requires Symmetric(adj) && IsComponent(adj, c)
    ensures var r := Restrict(adj, c);
      && r.Keys == c
      && (forall a :: a in c ==> r[a] == adj[a])
      && Symmetric(r)
      && IsComponent(r, c)
  {
    var r := Restrict(adj, c);
    forall a | a in c ensures r[a] == adj[a] {
      assert forall b :: b in adj[a] ==> b in c;
    }
    forall a, b | a in c && b in c ensures Reachable(r, a, b) {
      var p :| IsPath(adj, p) && p[0] == a && p[|p| - 1] == b;
      forall k | 0 <= k < |p| ensures p[k] in c {
        PathStaysInClosed(adj, c, p, k);
      }
      assert IsPath(r, p);
    }
  }

  /** Collections.max over the table's scores: none for an empty table. */
  method MaxScore(scores: map<Edge, int>) returns (max: Option<int>)
    ensures max.None? <==> scores == map[]
    ensures max.Some? ==> max.value in scores.Values
    ensures max.Some? ==> forall e :: e in scores ==> scores[e] <= max.value
  {
    max := None;
    var rest := scores.Keys;
    while rest != {}
      invariant rest <= scores.Keys
      invariant max.None? <==> rest == scores.Keys
      invariant max.Some? ==> max.value in scores.Values
      invariant max.Some? ==> forall e :: e in scores && e !in rest ==> scores[e] <= max.value
      decreases rest
    {
      var e :| e in rest;
      if max.None? || scores[e] > max.value {
        max := Some(scores[e]);
      }
      rest := rest - {e};
    }
  }
}
