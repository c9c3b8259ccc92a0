/**
 * The Girvan–Newman engine `Main`: an undirected graph held as a mutable
 * adjacency map with a mutable edge-score table, the updates `addEdge`,
 * `removeEdges` and `removeNodesOutsideLargestComponent`, the component
 * finder, and the integer forward phase of the breadth-first search `bfs`.
 *
 * HashMap and HashSet iteration is modelled by picking an arbitrary element
 * of what is left to visit, so every property below holds for every order.
 */
module GirvanNewman {
  import opened Graphs
  import opened GraphStore
  import opened Components
  import opened Brandes

  /** `Collections.max` throws on an empty collection. */
  datatype Error = EmptyScoreTable

  datatype Outcome = Done | Failed(error: Error)

  class Graph {
    /** `adjList`: node identifier to neighbour set. */
    var adj: Adjacency
    /** `edgeBetweenness`: directed edge key to integer score. */
    var scores: map<Edge, int>

    /**
     * What every public operation keeps: the adjacency map is symmetric and
     * the score table only names edges between nodes, so the lookups
     * `adjList.get(e.source)` of `removeEdges` always find an entry.
     */
    ghost predicate Valid()
      reads this
    {
      Symmetric(adj) && ScoresOnNodes(adj, scores)
    }

    constructor ()
      ensures Valid() && adj == map[] && scores == map[]
    {
      adj := map[];
      scores := map[];
    }

    /** Inserts the undirected edge `source`–`target` and scores both directions 0. */
    method AddEdge(source: int, target: int)
      requires Valid()
      modifies this
      ensures Valid()
      ensures adj == WithEdge(old(adj), source, target)
      ensures scores == WithEdgeScores(old(scores), source, target)
    {
      WithEdgeKeepsSymmetry(adj, source, target);
      WithEdgeKeepsScoresOnNodes(adj, scores, source, target);
      adj := adj[source := Neighbours(adj, source) + {target}];
      adj := adj[target := Neighbours(adj, target) + {source}];
      scores := scores[Edge(source, target) := 0];
      scores := scores[Edge(target, source) := 0];
    }

    /**
     * The forward phase of `bfs(source)` over the current adjacency map:
     * distances, shortest-path counts, shortest-path predecessors and the
     * stack of nodes in the order they leave the queue.
     */
    method Bfs(source: int) returns (dist: map<int, int>, sigma: map<int, int>, pred: map<int, seq<int>>, stack: seq<int>)
      requires Valid() && source in adj
      ensures Domains(adj, dist, sigma, pred)
      ensures Initialised(adj, source, dist, sigma, pred)
      ensures ReachedExactly(adj, source, dist)
      ensures Layered(adj, dist)
      ensures PredecessorsExact(adj, source, dist, pred)
      ensures PathCounts(adj, source, sigma, pred)
      ensures StackOrder(adj, dist, stack)
    {
      dist, sigma, pred, stack := Search(adj, source);
    }

    /**
     * Deletes, in both directions, every edge whose score is the maximum of
     * the table, and fails as `Collections.max` does when the table is empty.
     * The score table itself is left as it is.
     */
    method RemoveEdges() returns (outcome: Outcome)
      requires Valid()
      modifies this
      ensures Valid() && scores == old(scores)
      ensures outcome.Failed? <==> old(scores) == map[]
      ensures outcome.Failed? ==> adj == old(adj)
      ensures outcome.Done? ==> adj == WithoutEdges(old(adj), TopEdges(old(scores)))
    {
      var max := MaxScore(scores);
      if max.None? {
        return Failed(EmptyScoreTable);
      }
      var toRemove := EdgesScoring(max.value);
      assert toRemove == TopEdges(scores);
      ghost var adj0 := adj;
      DeleteEdges(toRemove);
      WithoutEdgesKeepsSymmetry(adj0, toRemove);
      outcome := Done;
    }

    /** The first loop of `removeEdges`: the keys of the score table that score `max`. */
    method EdgesScoring(max: int) returns (es: set<Edge>)
      ensures forall e :: e in es <==> e in scores && scores[e] == max
    {
      es := {};
      var keys := scores.Keys;
      while keys != {}
        invariant keys <= scores.Keys
        invariant forall e :: e in es <==> e in scores && e !in keys && scores[e] == max
        decreases keys
      {
        var e :| e in keys;
        if scores[e] == max {
          es := es + {e};
        }
        keys := keys - {e};
      }
    }

    /** The second loop of `removeEdges`: deletes each edge of `es` in both directions. */
    method DeleteEdges(es: set<Edge>)
      requires forall e :: e in es ==> e.source in adj && e.target in adj
      modifies this`adj
      ensures adj == WithoutEdges(old(adj), es)
    {
      ghost var adj0 := adj;
      ghost var removed: set<Edge> := {};
      WithoutNoEdges(adj0);
      var pending := es;
      while pending != {}
        invariant removed + pending == es && removed !! pending
        invariant adj == WithoutEdges(adj0, removed)
        decreases pending
      {
        var e :| e in pending;
        WithoutEdgesStep(adj0, removed, e);
        adj := adj[e.source := adj[e.source] - {e.target}];
        adj := adj[e.target := adj[e.target] - {e.source}];
        removed := removed + {e};
        pending := pending - {e};
      }
    }

    /**
     * `explore(node, visited, component)`: visits `node` and, depth first,
     * every node reachable from it that is not yet visited, adding each to
     * both sets. The two sets Java shares by reference are passed in and
     * returned; `root` is the node the enclosing search started from.
     */
    method Explore(node: int, visited: set<int>, component: set<int>, ghost root: int)
      returns (visited': set<int>, component': set<int>)
      requires Valid() && node in adj && node !in visited && visited <= adj.Keys && component <= visited
      requires Reachable(adj, root, node) && forall x :: x in component ==> Reachable(adj, root, x)
      ensures visited + {node} <= visited' <= adj.Keys
      ensures component' == component + (visited' - visited)
      ensures forall x :: x in visited' - visited ==> adj[x] <= visited'
      ensures forall x :: x in component' ==> Reachable(adj, root, x)
      decreases adj.Keys - visited
    {
      visited' := visited + {node};
      component' := component + {node};
      var rest := adj[node];
      while rest != {}
        invariant visited + {node} <= visited' <= adj.Keys
        invariant component' == component + (visited' - visited)
        invariant forall x :: x in visited' - visited && x != node ==> adj[x] <= visited'
        invariant rest <= adj[node] && adj[node] - rest <= visited'
        invariant forall x :: x in component' ==> Reachable(adj, root, x)
        decreases rest
      {
        ghost var member := Pick(rest);
        var neighbor :| neighbor in rest;
        if neighbor !in visited' {
          ReachableStep(adj, root, node, neighbor);
          visited', component' := Explore(neighbor, visited', component', root);
        }
        rest := rest - {neighbor};
      }
    }

    /** `getConnectedComponents`: one component per node not yet visited, in key order. */
    method GetConnectedComponents() returns (comps: seq<set<int>>)
      requires Valid()
      ensures IsComponentList(adj, comps)
    {
      comps := [];
      var visited: set<int> := {};
      var keys := adj.Keys;
      while keys != {}
        invariant keys <= adj.Keys && visited <= adj.Keys && adj.Keys - keys <= visited
        invariant Closed(adj, visited)
        invariant ComponentsOf(adj, comps, visited)
        decreases keys
      {
        ghost var member := Pick(keys);
        var node :| node in keys;
        if node !in visited {
          ReachableRefl(adj, node);
          var visited', component := Explore(node, visited, {}, node);
          NewComponent(adj, visited, component, node);
          ComponentsGrow(adj, comps, visited, component);
          assert visited' == visited + component;
          visited := visited';
          comps := comps + [component];
        }
        keys := keys - {node};
      }
      assert visited == adj.Keys;
      ComponentsOfAll(adj, comps);
    }

    /**
     * `findLargestConnectedComponent`: the first component of `comps`, the
     * list `getConnectedComponents` returned, whose size no other exceeds;
     * none (Java's null) when the graph has no nodes.
     */
    method FindLargestConnectedComponent() returns (largest: Option<set<int>>, ghost comps: seq<set<int>>, ghost k: int)
      requires Valid()
      ensures IsComponentList(adj, comps)
      ensures largest.None? <==> adj == map[]
      ensures largest.Some? ==> IsFirstLargest(comps, k) && largest.value == comps[k]
    {
      var components := GetConnectedComponents();
      comps := components;
      EmptyComponentList(adj, components);
      largest := None;
      k := -1;
      var maxSize := 0;
      var j := 0;
      while j < |components|
        invariant 0 <= j <= |components|
        invariant largest.None? <==> j == 0
        invariant largest.None? ==> maxSize == 0
        invariant largest.Some? ==> 0 <= k < j && largest.value == components[k] && maxSize == |components[k]|
        invariant largest.Some? ==> forall i :: 0 <= i < j ==> |components[i]| <= maxSize
        invariant largest.Some? ==> forall i :: 0 <= i < k ==> |components[i]| < maxSize
      {
        assert components[j] != {};
        if |components[j]| > maxSize {
          maxSize := |components[j]|;
          largest := Some(components[j]);
          k := j;
        }
        j := j + 1;
      }
    }

    /**
     * `removeNodesOutsideLargestComponent`: drops every node outside the
     * first largest component, every neighbour outside it, and every score
     * key with an endpoint outside it. A graph without nodes is left as it is.
     */
    method RemoveNodesOutsideLargestComponent() returns (ghost comps: seq<set<int>>, ghost k: int)
      requires Valid()
      modifies this
      ensures Valid()
      ensures IsComponentList(old(adj), comps)
      ensures old(adj) == map[] ==> adj == old(adj) && scores == old(scores)
      ensures old(adj) != map[] ==>
        && IsFirstLargest(comps, k)
        && adj == Restrict(old(adj), comps[k])
        && scores == RestrictScores(old(scores), comps[k])
        && adj.Keys == comps[k]
        && IsComponent(adj, comps[k])
        && (forall a :: a in adj ==> adj[a] == old(adj)[a])
        && (forall e :: e in scores ==> e.source in comps[k] && e.target in comps[k])
        && (forall cs :: IsComponentList(adj, cs) <==> cs == [comps[k]])
    {
      var largest;
      largest, comps, k := FindLargestConnectedComponent();
      if largest.None? {
        return;
      }
      var c := largest.value;
      RestrictToComponent(adj, c);
      PruneNodes(c);
      PruneScores(c);
      SingleComponent(adj, c);
      forall cs | IsComponentList(adj, cs) ensures cs == [c] {
        OnlyComponentList(adj, c, cs);
      }
    }

    /**
     * The entry loop of `removeNodesOutsideLargestComponent`: drops each node
     * outside `c` and, from the neighbours of each node kept, those outside `c`.
     */
    method PruneNodes(c: set<int>)
      modifies this`adj
      ensures adj == Restrict(old(adj), c)
    {
      ghost var adj0 := adj;
      var keys := adj.Keys;
      while keys != {}
        invariant keys <= adj0.Keys
        invariant adj.Keys == keys + adj0.Keys * c
        invariant forall a :: a in adj ==> adj[a] == if a in keys then adj0[a] else adj0[a] * c
        decreases keys
      {
        ghost var member := Pick(keys);
        var a :| a in keys;
        if a !in c {
          adj := adj - {a};
        } else {
          adj := adj[a := set b | b in adj[a] && b in c];
        }
        keys := keys - {a};
      }
      assert forall a :: a in adj ==> adj[a] == Restrict(adj0, c)[a];
    }

    /** The last statement of `removeNodesOutsideLargestComponent`: drops each score key with an endpoint outside `c`. */
    method PruneScores(c: set<int>)
      modifies this`scores
      ensures scores == RestrictScores(old(scores), c)
    {
      ghost var scores0 := scores;
      var edges := scores.Keys;
      while edges != {}
        invariant edges <= scores0.Keys
        invariant forall e :: e in scores <==> e in scores0 && (e in edges || (e.source in c && e.target in c))
        invariant forall e :: e in scores ==> scores[e] == scores0[e]
        decreases edges
      {
        var e :| e in edges;
        if e.source !in c || e.target !in c {
          scores := scores - {e};
        }
        edges := edges - {e};
      }
      assert forall e :: e in scores ==> scores[e] == RestrictScores(scores0, c)[e];
    }
  }
}
