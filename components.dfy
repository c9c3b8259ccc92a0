/**
 * What `getConnectedComponents` and `findLargestConnectedComponent` return:
 * a list of components that partitions the node set, and the first of them
 * with the greatest size.
 */
module Components {
  import opened Graphs

  /** The sets of `comps` are non-empty, pairwise disjoint, and together exactly the nodes. */
  ghost predicate IsPartition(adj: Adjacency, comps: seq<set<int>>)
  {
    && (forall i :: 0 <= i < |comps| ==> comps[i] != {} && comps[i] <= adj.Keys)
    && (forall i, j :: 0 <= i < j < |comps| ==> comps[i] !! comps[j])
    && (forall x :: x in adj ==> exists i :: 0 <= i < |comps| && x in comps[i])
  }

  /** A partition of the nodes into connected components. */
  ghost predicate IsComponentList(adj: Adjacency, comps: seq<set<int>>)
  {
    IsPartition(adj, comps) && forall i :: 0 <= i < |comps| ==> IsComponent(adj, comps[i])
  }

  /** `comps[k]` is as large as any set of `comps` and strictly larger than every earlier one. */
  ghost predicate IsFirstLargest(comps: seq<set<int>>, k: int)
  {
    && 0 <= k < |comps|
    && (forall j :: 0 <= j < |comps| ==> |comps[j]| <= |comps[k]|)
    && (forall j :: 0 <= j < k ==> |comps[j]| < |comps[k]|)
  }

  /** A component list names every component of the graph. */
  lemma ComponentListed(adj: Adjacency, comps: seq<set<int>>, c: set<int>) returns (j: nat)
    requires IsComponentList(adj, comps) && IsComponent(adj, c)
    ensures j < |comps| && comps[j] == c
  {
    var x := Pick(c);
    var i :| 0 <= i < |comps| && x in comps[i];
    ComponentsEqualOrDisjoint(adj, comps[i], c, x);
    j := i;
  }

  /** The first largest set of a component list is a component as large as any. */
  lemma FirstLargestIsLargest(adj: Adjacency, comps: seq<set<int>>, k: int, c: set<int>)
    requires IsComponentList(adj, comps) && IsFirstLargest(comps, k) && IsComponent(adj, c)
    ensures IsComponent(adj, comps[k]) && |c| <= |comps[k]|
  {
    var j := ComponentListed(adj, comps, c);
  }

  /** The component list of a graph is empty exactly when the graph has no nodes. */
  lemma EmptyComponentList(adj: Adjacency, comps: seq<set<int>>)
    requires IsPartition(adj, comps)
    ensures comps == [] <==> adj == map[]
  {
    if comps != [] {
      var x := Pick(comps[0]);
      assert x in adj;
    }
    if adj != map[] {
      assert adj.Keys != {};
      var x := Pick(adj.Keys);
      assert exists i :: 0 <= i < |comps| && x in comps[i];
    }
  }

  /** A graph that is one component has that component as its only component list. */
  lemma SingleComponent(adj: Adjacency, c: set<int>)
    requires IsComponent(adj, c) && adj.Keys == c
    ensures IsComponentList(adj, [c])
  {
    assert forall x :: x in adj ==> x in [c][0];
  }

  /** A graph that is one component has no other component list. */
  lemma OnlyComponentList(adj: Adjacency, c: set<int>, comps: seq<set<int>>)
    requires IsComponent(adj, c) && adj.Keys == c && IsComponentList(adj, comps)
    ensures comps == [c]
  {
    forall j | 0 <= j < |comps| ensures comps[j] == c {
      var y := Pick(comps[j]);
      ComponentsEqualOrDisjoint(adj, comps[j], c, y);
    }
    var x := Pick(c);
    assert |comps| > 0;
    assert x in comps[0] && x in comps[|comps| - 1];
  }

  /** `comps` lists pairwise disjoint components whose union is `visited`. */
  ghost predicate ComponentsOf(adj: Adjacency, comps: seq<set<int>>, visited: set<int>)
  {
    && (forall i :: 0 <= i < |comps| ==> IsComponent(adj, comps[i]))
    && (forall i, j :: 0 <= i < j < |comps| ==> comps[i] !! comps[j])
    && (forall x :: x in visited <==> exists i :: 0 <= i < |comps| && x in comps[i])
  }

  /**
   * The nodes `c` one `explore` from `root` adds, all reachable from `root`
   * and with every neighbour already visited, form a new component when the
   * nodes visited before are closed and the graph is symmetric.
   */
  lemma NewComponent(adj: Adjacency, visited: set<int>, c: set<int>, root: int)
    requires Symmetric(adj) && Closed(adj, visited) && c !! visited && root in c && c <= adj.Keys
    requires forall x :: x in c ==> adj[x] <= visited + c
    requires forall x :: x in c ==> Reachable(adj, root, x)
    ensures IsComponent(adj, c) && Closed(adj, visited + c)
  {
    forall a, b | a in c && b in c ensures Reachable(adj, a, b) {
      ReachableSym(adj, root, a);
      ReachableTrans(adj, a, root, b);
    }
  }

  /** A new component disjoint from the visited nodes extends the list of components. */
  lemma ComponentsGrow(adj: Adjacency, comps: seq<set<int>>, visited: set<int>, c: set<int>)
    requires ComponentsOf(adj, comps, visited) && IsComponent(adj, c) && c !! visited
    ensures ComponentsOf(adj, comps + [c], visited + c)
  {
    var comps' := comps + [c];
    forall x | x in visited + c ensures exists i :: 0 <= i < |comps'| && x in comps'[i] {
      if x in visited {
        var i :| 0 <= i < |comps| && x in comps[i];
        assert comps'[i] == comps[i];
      } else {
        assert comps'[|comps|] == c;
      }
    }
    forall i, j | 0 <= i < j < |comps'| ensures comps'[i] !! comps'[j] {
      if j == |comps| {
        forall x | x in comps[i] ensures x in visited {
        }
      }
    }
  }

  /** Components whose union is every node are the component list of the graph. */
  lemma ComponentsOfAll(adj: Adjacency, comps: seq<set<int>>)
    requires ComponentsOf(adj, comps, adj.Keys)
    ensures IsComponentList(adj, comps)
  {
  }
}
