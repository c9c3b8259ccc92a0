# Girvan–Newman graph engine, modelled in Dafny

The Java class `Main` keeps an undirected graph as a mutable adjacency map
`adjList` (node identifier to neighbour set) together with a mutable edge-score
table `edgeBetweenness` (directed edge key to integer score). This project
models the part of it that is exact and integer-valued:

- the graph store: `addEdge`, `removeEdges` (delete every edge of maximal
  score, failing as `Collections.max` does on an empty table) and
  `removeNodesOutsideLargestComponent`;
- the component finder: `getConnectedComponents` with its recursive
  `explore`, and `findLargestConnectedComponent`;
- the forward phase of Brandes' breadth-first search in `bfs`, which fills in
  the distances `dist`, the shortest-path counts `sigma`, the shortest-path
  predecessors `pred` and the stack of nodes in the order they leave the
  queue.

Modules:

- `Graphs` (graphs.dfy): the adjacency map, directed edge keys, walks,
  reachability and connected components.
- `GraphStore` (graph_store.dfy): the updates of the store as functions on
  values (`WithEdge`, `WithoutEdges`, `Restrict`, `RestrictScores`), their
  lemmas, and `MaxScore` (`Collections.max`).
- `Components` (components.dfy): what a component list and its first
  largest member are, and the lemmas the component finder needs.
- `Brandes` (brandes.dfy): the forward search `Search` as loops over values,
  the properties it ends with, and its loop invariant with the lemmas that
  keep it.
- `GirvanNewman` (girvan_newman.dfy): the class `Graph` with the fields `adj`
  and `scores`, whose methods perform the updates in place and are proved to
  end in the state the `GraphStore` functions describe. `Valid()` is the
  invariant every public operation keeps: the adjacency map is symmetric, and
  every score key joins two nodes.

Java's `HashMap` and `HashSet` iteration is modelled by picking an arbitrary
element of what is left to visit. Every property is therefore proved for every
iteration order. The component list, and "first" in
`findLargestConnectedComponent`, are relative to the order that was picked.
The stack is a sequence whose pushes append at the end.

## Model

| member | source | states |
|---|---|---|
| GirvanNewman.Graph.constructor | GirvanNewman/Main.java:32-35 | starts with no nodes and no scores, which satisfies the invariant |
| GirvanNewman.Graph.AddEdge | GirvanNewman/Main.java:37-42 | the adjacency map becomes `WithEdge` of the old one and the table becomes `WithEdgeScores` of the old one; symmetry and "score keys join nodes" are kept |
| GraphStore.WithEdge | GirvanNewman/Main.java:38-39 | the node set grows by exactly the two endpoints; missing entries are created |
| GraphStore.WithEdgeNeighbours | GirvanNewman/Main.java:38-39 | afterwards `target` is a neighbour of `source` and the reverse; each node's neighbours are its old ones plus the other endpoint if it is one; every other node keeps its neighbours |
| GraphStore.WithEdgeKeepsSymmetry | GirvanNewman/Main.java:38-39 | inserting an edge into a symmetric adjacency map leaves it symmetric |
| GraphStore.WithEdgeIdempotent | GirvanNewman/Main.java:38-39 | inserting the same edge a second time leaves the adjacency map as it is |
| GraphStore.WithEdgeScores | GirvanNewman/Main.java:40-41 | both directed keys of the edge score 0, every other key keeps its score, and no other key is added |
| GraphStore.WithEdgeKeepsScoresOnNodes | GirvanNewman/Main.java:37-41 | after the insertion every score key still joins two nodes |
| GirvanNewman.Graph.Bfs | GirvanNewman/Main.java:61-91 | the forward phase over the current graph: the same seven properties as `Brandes.Search` |
| Brandes.Search | GirvanNewman/Main.java:61-91 | every node has an entry in `dist`, `sigma` and `pred` and nothing else does; the source has distance 0, one path and no predecessors; an unreached node keeps -1, 0 and []; a node is reached exactly when a walk leads to it from the source; a reached node's neighbours are reached at most one layer further out; `pred[w]` lists, once each, exactly the neighbours of `w` one layer closer, and every reached node except the source has one; `sigma[w]` is the sum of `sigma` over `pred[w]`, plus 1 at the source; the stack holds each reached node exactly once, in non-decreasing distance |
| Brandes.InitEstablishes | GirvanNewman/Main.java:68-76 | the initial entries and the queue holding only the source satisfy the loop invariant |
| Brandes.PopStep | GirvanNewman/Main.java:79-80 | moving the head of the queue onto the stack keeps the loop invariant |
| Brandes.VisitNeighbours | GirvanNewman/Main.java:81-90 | relaxing every neighbour of the node just pushed keeps the loop invariant, with all of its neighbours handled |
| Brandes.Relax | GirvanNewman/Main.java:82-89 | an undiscovered neighbour is given the distance of `i` plus one and queued; then a neighbour one layer after `i` gains the path count of `i` and `i` as its last predecessor; its node set is unchanged |
| Brandes.Discover | GirvanNewman/Main.java:82-85 | the first `if`: a neighbour still at -1 gets the distance of `i` plus one and joins the back of the queue; otherwise distances and queue stay as they are |
| Brandes.Count | GirvanNewman/Main.java:86-89 | the second `if`, read after the first: a neighbour one layer after `i` has the path count of `i` added to its own and `i` appended to its predecessors; otherwise both maps stay as they are |
| Brandes.RelaxStep | GirvanNewman/Main.java:82-89 | relaxing one not-yet-handled neighbour of the last pushed node keeps the loop invariant |
| Brandes.DistinctBounded | GirvanNewman/Main.java:78-80 | the stack holds distinct nodes, so it never outgrows the node set; this bounds the number of rounds of the outer loop |
| Brandes.Finish | GirvanNewman/Main.java:78-91 | once the queue is empty the loop invariant gives the seven properties `Search` promises |
| Brandes.DistAtMostWalk | GirvanNewman/Main.java:78-91 | no walk from the source to a node has fewer edges than the distance the search gives it |
| Brandes.DistAttained | GirvanNewman/Main.java:78-91 | every reached node ends a walk from the source with exactly its distance in edges, so `dist` is the shortest-walk distance |
| GraphStore.MaxScore | GirvanNewman/Main.java:119 | none exactly when the table is empty; otherwise a score of the table that no score exceeds |
| GraphStore.TopEdges | GirvanNewman/Main.java:119-126 | the keys whose score no other key exceeds, which is the set `edgesToRemove` collects; only keys of the table |
| GraphStore.TopEdgesNonEmpty | GirvanNewman/Main.java:119-126 | a non-empty table has at least one key of maximal score, so `removeEdges` always selects an edge |
| GirvanNewman.Graph.RemoveEdges | GirvanNewman/Main.java:118-134 | fails exactly when the table is empty, and then changes nothing; otherwise the adjacency map becomes `WithoutEdges` of the old one for the keys of maximal score; the table is unchanged and the invariant is kept |
| GirvanNewman.Graph.EdgesScoring | GirvanNewman/Main.java:120-126 | the set collected holds exactly the keys whose score equals the maximum |
| GirvanNewman.Graph.DeleteEdges | GirvanNewman/Main.java:127-132 | after the two deletions for each collected key, the adjacency map is `WithoutEdges` of the old one |
| GraphStore.WithoutEdges | GirvanNewman/Main.java:127-132 | the adjacency map after the deletion loop: every neighbour named by a deleted key, in either direction, is dropped; the node set is unchanged |
| GraphStore.WithoutEdgesStep | GirvanNewman/Main.java:130-131 | the two in-place deletions for one key take the graph without the keys handled so far to the graph without that key as well |
| GraphStore.WithoutNoEdges | GirvanNewman/Main.java:127 | before any key is handled, the adjacency map is the graph without no edges |
| GraphStore.WithoutEdgesSpec | GirvanNewman/Main.java:127-132 | each deleted key is gone in both directions; every neighbour that no deleted key names stays; no neighbour is added |
| GraphStore.WithoutEdgesKeepsSymmetry | GirvanNewman/Main.java:127-132 | deleting edges in both directions leaves a symmetric map symmetric |
| GraphStore.WithoutEdgesIdempotent | GirvanNewman/Main.java:118-133 | deleting the same keys again changes nothing, so a second `removeEdges` on an unchanged table leaves the graph as it is |
| GirvanNewman.Graph.Explore | GirvanNewman/Main.java:149-157 | `node` becomes visited, and only nodes of the graph are; the component grows by exactly the newly visited nodes; every newly visited node has all its neighbours visited; everything in the component is reachable from the node the search started from |
| GirvanNewman.Graph.GetConnectedComponents | GirvanNewman/Main.java:136-147 | the list partitions the node set into non-empty, pairwise disjoint sets, each a connected component |
| Components.NewComponent | GirvanNewman/Main.java:140-143 | the nodes one `explore` adds form a component, and the visited nodes remain closed under neighbours |
| Components.ComponentsGrow | GirvanNewman/Main.java:143 | appending the new component keeps the list pairwise disjoint with the visited nodes as its union |
| Graphs.ComponentsEqualOrDisjoint | GirvanNewman/Main.java:136-147 | two components that share a node are equal |
| Components.ComponentListed | GirvanNewman/Main.java:136-147 | every connected component of the graph occurs in a component list |
| GirvanNewman.Graph.FindLargestConnectedComponent | GirvanNewman/Main.java:189-200 | none (Java's null) exactly when the graph has no nodes; otherwise the component at a position `k` of the list, as large as every component and strictly larger than every earlier one |
| Components.FirstLargestIsLargest | GirvanNewman/Main.java:189-200 | the component chosen is at least as large as every connected component of the graph |
| Components.EmptyComponentList | GirvanNewman/Main.java:189-199 | the component list is empty exactly when the map has no nodes, which is when null is returned |
| GirvanNewman.Graph.RemoveNodesOutsideLargestComponent | GirvanNewman/Main.java:172-186 | an empty graph is left as it is; otherwise the node set becomes the first largest component; no neighbour set names an outside node; every kept node keeps all its neighbours; every score key has both endpoints inside; the graph then has exactly one component list, that one component |
| GirvanNewman.Graph.PruneNodes | GirvanNewman/Main.java:175-183 | the adjacency map becomes `Restrict` of the old one: outside nodes dropped, outside neighbours dropped from the rest |
| GirvanNewman.Graph.PruneScores | GirvanNewman/Main.java:185 | the table becomes `RestrictScores` of the old one: the keys with both endpoints inside, with their scores |
| GraphStore.Restrict | GirvanNewman/Main.java:175-183 | the nodes kept are the old nodes inside the set, and every neighbour kept is inside it |
| GraphStore.RestrictScores | GirvanNewman/Main.java:185 | a key is kept exactly when both its endpoints are inside, with its score unchanged |
| GraphStore.RestrictToComponent | GirvanNewman/Main.java:172-186 | pruning a symmetric graph to a component keeps exactly that component, leaves each kept node's neighbours unchanged, and leaves a symmetric graph that is that connected component |
| Components.SingleComponent | GirvanNewman/Main.java:208-211 | after the pruning, the one component is a component list of the graph |
| Components.OnlyComponentList | GirvanNewman/Main.java:208-211 | a graph that is one component has no other component list, so `getConnectedComponents` returns exactly one set |

## Left out

- `readGraphFromFile` and the output writing in `main` are file I/O. They are not modelled, and the graph is built by calling `AddEdge`.
- The dependency back-propagation in `bfs` (GirvanNewman/Main.java:93-115) uses `double` arithmetic, a truncating cast and a cutoff on it. It is not modelled: the score table is a map of integers that the store reads and prunes but that no modelled operation raises.
- The rounds loop of `computeBetweenness` (GirvanNewman/Main.java:47-58) and the loop of `main` (GirvanNewman/Main.java:211-214) are not modelled. Their termination depends on the floating-point scores, and the table keeps scores for edges already deleted. `WithoutEdgesIdempotent` shows why a repeated `removeEdges` on an unchanged table can make no progress.
- The unused `Main gra = new Main()` (GirvanNewman/Main.java:45) and the sort loop whose result is discarded (GirvanNewman/Main.java:52-55) are dead code.
- Brandes.Search: `sigma` is an unbounded integer. Java's `int` wraps once a node has more than 2^31 - 1 shortest paths, for example at the end of a chain of 31 diamonds. The model does not capture that wrap-around, so `PathCounts` is the exact sum.
- GirvanNewman.Graph.Bfs: requires `source` to be a node. Java would throw on `adjList.get(i)` for a missing source, and every caller passes a key of `adjList`.
- GirvanNewman.Graph.Explore: the sets `visited` and `component`, which Java shares by reference, are passed in and returned as values. Java also recurses once per newly visited node, so a long path can end in a `StackOverflowError`; the model's recursion has no depth limit and does not capture that.
- GirvanNewman.Graph.FindLargestConnectedComponent: which component is first depends on the iteration order picked. The model proves the property for the list that was built, not for Java's particular hash order.
