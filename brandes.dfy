/**
 * The forward phase of Brandes' algorithm as run by `bfs`: a breadth-first
 * search from one source that fills in, for every node, its distance `dist`,
 * its number of shortest paths `sigma`, and its shortest-path predecessors
 * `pred`, and pushes the nodes on a stack in the order they leave the queue.
 *
 * The stack is a sequence whose pushes append at the end, so the order in
 * which the back-propagation pops it is the reverse of the sequence.
 */
module Brandes {
  import opened Graphs

  /** No node occurs twice in `s`. */
  ghost predicate Distinct(s: seq<int>)
  {
    s == [] || (s[0] !in s[1..] && Distinct(s[1..]))
  }

  /** Two positions of a sequence without repetition hold different nodes. */
  lemma {:induction false} DistinctIndices(s: seq<int>, a: int, b: int)
    requires Distinct(s) && 0 <= a < b < |s|
    ensures s[a] != s[b]
  {
    if a == 0 {
      assert s[b] == s[1..][b - 1];
    } else {
      DistinctIndices(s[1..], a - 1, b - 1);
    }
  }

  /** A sequence of distinct nodes drawn from `keys` is no longer than `keys` is large. */
  lemma {:induction false} DistinctBounded(s: seq<int>, keys: set<int>)
    requires Distinct(s) && forall k :: 0 <= k < |s| ==> s[k] in keys
    ensures |s| <= |keys|
  {
    if s != [] {
      forall k | 0 <= k < |s| - 1 ensures s[1..][k] in keys - {s[0]} {
        assert s[1..][k] == s[k + 1] && s[k + 1] in s[1..];
      }
      DistinctBounded(s[1..], keys - {s[0]});
    }
  }

  lemma {:induction false} DistinctAppend(s: seq<int>, x: int)
    requires Distinct(s) && x !in s
    ensures Distinct(s + [x])
  {
    if s != [] {
      assert (s + [x])[1..] == s[1..] + [x];
      assert x == s[0] || x in s[1..] ==> x in s;
      DistinctAppend(s[1..], x);
    }
  }

  /** The sum of `sigma` over the nodes of `vs`, counting a node with no entry as 0. */
  function SumOver(sigma: map<int, int>, vs: seq<int>): int
  {
    if vs == [] then 0
    else SumOver(sigma, vs[..|vs| - 1]) + (if vs[|vs| - 1] in sigma then sigma[vs[|vs| - 1]] else 0)
  }

  lemma SumOverAppend(sigma: map<int, int>, vs: seq<int>, v: int)
    requires v in sigma
    ensures SumOver(sigma, vs + [v]) == SumOver(sigma, vs) + sigma[v]
  {
    assert (vs + [v])[..|vs|] == vs;
  }

  /** Changing the entry of a node that is not in `vs` does not change the sum over `vs`. */
  lemma {:induction false} SumOverUpdate(sigma: map<int, int>, vs: seq<int>, k: int, x: int)
    requires k !in vs
    ensures SumOver(sigma[k := x], vs) == SumOver(sigma, vs)
  {
    if vs != [] {
      SumOverUpdate(sigma, vs[..|vs| - 1], k, x);
    }
  }

  // ---------------------------------------------------------------------
  // What `bfs` establishes once its queue is empty
  // ---------------------------------------------------------------------

  /** `dist`, `sigma` and `pred` have an entry for every node and for nothing else. */
  ghost predicate Domains(adj: Adjacency, dist: map<int, int>, sigma: map<int, int>, pred: map<int, seq<int>>)
  {
    dist.Keys == adj.Keys && sigma.Keys == adj.Keys && pred.Keys == adj.Keys
  }

  /**
   * The source starts at distance 0 with one path and no predecessors; a node
   * the search never reaches keeps its initial entries -1, 0 and [].
   */
  ghost predicate Initialised(adj: Adjacency, src: int, dist: map<int, int>, sigma: map<int, int>, pred: map<int, seq<int>>)
    requires Domains(adj, dist, sigma, pred)
  {
    && src in adj
    && dist[src] == 0 && sigma[src] == 1 && pred[src] == []
    && forall w :: w in adj && dist[w] < 0 ==> dist[w] == -1 && sigma[w] == 0 && pred[w] == []
  }

  /** A node gets a distance exactly when some walk leads to it from the source. */
  ghost predicate ReachedExactly(adj: Adjacency, src: int, dist: map<int, int>)
    requires dist.Keys == adj.Keys
  {
    forall w :: w in adj ==> (dist[w] >= 0 <==> Reachable(adj, src, w))
  }

  /**
   * Every neighbour of a reached node is reached, at most one layer further
   * out; with symmetry the layers of two neighbours differ by at most one.
   */
  ghost predicate Layered(adj: Adjacency, dist: map<int, int>)
    requires dist.Keys == adj.Keys
  {
    forall w, v :: w in adj && dist[w] >= 0 && v in adj[w] ==> v in adj && 0 <= dist[v] <= dist[w] + 1
  }

  /**
   * `pred[w]` lists, without repetition, exactly the neighbours of `w` one
   * layer closer to the source; every reached node but the source has one.
   */
  ghost predicate PredecessorsExact(adj: Adjacency, src: int, dist: map<int, int>, pred: map<int, seq<int>>)
    requires dist.Keys == adj.Keys && pred.Keys == adj.Keys
  {
    && PredsAreCloser(adj, dist, pred)
    && CloserArePreds(adj, dist, pred)
    && (forall w :: w in adj ==> Distinct(pred[w]))
    && (forall w :: w in adj && w != src && dist[w] >= 0 ==> pred[w] != [])
  }

  /** Every listed predecessor of `w` is a reached neighbour one layer closer. */
  ghost predicate PredsAreCloser(adj: Adjacency, dist: map<int, int>, pred: map<int, seq<int>>)
    requires dist.Keys == adj.Keys && pred.Keys == adj.Keys
  {
    forall w, v :: w in adj && v in pred[w] ==> v in adj[w] && v in adj && dist[v] >= 0 && dist[w] == dist[v] + 1
  }

  /** Every reached neighbour of `w` one layer closer is listed as a predecessor. */
  ghost predicate CloserArePreds(adj: Adjacency, dist: map<int, int>, pred: map<int, seq<int>>)
    requires dist.Keys == adj.Keys && pred.Keys == adj.Keys
  {
    forall w, v :: w in adj && v in adj[w] && v in adj && dist[v] >= 0 && dist[w] == dist[v] + 1 ==> v in pred[w]
  }

  /** The path count of a node is the sum of its predecessors' path counts (1 at the source). */
  ghost predicate PathCounts(adj: Adjacency, src: int, sigma: map<int, int>, pred: map<int, seq<int>>)
    requires sigma.Keys == adj.Keys && pred.Keys == adj.Keys
  {
    forall w :: w in adj ==> sigma[w] == (if w == src then 1 else 0) + SumOver(sigma, pred[w])
  }

  /** The stack holds each reached node once, in non-decreasing distance. */
  ghost predicate StackOrder(adj: Adjacency, dist: map<int, int>, stack: seq<int>)
    requires dist.Keys == adj.Keys
  {
    && Distinct(stack)
    && (forall k :: 0 <= k < |stack| ==> stack[k] in adj)
    && (forall w :: w in adj ==> (w in stack <==> dist[w] >= 0))
    && (forall a, b :: 0 <= a < b < |stack| ==> dist[stack[a]] <= dist[stack[b]])
  }

  // ---------------------------------------------------------------------
  // The loop invariant of `bfs`
  // ---------------------------------------------------------------------

  /** No node of `s` is further from the source than the next one. */
  ghost predicate Sorted(dist: map<int, int>, s: seq<int>)
  {
    |s| <= 1 || (s[0] in dist && s[1] in dist && dist[s[0]] <= dist[s[1]] && Sorted(dist, s[1..]))
  }

  /** In a sorted sequence no node is further out than a later one. */
  lemma {:induction false} SortedIndices(dist: map<int, int>, s: seq<int>, a: int, b: int)
    requires Sorted(dist, s) && 0 <= a < b < |s|
    ensures s[a] in dist && s[b] in dist && dist[s[a]] <= dist[s[b]]
  {
    if a == 0 {
      if b > 1 {
        SortedIndices(dist, s[1..], 0, b - 1);
      }
    } else {
      SortedIndices(dist, s[1..], a - 1, b - 1);
    }
  }

  /** A node no closer than the last one extends a sorted sequence. */
  lemma {:induction false} SortedAppend(dist: map<int, int>, s: seq<int>, x: int)
    requires Sorted(dist, s) && x in dist
    requires s != [] ==> s[|s| - 1] in dist && dist[s[|s| - 1]] <= dist[x]
    ensures Sorted(dist, s + [x])
  {
    if s != [] {
      assert (s + [x])[1..] == s[1..] + [x];
      if |s| > 1 {
        assert s[1..][|s| - 2] == s[|s| - 1];
      }
      SortedAppend(dist, s[1..], x);
    }
  }

  /** Sortedness depends only on the distances of the nodes in the sequence. */
  lemma {:induction false} SortedFrame(dist: map<int, int>, dist': map<int, int>, s: seq<int>)
    requires Sorted(dist, s)
    requires forall k :: 0 <= k < |s| ==> s[k] in dist && s[k] in dist' && dist'[s[k]] == dist[s[k]]
    ensures Sorted(dist', s)
  {
    if |s| > 1 {
      SortedFrame(dist, dist', s[1..]);
    }
  }

  /**
   * The reached nodes are those pushed on the stack and those still queued,
   * never both; no pushed node is further out than the last one, and the
   * queue spans the layer of the last node pushed and the one after it.
   */
  ghost predicate Frontier(adj: Adjacency, src: int, dist: map<int, int>, queue: seq<int>, stack: seq<int>)
    requires dist.Keys == adj.Keys
  {
    && (forall k :: 0 <= k < |stack| ==> stack[k] in adj && dist[stack[k]] >= 0)
    && (forall k :: 0 <= k < |queue| ==> queue[k] in adj)
    && (forall k :: 0 <= k < |queue| ==> queue[k] !in stack)
    && (forall w :: w in adj ==> dist[w] >= -1 && (dist[w] >= 0 <==> w in stack || w in queue))
    && (stack == [] ==> queue == [src])
    && (stack != [] ==> forall k :: 0 <= k < |stack| ==> dist[stack[k]] <= dist[stack[|stack| - 1]])
    && (stack != [] ==> forall k :: 0 <= k < |queue| ==>
          dist[stack[|stack| - 1]] <= dist[queue[k]] <= dist[stack[|stack| - 1]] + 1)
  }

  /** The pushed nodes and the queued nodes each occur once, in non-decreasing distance. */
  ghost predicate Ordered(dist: map<int, int>, queue: seq<int>, stack: seq<int>)
  {
    Distinct(stack) && Distinct(queue) && Sorted(dist, stack) && Sorted(dist, queue)
  }

  /** Every `v` in `pred[w]` has been pushed, has `w` as a neighbour and lies one layer closer. */
  ghost predicate PredSound(adj: Adjacency, dist: map<int, int>, pred: map<int, seq<int>>, stack: seq<int>)
    requires dist.Keys == adj.Keys && pred.Keys == adj.Keys
  {
    forall w, v :: w in adj && v in pred[w] ==> v in stack && v in adj && w in adj[v] && dist[w] == dist[v] + 1
  }

  /** The neighbours `ns` of the pushed node `v` are reached, and list `v` as predecessor where they should. */
  ghost predicate Handled(adj: Adjacency, dist: map<int, int>, pred: map<int, seq<int>>, v: int, ns: set<int>)
    requires dist.Keys == adj.Keys && pred.Keys == adj.Keys && v in adj
  {
    forall w :: w in ns ==> w in adj && 0 <= dist[w] <= dist[v] + 1 && (dist[w] == dist[v] + 1 ==> v in pred[w])
  }

  /**
   * Every pushed node but the last has handled all its neighbours; the last
   * has handled those in `done` and is a predecessor of no other node.
   */
  ghost predicate Processed(adj: Adjacency, dist: map<int, int>, pred: map<int, seq<int>>, stack: seq<int>, done: set<int>)
    requires dist.Keys == adj.Keys && pred.Keys == adj.Keys
    requires forall k :: 0 <= k < |stack| ==> stack[k] in adj
  {
    && (forall k :: 0 <= k < |stack| - 1 ==> Handled(adj, dist, pred, stack[k], adj[stack[k]]))
    && (stack != [] ==>
          && done <= adj[stack[|stack| - 1]]
          && Handled(adj, dist, pred, stack[|stack| - 1], done)
          && forall w :: w in adj && stack[|stack| - 1] in pred[w] ==> w in done)
  }

  /** Path counts so far; the source and unreached nodes have no predecessor, every other node has one. */
  ghost predicate Counted(adj: Adjacency, src: int, dist: map<int, int>, sigma: map<int, int>, pred: map<int, seq<int>>)
    requires Domains(adj, dist, sigma, pred)
  {
    && PathCounts(adj, src, sigma, pred)
    && src in adj && pred[src] == []
    && (forall w :: w in adj && dist[w] < 0 ==> sigma[w] == 0 && pred[w] == [])
    && (forall w :: w in adj && w != src && dist[w] >= 0 ==> pred[w] != [])
  }

  /** The loop invariant of `bfs`: its ordering part and the rest. */
  ghost predicate Inv(adj: Adjacency, src: int, dist: map<int, int>, sigma: map<int, int>,
                      pred: map<int, seq<int>>, queue: seq<int>, stack: seq<int>, done: set<int>)
  {
    InvCore(adj, src, dist, sigma, pred, queue, stack, done) && Ordered(dist, queue, stack)
  }

  /** Everything the invariant says except the order of the stack and the queue. */
  ghost predicate InvCore(adj: Adjacency, src: int, dist: map<int, int>, sigma: map<int, int>,
                          pred: map<int, seq<int>>, queue: seq<int>, stack: seq<int>, done: set<int>)
  {
    && Domains(adj, dist, sigma, pred)
    && src in adj && dist[src] == 0
    && Frontier(adj, src, dist, queue, stack)
    && PredSound(adj, dist, pred, stack)
    && (forall w :: w in adj ==> Distinct(pred[w]))
    && Processed(adj, dist, pred, stack, done)
    && Counted(adj, src, dist, sigma, pred)
    && (forall w :: w in adj && dist[w] >= 0 ==> Reachable(adj, src, w))
  }

  /** The state `bfs` builds before its loop satisfies the invariant. */
  lemma InitEstablishes(adj: Adjacency, src: int)
    requires src in adj
    ensures var dist := (map w | w in adj :: -1)[src := 0];
      var sigma := (map w | w in adj :: 0)[src := 1];
      var pred := map w | w in adj :: [];
      Inv(adj, src, dist, sigma, pred, [src], [], {})
  {
    var dist := (map w | w in adj :: -1)[src := 0];
    var sigma := (map w | w in adj :: 0)[src := 1];
    var pred: map<int, seq<int>> := map w | w in adj :: [];
    ReachableRefl(adj, src);
    assert forall w :: w in adj && dist[w] >= 0 ==> w == src;
    assert PathCounts(adj, src, sigma, pred);
  }

  /** No pushed node is further out than the last one, and every queued node lies in its layer or the next. */
  lemma StackBelowTop(adj: Adjacency, src: int, dist: map<int, int>, queue: seq<int>, stack: seq<int>)
    requires dist.Keys == adj.Keys && Frontier(adj, src, dist, queue, stack) && stack != []
    ensures forall v :: v in stack ==> v in adj && dist[v] <= dist[stack[|stack| - 1]]
    ensures forall q :: q in queue ==> q in adj && dist[stack[|stack| - 1]] <= dist[q] <= dist[stack[|stack| - 1]] + 1
    ensures forall v :: v in queue ==> v !in stack
  {
    forall v | v in stack ensures v in adj && dist[v] <= dist[stack[|stack| - 1]] {
      var k :| 0 <= k < |stack| && stack[k] == v;
    }
  }

  /** Moving the head of the queue onto the stack keeps the invariant. */
  lemma PopStep(adj: Adjacency, src: int, dist: map<int, int>, sigma: map<int, int>,
                pred: map<int, seq<int>>, queue: seq<int>, stack: seq<int>, done: set<int>)
    requires Inv(adj, src, dist, sigma, pred, queue, stack, done)
    requires queue != []
    requires stack != [] ==> done == adj[stack[|stack| - 1]]
    ensures Inv(adj, src, dist, sigma, pred, queue[1..], stack + [queue[0]], {})
  {
    assert queue[0] in queue;
    PopFrontier(adj, src, dist, queue, stack);
    PopOrdered(dist, queue, stack);
    PopPredSound(adj, dist, pred, stack, queue[0]);
    PopProcessed(adj, dist, pred, stack, done, queue[0]);
  }

  lemma PopFrontier(adj: Adjacency, src: int, dist: map<int, int>, queue: seq<int>, stack: seq<int>)
    requires dist.Keys == adj.Keys && Frontier(adj, src, dist, queue, stack) && queue != []
    requires Distinct(queue) && Sorted(dist, queue)
    ensures Frontier(adj, src, dist, queue[1..], stack + [queue[0]])
  {
    PopMembers(stack, queue);
    if stack != [] {
      StackBelowTop(adj, src, dist, queue, stack);
      PopOrder(adj, dist, queue, stack);
    }
  }

  /** Moving the head of the queue onto the stack keeps each node in exactly one of them. */
  lemma PopMembers(stack: seq<int>, queue: seq<int>)
    requires queue != [] && Distinct(queue)
    requires forall k :: 0 <= k < |queue| ==> queue[k] !in stack
    ensures forall w :: w in queue <==> w == queue[0] || w in queue[1..]
    ensures forall w :: w in stack + [queue[0]] <==> w in stack || w == queue[0]
    ensures forall k :: 0 <= k < |queue| - 1 ==> queue[1..][k] !in stack + [queue[0]]
  {
    assert queue[0] !in queue[1..];
    forall k | 0 <= k < |queue| - 1 ensures queue[1..][k] !in stack + [queue[0]] {
      assert queue[1..][k] == queue[k + 1];
    }
  }

  /** The distance facts of the frontier once the head of the queue is pushed. */
  lemma PopOrder(adj: Adjacency, dist: map<int, int>, queue: seq<int>, stack: seq<int>)
    requires dist.Keys == adj.Keys && queue != [] && stack != []
    requires forall k :: 0 <= k < |stack| ==> stack[k] in adj
    requires forall k :: 0 <= k < |queue| ==> queue[k] in adj
    requires Sorted(dist, queue)
    requires forall v :: v in stack ==> v in adj && dist[v] <= dist[stack[|stack| - 1]]
    requires forall q :: q in queue ==> q in adj && dist[stack[|stack| - 1]] <= dist[q] <= dist[stack[|stack| - 1]] + 1
    ensures forall k :: 0 <= k < |stack| + 1 ==> dist[(stack + [queue[0]])[k]] <= dist[queue[0]]
    ensures forall k :: 0 <= k < |queue| - 1 ==>
      dist[queue[0]] <= dist[queue[1..][k]] <= dist[queue[0]] + 1
  {
    var i := queue[0];
    assert i in queue;
    forall k | 0 <= k < |stack| + 1 ensures dist[(stack + [i])[k]] <= dist[i] {
      if k < |stack| {
        assert (stack + [i])[k] == stack[k] && stack[k] in stack;
      }
    }
    forall k | 0 <= k < |queue| - 1 ensures dist[i] <= dist[queue[1..][k]] <= dist[i] + 1 {
      assert queue[1..][k] == queue[k + 1];
      assert queue[k + 1] in queue;
      SortedIndices(dist, queue, 0, k + 1);
    }
  }

  /** The pushed head of the queue is no closer than the last pushed node, so the order survives the move. */
  lemma PopOrdered(dist: map<int, int>, queue: seq<int>, stack: seq<int>)
    requires queue != [] && Ordered(dist, queue, stack) && queue[0] !in stack && queue[0] in dist
    requires stack != [] ==> stack[|stack| - 1] in dist && dist[stack[|stack| - 1]] <= dist[queue[0]]
    ensures Ordered(dist, queue[1..], stack + [queue[0]])
  {
    DistinctAppend(stack, queue[0]);
    SortedAppend(dist, stack, queue[0]);
  }

  lemma PopPredSound(adj: Adjacency, dist: map<int, int>, pred: map<int, seq<int>>, stack: seq<int>, i: int)
    requires dist.Keys == adj.Keys && pred.Keys == adj.Keys && PredSound(adj, dist, pred, stack)
    ensures PredSound(adj, dist, pred, stack + [i])
  {
    assert forall v :: v in stack ==> v in stack + [i];
  }

  lemma PopProcessed(adj: Adjacency, dist: map<int, int>, pred: map<int, seq<int>>, stack: seq<int>, done: set<int>, i: int)
    requires dist.Keys == adj.Keys && pred.Keys == adj.Keys && i in adj
    requires forall k :: 0 <= k < |stack| ==> stack[k] in adj
    requires Processed(adj, dist, pred, stack, done)
    requires stack != [] ==> done == adj[stack[|stack| - 1]]
    requires forall w :: w in adj ==> i !in pred[w]
    ensures Processed(adj, dist, pred, stack + [i], {})
  {
    var stack' := stack + [i];
    forall k | 0 <= k < |stack'| - 1
      ensures Handled(adj, dist, pred, stack'[k], adj[stack'[k]])
    {
      assert stack'[k] == stack[k];
    }
  }

  /**
   * The state updates of one pass of the inner loop keep what the pushed
   * nodes have handled, given that reached nodes keep their distance and
   * predecessor lists only grow.
   */
  lemma ProcessedGrow(adj: Adjacency, dist: map<int, int>, pred: map<int, seq<int>>, stack: seq<int>, done: set<int>,
                      neig: int, dist': map<int, int>, pred': map<int, seq<int>>)
    requires dist.Keys == adj.Keys && pred.Keys == adj.Keys && dist'.Keys == adj.Keys && pred'.Keys == adj.Keys
    requires forall k :: 0 <= k < |stack| ==> stack[k] in adj && dist[stack[k]] >= 0
    requires Processed(adj, dist, pred, stack, done) && stack != []
    requires forall w :: w in adj && dist[w] >= 0 ==> dist'[w] == dist[w]
    requires forall w, v :: w in adj && v in pred[w] ==> v in pred'[w]
    requires neig in adj
    requires var t := stack[|stack| - 1];
      && neig in adj[t] && 0 <= dist'[neig] <= dist'[t] + 1 && (dist'[neig] == dist'[t] + 1 ==> t in pred'[neig])
      && forall w :: w in adj && t in pred'[w] ==> w in done || w == neig
    ensures Processed(adj, dist', pred', stack, done + {neig})
  {
    forall k | 0 <= k < |stack| - 1 ensures Handled(adj, dist', pred', stack[k], adj[stack[k]]) {
      assert Handled(adj, dist, pred, stack[k], adj[stack[k]]);
    }
    var t := stack[|stack| - 1];
    assert Handled(adj, dist, pred, t, done);
  }

  /** Appending the pushed node `i` to the predecessors of its neighbour `neig` keeps them sound. */
  lemma PredSoundGrow(adj: Adjacency, dist: map<int, int>, pred: map<int, seq<int>>, stack: seq<int>,
                      i: int, neig: int, dist': map<int, int>, pred': map<int, seq<int>>)
    requires dist.Keys == adj.Keys && pred.Keys == adj.Keys && dist'.Keys == adj.Keys
    requires PredSound(adj, dist, pred, stack)
    requires i in stack && i in adj && neig in adj[i] && neig in adj && neig !in stack
    requires forall w :: w in adj && w != neig ==> dist'[w] == dist[w]
    requires pred[neig] == [] || dist'[neig] == dist[neig]
    requires dist'[neig] == dist'[i] + 1
    requires pred' == pred[neig := pred[neig] + [i]]
    ensures PredSound(adj, dist', pred', stack)
  {
    forall w, v | w in adj && v in pred'[w] ensures v in stack && v in adj && w in adj[v] && dist'[w] == dist'[v] + 1 {
      if w == neig && v !in pred[w] {
        assert v == i;
      } else {
        assert v in pred[w];
      }
    }
  }

  /** Adding the path count of `i` to that of its successor `neig` keeps every count a sum over predecessors. */
  lemma CountsGrow(adj: Adjacency, src: int, sigma: map<int, int>, pred: map<int, seq<int>>,
                   i: int, neig: int, sigma': map<int, int>, pred': map<int, seq<int>>)
    requires sigma.Keys == adj.Keys && pred.Keys == adj.Keys
    requires PathCounts(adj, src, sigma, pred)
    requires i in adj && neig in adj && i != neig
    requires forall w :: w in adj ==> neig !in pred[w]
    requires sigma' == sigma[neig := sigma[neig] + sigma[i]] && pred' == pred[neig := pred[neig] + [i]]
    ensures PathCounts(adj, src, sigma', pred')
  {
    forall w | w in adj ensures sigma'[w] == (if w == src then 1 else 0) + SumOver(sigma', pred'[w]) {
      SumOverUpdate(sigma, pred[w], neig, sigma[neig] + sigma[i]);
      if w == neig {
        SumOverAppend(sigma', pred[neig], i);
      }
    }
  }

  /** The first `if` of the inner loop of `bfs`: an unreached `neig` gets the layer after `i` and joins the queue. */
  ghost predicate Discover(dist: map<int, int>, queue: seq<int>, i: int, neig: int, dist': map<int, int>, queue': seq<int>)
    requires i in dist && neig in dist
  {
    && dist' == (if dist[neig] < 0 then dist[neig := dist[i] + 1] else dist)
    && queue' == (if dist[neig] < 0 then queue + [neig] else queue)
  }

  /** The second `if`: a `neig` one layer after `i` gains the paths of `i` and `i` as a predecessor. */
  ghost predicate Count(dist': map<int, int>, sigma: map<int, int>, pred: map<int, seq<int>>, i: int, neig: int,
                        sigma': map<int, int>, pred': map<int, seq<int>>)
    requires i in dist' && neig in dist' && i in sigma && neig in sigma && neig in pred
  {
    && sigma' == (if dist'[neig] == dist'[i] + 1 then sigma[neig := sigma[neig] + sigma[i]] else sigma)
    && pred' == (if dist'[neig] == dist'[i] + 1 then pred[neig := pred[neig] + [i]] else pred)
  }

  /**
   * One pass of the inner loop of `bfs` for the neighbour `neig` of the last
   * pushed node keeps the invariant, one part at a time.
   */
  lemma RelaxStep(adj: Adjacency, src: int, dist: map<int, int>, sigma: map<int, int>,
                  pred: map<int, seq<int>>, queue: seq<int>, stack: seq<int>, done: set<int>, neig: int,
                  dist': map<int, int>, sigma': map<int, int>, pred': map<int, seq<int>>, queue': seq<int>)
    requires Inv(adj, src, dist, sigma, pred, queue, stack, done)
    requires stack != [] && neig in adj[stack[|stack| - 1]] && neig in adj && neig !in done
    requires Discover(dist, queue, stack[|stack| - 1], neig, dist', queue')
    requires Count(dist', sigma, pred, stack[|stack| - 1], neig, sigma', pred')
    ensures Inv(adj, src, dist', sigma', pred', queue', stack, done + {neig})
  {
    RelaxSearch(adj, src, dist, sigma, pred, queue, stack, done, neig, dist', sigma', pred', queue');
    RelaxCounts(adj, src, dist, sigma, pred, queue, stack, done, neig, dist', sigma', pred', queue');
    OrderedStep(adj, src, dist, queue, stack, neig, dist', queue');
  }

  /** Discovering a node appends it to the queue one layer after the last pushed node, so the order survives. */
  lemma OrderedStep(adj: Adjacency, src: int, dist: map<int, int>, queue: seq<int>, stack: seq<int>,
                    neig: int, dist': map<int, int>, queue': seq<int>)
    requires dist.Keys == adj.Keys && Frontier(adj, src, dist, queue, stack) && Ordered(dist, queue, stack)
    requires stack != [] && neig in adj[stack[|stack| - 1]] && neig in adj
    requires Discover(dist, queue, stack[|stack| - 1], neig, dist', queue')
    ensures Ordered(dist', queue', stack)
  {
    if dist[neig] < 0 {
      TopFacts(adj, src, dist, queue, stack, neig);
      assert forall k :: 0 <= k < |queue| ==> queue[k] in queue;
      SortedFrame(dist, dist', stack);
      SortedFrame(dist, dist', queue);
      if queue != [] {
        assert queue[|queue| - 1] in queue;
      }
      SortedAppend(dist', queue, neig);
      DistinctAppend(queue, neig);
    }
  }

  /** The search part of the invariant after one pass of the inner loop. */
  lemma RelaxSearch(adj: Adjacency, src: int, dist: map<int, int>, sigma: map<int, int>,
                    pred: map<int, seq<int>>, queue: seq<int>, stack: seq<int>, done: set<int>, neig: int,
                    dist': map<int, int>, sigma': map<int, int>, pred': map<int, seq<int>>, queue': seq<int>)
    requires InvCore(adj, src, dist, sigma, pred, queue, stack, done)
    requires stack != [] && neig in adj[stack[|stack| - 1]] && neig in adj && neig !in done
    requires Discover(dist, queue, stack[|stack| - 1], neig, dist', queue')
    requires Count(dist', sigma, pred, stack[|stack| - 1], neig, sigma', pred')
    ensures dist'.Keys == adj.Keys && pred'.Keys == adj.Keys
    ensures Frontier(adj, src, dist', queue', stack)
    ensures PredSound(adj, dist', pred', stack)
    ensures Processed(adj, dist', pred', stack, done + {neig})
  {
    RelaxFrontier(adj, src, dist, sigma, pred, queue, stack, done, neig, dist', sigma', pred', queue');
    RelaxPredSound(adj, src, dist, sigma, pred, queue, stack, done, neig, dist', sigma', pred', queue');
    RelaxProcessed(adj, src, dist, sigma, pred, queue, stack, done, neig, dist', sigma', pred', queue');
  }

  lemma RelaxFrontier(adj: Adjacency, src: int, dist: map<int, int>, sigma: map<int, int>,
                    pred: map<int, seq<int>>, queue: seq<int>, stack: seq<int>, done: set<int>, neig: int,
                    dist': map<int, int>, sigma': map<int, int>, pred': map<int, seq<int>>, queue': seq<int>)
    requires InvCore(adj, src, dist, sigma, pred, queue, stack, done)
    requires stack != [] && neig in adj[stack[|stack| - 1]] && neig in adj && neig !in done
    requires Discover(dist, queue, stack[|stack| - 1], neig, dist', queue')
    requires Count(dist', sigma, pred, stack[|stack| - 1], neig, sigma', pred')
    ensures dist'.Keys == adj.Keys
    ensures Frontier(adj, src, dist', queue', stack)
  {
    FrontierStep(adj, src, dist, queue, stack, neig, dist', queue');
  }

  lemma RelaxPredSound(adj: Adjacency, src: int, dist: map<int, int>, sigma: map<int, int>,
                    pred: map<int, seq<int>>, queue: seq<int>, stack: seq<int>, done: set<int>, neig: int,
                    dist': map<int, int>, sigma': map<int, int>, pred': map<int, seq<int>>, queue': seq<int>)
    requires InvCore(adj, src, dist, sigma, pred, queue, stack, done)
    requires stack != [] && neig in adj[stack[|stack| - 1]] && neig in adj && neig !in done
    requires Discover(dist, queue, stack[|stack| - 1], neig, dist', queue')
    requires Count(dist', sigma, pred, stack[|stack| - 1], neig, sigma', pred')
    ensures pred'.Keys == adj.Keys
    ensures PredSound(adj, dist', pred', stack)
  {
    var i := stack[|stack| - 1];
    TopFacts(adj, src, dist, queue, stack, neig);
    PredSoundStep(adj, dist, sigma, pred, stack, i, neig, dist', sigma', pred');
  }

  lemma RelaxProcessed(adj: Adjacency, src: int, dist: map<int, int>, sigma: map<int, int>,
                    pred: map<int, seq<int>>, queue: seq<int>, stack: seq<int>, done: set<int>, neig: int,
                    dist': map<int, int>, sigma': map<int, int>, pred': map<int, seq<int>>, queue': seq<int>)
    requires InvCore(adj, src, dist, sigma, pred, queue, stack, done)
    requires stack != [] && neig in adj[stack[|stack| - 1]] && neig in adj && neig !in done
    requires Discover(dist, queue, stack[|stack| - 1], neig, dist', queue')
    requires Count(dist', sigma, pred, stack[|stack| - 1], neig, sigma', pred')
    ensures Processed(adj, dist', pred', stack, done + {neig})
  {
    var i := stack[|stack| - 1];
    TopFacts(adj, src, dist, queue, stack, neig);
    ProcessedStep(adj, dist, sigma, pred, stack, done, i, neig, dist', sigma', pred');
  }

  /** The counting part of the invariant after one pass of the inner loop. */
  lemma RelaxCounts(adj: Adjacency, src: int, dist: map<int, int>, sigma: map<int, int>,
                    pred: map<int, seq<int>>, queue: seq<int>, stack: seq<int>, done: set<int>, neig: int,
                    dist': map<int, int>, sigma': map<int, int>, pred': map<int, seq<int>>, queue': seq<int>)
    requires InvCore(adj, src, dist, sigma, pred, queue, stack, done)
    requires stack != [] && neig in adj[stack[|stack| - 1]] && neig in adj && neig !in done
    requires Discover(dist, queue, stack[|stack| - 1], neig, dist', queue')
    requires Count(dist', sigma, pred, stack[|stack| - 1], neig, sigma', pred')
    ensures Domains(adj, dist', sigma', pred') && dist'[src] == 0
    ensures Counted(adj, src, dist', sigma', pred')
    ensures forall w :: w in adj ==> Distinct(pred'[w])
    ensures forall w :: w in adj && dist'[w] >= 0 ==> Reachable(adj, src, w)
  {
    var i := stack[|stack| - 1];
    TopFacts(adj, src, dist, queue, stack, neig);
    CountedStep(adj, src, dist, sigma, pred, stack, done, i, neig, dist', sigma', pred');
    ReachStep(adj, src, dist, i, neig, dist');
  }

  /**
   * The frontier after the first `if`, and what the frontier before it says
   * about the last pushed node and its neighbour `neig`.
   */
  lemma FrontierStep(adj: Adjacency, src: int, dist: map<int, int>, queue: seq<int>, stack: seq<int>,
                     neig: int, dist': map<int, int>, queue': seq<int>)
    requires dist.Keys == adj.Keys && Frontier(adj, src, dist, queue, stack) && stack != []
    requires neig in adj[stack[|stack| - 1]] && neig in adj
    requires Discover(dist, queue, stack[|stack| - 1], neig, dist', queue')
    ensures stack[|stack| - 1] in stack && stack[|stack| - 1] in adj && neig in adj
    ensures dist[stack[|stack| - 1]] >= 0
    ensures dist[neig] < 0 ==> neig !in stack
    ensures dist[neig] == dist[stack[|stack| - 1]] + 1 ==> neig !in stack
    ensures dist[neig] >= 0 ==> dist[neig] <= dist[stack[|stack| - 1]] + 1
    ensures forall k :: 0 <= k < |stack| ==> stack[k] in adj && dist[stack[k]] >= 0
    ensures dist'.Keys == adj.Keys
    ensures Frontier(adj, src, dist', queue', stack)
  {
    TopFacts(adj, src, dist, queue, stack, neig);
    if dist[neig] < 0 {
      FrontierDiscover(adj, src, dist, queue, stack, neig, dist');
    }
  }

  lemma PredSoundStep(adj: Adjacency, dist: map<int, int>, sigma: map<int, int>, pred: map<int, seq<int>>,
                      stack: seq<int>, i: int, neig: int,
                      dist': map<int, int>, sigma': map<int, int>, pred': map<int, seq<int>>)
    requires Domains(adj, dist, sigma, pred) && PredSound(adj, dist, pred, stack)
    requires i in stack && i in adj && dist[i] >= 0 && neig in adj[i] && neig in adj
    requires dist[neig] < 0 ==> neig !in stack && pred[neig] == []
    requires dist[neig] == dist[i] + 1 ==> neig !in stack
    requires dist' == (if dist[neig] < 0 then dist[neig := dist[i] + 1] else dist)
    requires Count(dist', sigma, pred, i, neig, sigma', pred')
    ensures pred'.Keys == adj.Keys
    ensures PredSound(adj, dist', pred', stack)
  {
    if dist'[neig] == dist'[i] + 1 {
      PredSoundGrow(adj, dist, pred, stack, i, neig, dist', pred');
    }
  }

  lemma ProcessedStep(adj: Adjacency, dist: map<int, int>, sigma: map<int, int>, pred: map<int, seq<int>>,
                      stack: seq<int>, done: set<int>, i: int, neig: int,
                      dist': map<int, int>, sigma': map<int, int>, pred': map<int, seq<int>>)
    requires Domains(adj, dist, sigma, pred)
    requires forall k :: 0 <= k < |stack| ==> stack[k] in adj && dist[stack[k]] >= 0
    requires Processed(adj, dist, pred, stack, done) && stack != [] && i == stack[|stack| - 1]
    requires i in adj && dist[i] >= 0 && neig in adj[i] && neig in adj && neig !in done
    requires dist[neig] >= 0 ==> dist[neig] <= dist[i] + 1
    requires dist' == (if dist[neig] < 0 then dist[neig := dist[i] + 1] else dist)
    requires Count(dist', sigma, pred, i, neig, sigma', pred')
    ensures Processed(adj, dist', pred', stack, done + {neig})
  {
    assert forall w :: w in adj && dist[w] >= 0 ==> dist'[w] == dist[w];
    assert forall w, v :: w in adj && v in pred[w] ==> v in pred'[w];
    assert forall w :: w in adj && i in pred'[w] ==> w in done || w == neig;
    ProcessedGrow(adj, dist, pred, stack, done, neig, dist', pred');
  }

  lemma CountedStep(adj: Adjacency, src: int, dist: map<int, int>, sigma: map<int, int>, pred: map<int, seq<int>>,
                    stack: seq<int>, done: set<int>, i: int, neig: int,
                    dist': map<int, int>, sigma': map<int, int>, pred': map<int, seq<int>>)
    requires Domains(adj, dist, sigma, pred) && src in adj && dist[src] == 0
    requires Counted(adj, src, dist, sigma, pred) && PredSound(adj, dist, pred, stack)
    requires forall w :: w in adj ==> Distinct(pred[w])
    requires forall k :: 0 <= k < |stack| ==> stack[k] in adj
    requires Processed(adj, dist, pred, stack, done) && stack != [] && i == stack[|stack| - 1]
    requires i in adj && dist[i] >= 0 && neig in adj[i] && neig in adj && neig !in done
    requires dist[neig] < 0 ==> neig !in stack
    requires dist[neig] == dist[i] + 1 ==> neig !in stack
    requires dist' == (if dist[neig] < 0 then dist[neig := dist[i] + 1] else dist)
    requires Count(dist', sigma, pred, i, neig, sigma', pred')
    ensures Domains(adj, dist', sigma', pred') && dist'[src] == 0
    ensures Counted(adj, src, dist', sigma', pred')
    ensures forall w :: w in adj ==> Distinct(pred'[w])
  {
    if dist'[neig] == dist'[i] + 1 {
      UnlistedNode(adj, dist, pred, stack, neig);
      TopNotListed(adj, dist, pred, stack, done, neig);
      CountsGrow(adj, src, sigma, pred, i, neig, sigma', pred');
      CountedGrow(adj, src, dist, sigma, pred, i, neig, dist', sigma', pred');
      DistinctPredsGrow(adj, pred, i, neig);
    }
  }

  lemma ReachStep(adj: Adjacency, src: int, dist: map<int, int>, i: int, neig: int, dist': map<int, int>)
    requires dist.Keys == adj.Keys
    requires forall w :: w in adj && dist[w] >= 0 ==> Reachable(adj, src, w)
    requires i in adj && dist[i] >= 0 && neig in adj[i] && neig in adj
    requires dist' == (if dist[neig] < 0 then dist[neig := dist[i] + 1] else dist)
    ensures forall w :: w in adj && dist'[w] >= 0 ==> Reachable(adj, src, w)
  {
    if dist[neig] < 0 {
      ReachGrow(adj, src, dist, i, neig, dist');
    }
  }

  /**
   * What the frontier says about a neighbour `neig` of the last pushed node:
   * it is a node, unreached exactly when neither pushed nor queued, and when
   * reached at most one layer further out.
   */
  lemma TopFacts(adj: Adjacency, src: int, dist: map<int, int>, queue: seq<int>, stack: seq<int>, neig: int)
    requires dist.Keys == adj.Keys && Frontier(adj, src, dist, queue, stack) && stack != []
    requires neig in adj[stack[|stack| - 1]] && neig in adj
    ensures stack[|stack| - 1] in stack && stack[|stack| - 1] in adj
    ensures dist[stack[|stack| - 1]] >= 0
    ensures dist[neig] < 0 ==> neig !in stack && neig !in queue
    ensures dist[neig] >= 0 ==> neig in stack || neig in queue
    ensures dist[neig] == dist[stack[|stack| - 1]] + 1 ==> neig !in stack
    ensures dist[neig] >= 0 ==> dist[neig] <= dist[stack[|stack| - 1]] + 1
    ensures forall k :: 0 <= k < |stack| ==> stack[k] in adj && dist[stack[k]] >= 0
  {
    var t := stack[|stack| - 1];
    assert t in adj && t in stack;
    StackBelowTop(adj, src, dist, queue, stack);
  }

  /** A node that has not been pushed is nobody's predecessor. */
  lemma UnlistedNode(adj: Adjacency, dist: map<int, int>, pred: map<int, seq<int>>, stack: seq<int>, neig: int)
    requires dist.Keys == adj.Keys && pred.Keys == adj.Keys && PredSound(adj, dist, pred, stack)
    requires neig !in stack
    ensures forall w :: w in adj ==> neig !in pred[w]
  {
  }

  /** The last pushed node is not yet a predecessor of a neighbour it has not handled. */
  lemma TopNotListed(adj: Adjacency, dist: map<int, int>, pred: map<int, seq<int>>, stack: seq<int>, done: set<int>, neig: int)
    requires dist.Keys == adj.Keys && pred.Keys == adj.Keys
    requires forall k :: 0 <= k < |stack| ==> stack[k] in adj
    requires Processed(adj, dist, pred, stack, done) && stack != []
    requires neig in adj && neig !in done
    ensures stack[|stack| - 1] !in pred[neig]
  {
  }

  /** The bookkeeping of `Counted` survives one counting step at `neig`. */
  lemma CountedGrow(adj: Adjacency, src: int, dist: map<int, int>, sigma: map<int, int>, pred: map<int, seq<int>>,
                    i: int, neig: int, dist': map<int, int>, sigma': map<int, int>, pred': map<int, seq<int>>)
    requires Domains(adj, dist, sigma, pred) && Counted(adj, src, dist, sigma, pred)
    requires dist'.Keys == adj.Keys && neig in adj && i in adj && neig != src
    requires forall w :: w in adj && w != neig ==> dist'[w] == dist[w]
    requires dist'[neig] >= 0
    requires sigma' == sigma[neig := sigma[neig] + sigma[i]] && pred' == pred[neig := pred[neig] + [i]]
    requires PathCounts(adj, src, sigma', pred')
    ensures Domains(adj, dist', sigma', pred') && Counted(adj, src, dist', sigma', pred')
  {
  }

  /** Appending a node not yet listed keeps every predecessor list free of repetition. */
  lemma DistinctPredsGrow(adj: Adjacency, pred: map<int, seq<int>>, i: int, neig: int)
    requires pred.Keys == adj.Keys && neig in adj
    requires forall w :: w in adj ==> Distinct(pred[w])
    requires i !in pred[neig]
    ensures forall w :: w in adj ==> Distinct(pred[neig := pred[neig] + [i]][w])
  {
    DistinctAppend(pred[neig], i);
  }

  /** A node discovered from a reached node is reachable too. */
  lemma ReachGrow(adj: Adjacency, src: int, dist: map<int, int>, i: int, neig: int, dist': map<int, int>)
    requires dist.Keys == adj.Keys && dist'.Keys == adj.Keys
    requires forall w :: w in adj && dist[w] >= 0 ==> Reachable(adj, src, w)
    requires i in adj && dist[i] >= 0 && neig in adj[i] && neig in adj
    requires forall w :: w in adj && w != neig ==> dist'[w] == dist[w]
    ensures forall w :: w in adj && dist'[w] >= 0 ==> Reachable(adj, src, w)
  {
    ReachableStep(adj, src, i, neig);
  }

  /** Discovering the unreached neighbour `neig` one layer after the last pushed node keeps the frontier. */
  lemma FrontierDiscover(adj: Adjacency, src: int, dist: map<int, int>, queue: seq<int>, stack: seq<int>,
                         neig: int, dist': map<int, int>)
    requires dist.Keys == adj.Keys && Frontier(adj, src, dist, queue, stack) && stack != []
    requires neig in adj && dist[neig] < 0
    requires dist' == dist[neig := dist[stack[|stack| - 1]] + 1]
    ensures Frontier(adj, src, dist', queue + [neig], stack)
  {
    var t := stack[|stack| - 1];
    var queue' := queue + [neig];
    assert t in stack;
    StackBelowTop(adj, src, dist, queue, stack);
    assert neig !in stack && neig !in queue;
    assert forall w :: w in queue' <==> w in queue || w == neig;
    forall k | 0 <= k < |stack| ensures dist'[stack[k]] == dist[stack[k]] {
      assert stack[k] in stack;
    }
    forall k | 0 <= k < |queue| ensures queue'[k] == queue[k] && dist'[queue[k]] == dist[queue[k]] {
      assert queue[k] in queue;
    }
  }

  /** Once the queue is empty every pushed node has handled all its neighbours. */
  lemma AllHandled(adj: Adjacency, src: int, dist: map<int, int>, sigma: map<int, int>,
                   pred: map<int, seq<int>>, stack: seq<int>, done: set<int>)
    requires Inv(adj, src, dist, sigma, pred, [], stack, done)
    requires stack != [] ==> done == adj[stack[|stack| - 1]]
    ensures forall v :: v in stack ==> v in adj && Handled(adj, dist, pred, v, adj[v])
  {
    forall v | v in stack ensures v in adj && Handled(adj, dist, pred, v, adj[v]) {
      var k :| 0 <= k < |stack| && stack[k] == v;
    }
  }

  /** Once the queue is empty, the invariant gives everything `bfs` promises. */
  /** No walk from the source to a node has fewer edges than the node's distance. */
  lemma {:induction false} DistAtMostWalk(adj: Adjacency, src: int, dist: map<int, int>, sigma: map<int, int>,
                                          pred: map<int, seq<int>>, p: seq<int>)
    requires Domains(adj, dist, sigma, pred) && Initialised(adj, src, dist, sigma, pred) && Layered(adj, dist)
    requires IsPath(adj, p) && p[0] == src
    ensures 0 <= dist[p[|p| - 1]] <= |p| - 1
  {
    if |p| > 1 {
      var q := p[..|p| - 1];
      assert IsPath(adj, q);
      DistAtMostWalk(adj, src, dist, sigma, pred, q);
      var a, b := p[|p| - 2], p[|p| - 1];
      assert q[|q| - 1] == a && a in adj && b in adj[a];
      assert 0 <= dist[b] <= dist[a] + 1;
    }
  }

  /**
   * Every reached node ends a walk from the source with exactly its distance
   * in edges, so with `DistAtMostWalk` the distance is that of a shortest walk.
   */
  lemma {:induction false} DistAttained(adj: Adjacency, src: int, dist: map<int, int>, sigma: map<int, int>,
                                        pred: map<int, seq<int>>, w: int)
    requires Symmetric(adj) && Domains(adj, dist, sigma, pred) && Initialised(adj, src, dist, sigma, pred)
    requires PredecessorsExact(adj, src, dist, pred)
    requires w in adj && dist[w] >= 0
    ensures exists p :: IsPath(adj, p) && p[0] == src && p[|p| - 1] == w && |p| == dist[w] + 1
    decreases dist[w]
  {
    if w == src {
      assert IsPath(adj, [src]);
    } else {
      var v := pred[w][0];
      assert v in pred[w];
      assert PredsAreCloser(adj, dist, pred);
      assert v in adj[w] && v in adj && dist[v] >= 0 && dist[w] == dist[v] + 1;
      DistAttained(adj, src, dist, sigma, pred, v);
      var q :| IsPath(adj, q) && q[0] == src && q[|q| - 1] == v && |q| == dist[v] + 1;
      var p := q + [w];
      assert w in adj[v];
      assert p[|p| - 1] == w;
      assert IsPath(adj, p);
    }
  }

  lemma Finish(adj: Adjacency, src: int, dist: map<int, int>, sigma: map<int, int>,
               pred: map<int, seq<int>>, stack: seq<int>, done: set<int>)
    requires Symmetric(adj)
    requires Inv(adj, src, dist, sigma, pred, [], stack, done)
    requires stack != [] ==> done == adj[stack[|stack| - 1]]
    ensures Domains(adj, dist, sigma, pred)
    ensures Initialised(adj, src, dist, sigma, pred)
    ensures ReachedExactly(adj, src, dist)
    ensures Layered(adj, dist)
    ensures PredecessorsExact(adj, src, dist, pred)
    ensures PathCounts(adj, src, sigma, pred)
    ensures StackOrder(adj, dist, stack)
  {
    AllHandled(adj, src, dist, sigma, pred, stack, done);
    FinishStack(adj, src, dist, sigma, pred, stack);
    FinishReach(adj, src, dist, pred, stack);
    FinishLayers(adj, dist, pred, stack);
    FinishPreds(adj, src, dist, pred, stack);
  }

  /** With the queue empty the reached nodes are exactly the pushed ones, and the rest keep their initial entries. */
  lemma FinishStack(adj: Adjacency, src: int, dist: map<int, int>, sigma: map<int, int>,
                    pred: map<int, seq<int>>, stack: seq<int>)
    requires Domains(adj, dist, sigma, pred) && src in adj && dist[src] == 0
    requires Frontier(adj, src, dist, [], stack) && Ordered(dist, [], stack)
    requires Counted(adj, src, dist, sigma, pred)
    ensures Initialised(adj, src, dist, sigma, pred)
    ensures StackOrder(adj, dist, stack)
  {
    assert sigma[src] == 1 + SumOver(sigma, pred[src]);
    forall a, b | 0 <= a < b < |stack| ensures dist[stack[a]] <= dist[stack[b]] {
      SortedIndices(dist, stack, a, b);
    }
  }

  /** Every pushed node has handled all its neighbours, so every neighbour of a reached node is reached one layer out at most. */
  lemma FinishLayers(adj: Adjacency, dist: map<int, int>, pred: map<int, seq<int>>, stack: seq<int>)
    requires dist.Keys == adj.Keys && pred.Keys == adj.Keys
    requires forall w :: w in adj ==> (dist[w] >= 0 <==> w in stack)
    requires forall v :: v in stack ==> v in adj && Handled(adj, dist, pred, v, adj[v])
    ensures Layered(adj, dist)
  {
    forall w, v | w in adj && dist[w] >= 0 && v in adj[w] ensures v in adj && 0 <= dist[v] <= dist[w] + 1 {
      assert w in stack;
      assert Handled(adj, dist, pred, w, adj[w]);
    }
  }

  /** Every pushed node has handled all its neighbours, so each predecessor list is complete. */
  lemma FinishPreds(adj: Adjacency, src: int, dist: map<int, int>, pred: map<int, seq<int>>, stack: seq<int>)
    requires Symmetric(adj) && dist.Keys == adj.Keys && pred.Keys == adj.Keys
    requires forall w :: w in adj ==> (dist[w] >= 0 <==> w in stack)
    requires forall v :: v in stack ==> v in adj && Handled(adj, dist, pred, v, adj[v])
    requires PredSound(adj, dist, pred, stack)
    requires forall w :: w in adj ==> Distinct(pred[w])
    requires forall w :: w in adj && w != src && dist[w] >= 0 ==> pred[w] != []
    ensures PredecessorsExact(adj, src, dist, pred)
  {
    FinishPredsCloser(adj, dist, pred, stack);
    FinishCloserPreds(adj, dist, pred, stack);
  }

  lemma FinishPredsCloser(adj: Adjacency, dist: map<int, int>, pred: map<int, seq<int>>, stack: seq<int>)
    requires Symmetric(adj) && dist.Keys == adj.Keys && pred.Keys == adj.Keys
    requires forall w :: w in adj ==> (dist[w] >= 0 <==> w in stack)
    requires PredSound(adj, dist, pred, stack)
    ensures PredsAreCloser(adj, dist, pred)
  {
    forall w, v | w in adj && v in pred[w]
      ensures v in adj[w] && v in adj && dist[v] >= 0 && dist[w] == dist[v] + 1
    {
      assert v in stack && v in adj && w in adj[v];
    }
  }

  lemma FinishCloserPreds(adj: Adjacency, dist: map<int, int>, pred: map<int, seq<int>>, stack: seq<int>)
    requires Symmetric(adj) && dist.Keys == adj.Keys && pred.Keys == adj.Keys
    requires forall w :: w in adj ==> (dist[w] >= 0 <==> w in stack)
    requires forall v :: v in stack ==> v in adj && Handled(adj, dist, pred, v, adj[v])
    ensures CloserArePreds(adj, dist, pred)
  {
    forall w, v | w in adj && v in adj[w] && v in adj && dist[v] >= 0 && dist[w] == dist[v] + 1
      ensures v in pred[w]
    {
      assert v in stack && w in adj[v];
      assert Handled(adj, dist, pred, v, adj[v]);
    }
  }

  lemma FinishReach(adj: Adjacency, src: int, dist: map<int, int>, pred: map<int, seq<int>>, stack: seq<int>)
    requires dist.Keys == adj.Keys && pred.Keys == adj.Keys && src in adj && dist[src] >= 0
    requires forall w :: w in adj ==> (dist[w] >= 0 <==> w in stack)
    requires forall v :: v in stack ==> v in adj && Handled(adj, dist, pred, v, adj[v])
    ensures forall w :: w in adj && Reachable(adj, src, w) ==> dist[w] >= 0
  {
    var reached := set w | w in adj && dist[w] >= 0;
    forall x, y | x in reached && x in adj && y in adj[x] ensures y in reached {
      assert Handled(adj, dist, pred, x, adj[x]);
    }
    forall w | w in adj && Reachable(adj, src, w) ensures dist[w] >= 0 {
      ClosedHoldsReachable(adj, reached, src, w);
    }
  }

  /**
   * The two `if`s of the inner loop of `bfs` for the neighbour `neig` of the
   * node `i` just pushed: discover `neig` one layer further out, then let a
   * `neig` in that layer gain the paths of `i` and `i` as a predecessor.
   */
  method Relax(dist: map<int, int>, sigma: map<int, int>, pred: map<int, seq<int>>, queue: seq<int>, i: int, neig: int)
    returns (dist': map<int, int>, sigma': map<int, int>, pred': map<int, seq<int>>, queue': seq<int>)
    requires i in dist && neig in dist && i in sigma && neig in sigma && neig in pred
    ensures Discover(dist, queue, i, neig, dist', queue')
    ensures dist'.Keys == dist.Keys
    ensures Count(dist', sigma, pred, i, neig, sigma', pred')
  {
    dist', sigma', pred', queue' := dist, sigma, pred, queue;
    if dist'[neig] < 0 {
      dist' := dist'[neig := dist'[i] + 1];
      queue' := queue' + [neig];
    }
    if dist'[neig] == dist'[i] + 1 {
      sigma' := sigma'[neig := sigma'[neig] + sigma'[i]];
      pred' := pred'[neig := pred'[neig] + [i]];
    }
  }

  /** The inner loop of `bfs`: relax every neighbour of the node last pushed on the stack. */
  method VisitNeighbours(adj: Adjacency, src: int, dist: map<int, int>, sigma: map<int, int>,
                         pred: map<int, seq<int>>, queue: seq<int>, stack: seq<int>)
    returns (dist': map<int, int>, sigma': map<int, int>, pred': map<int, seq<int>>, queue': seq<int>)
    requires Symmetric(adj) && stack != []
    requires Inv(adj, src, dist, sigma, pred, queue, stack, {})
    ensures Inv(adj, src, dist', sigma', pred', queue', stack, adj[stack[|stack| - 1]])
  {
    var i := stack[|stack| - 1];
    assert i in adj by {
      assert Frontier(adj, src, dist, queue, stack);
    }
    dist', sigma', pred', queue' := dist, sigma, pred, queue;
    ghost var done: set<int> := {};
    var rest := adj[i];
    while rest != {}
      invariant Inv(adj, src, dist', sigma', pred', queue', stack, done)
      invariant rest <= adj[i] && done == adj[i] - rest
      decreases rest
    {
      ghost var member := Pick(rest);
      var neig :| neig in rest;
      ghost var dist0, sigma0, pred0, queue0 := dist', sigma', pred', queue';
      dist', sigma', pred', queue' := Relax(dist', sigma', pred', queue', i, neig);
      RelaxStep(adj, src, dist0, sigma0, pred0, queue0, stack, done, neig, dist', sigma', pred', queue');
      done := done + {neig};
      rest := rest - {neig};
    }
  }

  /**
   * The forward phase of `bfs` from `src`: the distances, path counts and
   * predecessors of a breadth-first search, and the stack of nodes in the
   * order they leave the queue.
   */
  method Search(adj: Adjacency, src: int) returns (dist: map<int, int>, sigma: map<int, int>, pred: map<int, seq<int>>, stack: seq<int>)
    requires Symmetric(adj) && src in adj
    ensures Domains(adj, dist, sigma, pred)
    ensures Initialised(adj, src, dist, sigma, pred)
    ensures ReachedExactly(adj, src, dist)
    ensures Layered(adj, dist)
    ensures PredecessorsExact(adj, src, dist, pred)
    ensures PathCounts(adj, src, sigma, pred)
    ensures StackOrder(adj, dist, stack)
  {
    pred := map w | w in adj :: [];
    dist := map w | w in adj :: -1;
    sigma := map w | w in adj :: 0;
    dist := dist[src := 0];
    sigma := sigma[src := 1];
    var queue := [src];
    stack := [];
    ghost var done: set<int> := {};
    InitEstablishes(adj, src);
    while queue != []
      invariant Inv(adj, src, dist, sigma, pred, queue, stack, done)
      invariant stack != [] ==> done == adj[stack[|stack| - 1]]
      invariant |stack| <= |adj.Keys|
      decreases |adj.Keys| - |stack|
    {
      PopStep(adj, src, dist, sigma, pred, queue, stack, done);
      var i := queue[0];
      queue := queue[1..];
      stack := stack + [i];
      dist, sigma, pred, queue := VisitNeighbours(adj, src, dist, sigma, pred, queue, stack);
      done := adj[i];
      DistinctBounded(stack, adj.Keys);
    }
    Finish(adj, src, dist, sigma, pred, stack, done);
  }
}
