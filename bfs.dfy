/**
 Breadth-first search over a FIFO queue and a visited set. A node may be
 queued more than once; it is skipped when dequeued if already visited,
 and otherwise it is listed, marked visited, and each of its neighbours not
 yet visited is queued, in adjacency order.
 */
module BreadthFirst {
  import opened Graphs
  import opened DepthFirst
  import opened Distances

  /** The entries of ns not in visited, in their order in ns: what the inner
      loop over the neighbours of a freshly visited node puts on the queue. */
  function Unvisited(ns: seq<nat>, visited: set<nat>): (r: seq<nat>)
    ensures forall v :: v in r <==> v in ns && v !in visited
  {
    if ns == [] then []
    else
      var init := ns[..|ns| - 1];
      var r := Unvisited(init, visited);
      assert ns == init + [ns[|ns| - 1]];
      if ns[|ns| - 1] in visited then r else r + [ns[|ns| - 1]]
  }

  /** The queue loop as a function of its state: the visited set, the queue
      (front first) and the order listed so far. */
  function BfsLoop(g: Graph, visited: set<nat>, queue: seq<nat>, order: seq<nat>): (r: seq<nat>)
    requires IsGraph(g)
    requires forall i :: 0 <= i < |queue| ==> queue[i] < |g|
    ensures |order| <= |r| && r[..|order|] == order
    decreases Nodes(g) - visited, |queue|
  {
    if queue == [] then order
    else if queue[0] in visited then BfsLoop(g, visited, queue[1..], order)
    else
      var v := queue[0];
      var next := queue[1..] + Unvisited(g[v], visited + {v});
      assert forall i :: 0 <= i < |next| ==> next[i] in queue[1..] || next[i] in g[v];
      assert v in Nodes(g);
      var r := BfsLoop(g, visited + {v}, next, order + [v]);
      assert r[..|order|] == (r[..|order + [v]|])[..|order|];
      r
  }

  /** The order a breadth-first search from start lists. */
  function BfsOrder(g: Graph, start: nat): seq<nat>
    requires IsGraph(g) && start < |g|
  {
    BfsLoop(g, {}, [start], [])
  }

  /**
   The search itself: a queue seeded with start, the visited set and the
   listed order grow in the loop, and the inner loop queues each neighbour
   of the newly visited node that is not visited yet.
   */
  method Bfs(g: Graph, start: nat) returns (order: seq<nat>)
    requires IsGraph(g) && start < |g|
    ensures order == BfsOrder(g, start)
    ensures |order| > 0 && order[0] == start
    ensures NoDuplicates(order)
    ensures DiscoveryOrder(g, order)
    ensures forall v :: v in order <==> Reachable(g, start, v)
    ensures Elems(order) == Elems(Search(g, start, {}).order)
    ensures Connected(g) ==> Elems(order) == Nodes(g) && |order| == |g|
    ensures forall i, j :: 0 <= i < j < |order| ==> Dist(g, start, order[i]) <= Dist(g, start, order[j])
  {
    var visited: set<nat> := {};
    var queue: seq<nat> := [start];
    order := [];
    while queue != []
      invariant forall i :: 0 <= i < |queue| ==> queue[i] < |g|
      invariant BfsLoop(g, visited, queue, order) == BfsOrder(g, start)
      decreases Nodes(g) - visited, |queue|
    {
      var vertex := queue[0];
      queue := queue[1..];
      if vertex !in visited {
        assert vertex in Nodes(g);
        order := order + [vertex];
        visited := visited + {vertex};
        ghost var rest := queue;
        var ns := g[vertex];
        for i := 0 to |ns|
          invariant queue == rest + Unvisited(ns[..i], visited)
          invariant forall j :: 0 <= j < |queue| ==> queue[j] < |g|
        {
          var node := ns[i];
          assert ns[..i + 1][..i] == ns[..i];
          if node !in visited {
            queue := queue + [node];
          }
        }
        assert ns[..|ns|] == ns;
      }
    }
    BfsOrderProps(g, start);
    BfsOrderByDistance(g, start);
    if Connected(g) {
      ConnectedListsEveryNode(g, start, order);
    }
  }

  /** The breadth-first order starts at start, repeats nothing, lists each
      later node as a neighbour of an earlier one, lists exactly the nodes
      reachable from start, and lists the same nodes as depth-first search. */
  lemma BfsOrderProps(g: Graph, start: nat)
    requires IsGraph(g) && start < |g|
    ensures |BfsOrder(g, start)| > 0 && BfsOrder(g, start)[0] == start
    ensures NoDuplicates(BfsOrder(g, start))
    ensures DiscoveryOrder(g, BfsOrder(g, start))
    ensures forall v :: v in BfsOrder(g, start) <==> Reachable(g, start, v)
    ensures Elems(BfsOrder(g, start)) == Elems(Search(g, start, {}).order)
  {
    LoopInvariantInit(g, start);
    BfsLoopComplete(g, start, {}, [start], []);
    var r := BfsOrder(g, start);
    SearchFromScratch(g, start);
    var d := Search(g, start, {}).order;
    assert forall v :: v in Elems(r) <==> v in Elems(d);
  }

  /** Breadth-first order lists nodes in non-decreasing distance from the
      start: every node comes no later than any node farther away. */
  lemma BfsOrderByDistance(g: Graph, start: nat)
    requires IsGraph(g) && start < |g|
    ensures forall i, j :: 0 <= i < j < |BfsOrder(g, start)| ==>
      Dist(g, start, BfsOrder(g, start)[i]) <= Dist(g, start, BfsOrder(g, start)[j])
  {
    LoopInvariantInit(g, start);
    assert Layered(g, start, {}, [start], []);
    BfsLoopSorted(g, start, {}, [start], []);
  }

  // The first loop invariant: what the order, queue and visited set hold.

  /** What the listed prefix of a breadth-first search satisfies at every
      step: start first, no repeats, each node discovered from an earlier
      one, and everything reachable from the start. */
  ghost predicate Listed(g: Graph, start: nat, order: seq<nat>) {
    && (order != [] ==> order[0] == start)
    && NoDuplicates(order)
    && DiscoveryOrder(g, order)
    && forall v :: v in order ==> Reachable(g, start, v)
  }

  /** Every queued node is a node reachable from the start, and unless it
      is the start it is a neighbour of a listed node. */
  ghost predicate Queued(g: Graph, start: nat, order: seq<nat>, queue: seq<nat>) {
    forall v :: v in queue ==>
      v < |g| && Reachable(g, start, v) && (v != start ==> Discovered(g, order, v))
  }

  /** Every neighbour of a visited node is visited or still queued. */
  predicate Pending(g: Graph, visited: set<nat>, queue: seq<nat>) {
    forall u :: u in visited && u < |g| ==>
      forall v :: v in g[u] ==> v in visited || v in queue
  }

  /** What holds of the loop state at every iteration. */
  ghost predicate LoopInvariant(g: Graph, start: nat, visited: set<nat>, queue: seq<nat>, order: seq<nat>) {
    && (forall i :: 0 <= i < |queue| ==> queue[i] < |g|)
    && visited == Elems(order)
    && (order == [] ==> queue == [start])
    && Listed(g, start, order)
    && Queued(g, start, order, queue)
    && Pending(g, visited, queue)
  }

  /** Everything the order of a completed breadth-first search promises. */
  ghost predicate Complete(g: Graph, start: nat, r: seq<nat>) {
    && r != []
    && Listed(g, start, r)
    && forall v :: Reachable(g, start, v) ==> v in r
  }

  /** The invariant holds when the loop is entered. */
  lemma LoopInvariantInit(g: Graph, start: nat)
    requires start < |g|
    ensures LoopInvariant(g, start, {}, [start], [])
  {
  }

  /** Dequeuing an already visited node keeps the invariant. */
  lemma LoopInvariantSkip(g: Graph, start: nat, visited: set<nat>, queue: seq<nat>, order: seq<nat>)
    requires LoopInvariant(g, start, visited, queue, order)
    requires queue != [] && queue[0] in visited
    ensures LoopInvariant(g, start, visited, queue[1..], order)
  {
  }

  /** Dequeuing an unvisited node, listing it and queuing its unvisited
      neighbours keeps the invariant. */
  lemma LoopInvariantVisit(g: Graph, start: nat, visited: set<nat>, queue: seq<nat>, order: seq<nat>)
    requires IsGraph(g) && LoopInvariant(g, start, visited, queue, order)
    requires queue != [] && queue[0] !in visited
    ensures var v := queue[0];
      LoopInvariant(g, start, visited + {v}, queue[1..] + Unvisited(g[v], visited + {v}), order + [v])
  {
    QueuedPop(g, start, order, queue);
    VisitListed(g, start, visited, order, queue[0]);
    VisitQueued(g, start, visited, queue, order);
    VisitPending(g, visited, queue);
  }

  /** The listed order grows by the dequeued node. */
  lemma VisitListed(g: Graph, start: nat, visited: set<nat>, order: seq<nat>, vertex: nat)
    requires Listed(g, start, order) && visited == Elems(order)
    requires order == [] ==> vertex == start
    requires vertex !in visited && Reachable(g, start, vertex)
    requires vertex != start ==> Discovered(g, order, vertex)
    ensures visited + {vertex} == Elems(order + [vertex])
    ensures Listed(g, start, order + [vertex])
  {
  }

  /** The queue loses its front and gains the unvisited neighbours of it. */
  lemma VisitQueued(g: Graph, start: nat, visited: set<nat>, queue: seq<nat>, order: seq<nat>)
    requires IsGraph(g) && LoopInvariant(g, start, visited, queue, order)
    requires queue != [] && queue[0] !in visited
    ensures var v := queue[0];
      var next := queue[1..] + Unvisited(g[v], visited + {v});
      && (forall i :: 0 <= i < |next| ==> next[i] < |g|)
      && Queued(g, start, order + [v], next)
  {
    var vertex := queue[0];
    var rest := queue[1..];
    var added := Unvisited(g[vertex], visited + {vertex});
    var next := rest + added;
    assert forall i :: 0 <= i < |next| ==> next[i] in rest || next[i] in g[vertex];
    QueuedPop(g, start, order, queue);
    QueuedAppend(g, start, order, vertex, rest);
    QueuedVisit(g, start, order + [vertex], rest, vertex, added);
  }

  /** Every unvisited neighbour of a visited node is still queued. */
  lemma VisitPending(g: Graph, visited: set<nat>, queue: seq<nat>)
    requires queue != [] && queue[0] < |g| && Pending(g, visited, queue)
    ensures var v := queue[0];
      Pending(g, visited + {v}, queue[1..] + Unvisited(g[v], visited + {v}))
  {
  }

  lemma QueuedPop(g: Graph, start: nat, order: seq<nat>, queue: seq<nat>)
    requires queue != [] && Queued(g, start, order, queue)
    ensures Queued(g, start, order, queue[1..])
    ensures queue[0] < |g| && Reachable(g, start, queue[0])
    ensures queue[0] != start ==> Discovered(g, order, queue[0])
  {
    assert queue[0] in queue;
    assert forall v :: v in queue[1..] ==> v in queue;
  }

  lemma QueuedAppend(g: Graph, start: nat, order: seq<nat>, vertex: nat, queue: seq<nat>)
    requires Queued(g, start, order, queue)
    ensures Queued(g, start, order + [vertex], queue)
  {
  }

  /** Queuing neighbours of a listed, reachable node keeps the queue well formed. */
  lemma QueuedVisit(g: Graph, start: nat, order: seq<nat>, queue: seq<nat>, vertex: nat, ns: seq<nat>)
    requires IsGraph(g) && Queued(g, start, order, queue)
    requires vertex in order && vertex < |g| && Reachable(g, start, vertex)
    requires forall v :: v in ns ==> v in g[vertex]
    ensures Queued(g, start, order, queue + ns)
  {
    forall v | v in queue + ns
      ensures v < |g| && Reachable(g, start, v) && (v != start ==> Discovered(g, order, v))
    {
      if v !in queue {
        ReachableStep(g, start, vertex, v);
      }
    }
  }

  /** The invariant carried to the end of the loop gives a complete order. */
  lemma {:induction false} BfsLoopComplete(g: Graph, start: nat, visited: set<nat>, queue: seq<nat>, order: seq<nat>)
    requires IsGraph(g) && start < |g|
    requires LoopInvariant(g, start, visited, queue, order)
    ensures Complete(g, start, BfsLoop(g, visited, queue, order))
    decreases Nodes(g) - visited, |queue|
  {
    if queue == [] {
      assert Closed(g, visited);
      forall v | Reachable(g, start, v)
        ensures v in order
      {
        ClosedContainsReachable(g, visited, start, v);
      }
    } else if queue[0] in visited {
      LoopInvariantSkip(g, start, visited, queue, order);
      BfsLoopComplete(g, start, visited, queue[1..], order);
    } else {
      var v := queue[0];
      LoopInvariantVisit(g, start, visited, queue, order);
      assert v in Nodes(g) - visited;
      BfsLoopComplete(g, start, visited + {v}, queue[1..] + Unvisited(g[v], visited + {v}), order + [v]);
    }
  }

  // The second loop invariant: the order and the queue are layered by
  // distance from the start.

  /** Every node listed before another is no farther from the start. */
  ghost predicate SortedByDist(g: Graph, start: nat, o: seq<nat>) {
    forall i, j :: 0 <= i < j < |o| ==> Dist(g, start, o[i]) <= Dist(g, start, o[j])
  }

  /** Among the queued nodes not yet visited, a node's first appearance in
      the queue is no farther from the start than anything queued after it. */
  ghost predicate QueueByDist(g: Graph, start: nat, visited: set<nat>, queue: seq<nat>) {
    forall i, j :: 0 <= i < j < |queue| && queue[i] !in visited && queue[j] !in visited ==>
      Dist(g, start, queue[i]) <= Dist(g, start, queue[j]) || queue[j] in queue[..i]
  }

  /** Every reachable node closer to the start than the last listed one is
      already visited. */
  ghost predicate CloserVisited(g: Graph, start: nat, visited: set<nat>, order: seq<nat>) {
    order != [] ==>
      forall x :: Reachable(g, start, x) && Dist(g, start, x) < Dist(g, start, order[|order| - 1]) ==>
        x in visited
  }

  /** The second loop invariant: the distance layering of order and queue. */
  ghost predicate Layered(g: Graph, start: nat, visited: set<nat>, queue: seq<nat>, order: seq<nat>) {
    && SortedByDist(g, start, order)
    && CloserVisited(g, start, visited, order)
    && QueueByDist(g, start, visited, queue)
  }

  /** Unvisited queued nodes lie at the distance of the last listed node or
      one more. */
  lemma QueuedLevels(g: Graph, start: nat, visited: set<nat>, queue: seq<nat>, order: seq<nat>, v: nat)
    requires IsGraph(g) && LoopInvariant(g, start, visited, queue, order)
    requires Layered(g, start, visited, queue, order)
    requires order != [] && v in queue && v !in visited
    ensures Dist(g, start, order[|order| - 1]) <= Dist(g, start, v) <= Dist(g, start, order[|order| - 1]) + 1
  {
    assert order[0] in order;
    var u :| u in order && u < |g| && v in g[u];
    DistEdge(g, start, u, v);
    var k :| 0 <= k < |order| && order[k] == u;
    if k < |order| - 1 {
      assert Dist(g, start, order[k]) <= Dist(g, start, order[|order| - 1]);
    }
  }

  /** An unvisited front of a layered queue is no farther from the start
      than any other unvisited queued node. */
  lemma FrontNearest(g: Graph, start: nat, visited: set<nat>, queue: seq<nat>)
    requires QueueByDist(g, start, visited, queue)
    requires queue != [] && queue[0] !in visited
    ensures forall x :: x in queue && x !in visited ==> Dist(g, start, queue[0]) <= Dist(g, start, x)
  {
  }

  /** Dequeuing an already visited node keeps the layering. */
  lemma LayeredSkip(g: Graph, start: nat, visited: set<nat>, queue: seq<nat>, order: seq<nat>)
    requires Layered(g, start, visited, queue, order)
    requires queue != [] && queue[0] in visited
    ensures Layered(g, start, visited, queue[1..], order)
  {
  }

  /** Dropping the front of the queue, once it is visited, keeps the queue
      layered. */
  lemma QueueByDistDrop(g: Graph, start: nat, visited: set<nat>, queue: seq<nat>)
    requires QueueByDist(g, start, visited, queue)
    requires queue != [] && queue[0] in visited
    ensures QueueByDist(g, start, visited, queue[1..])
  {
  }

  /** Dequeuing an unvisited node, listing it and queuing its unvisited
      neighbours keeps the layering. */
  lemma LayeredVisit(g: Graph, start: nat, visited: set<nat>, queue: seq<nat>, order: seq<nat>)
    requires IsGraph(g) && start < |g| && LoopInvariant(g, start, visited, queue, order)
    requires Layered(g, start, visited, queue, order)
    requires queue != [] && queue[0] !in visited
    ensures var v := queue[0];
      Layered(g, start, visited + {v}, queue[1..] + Unvisited(g[v], visited + {v}), order + [v])
  {
    LayeredVisitOrder(g, start, visited, queue, order);
    LayeredVisitQueue(g, start, visited, queue, order);
  }

  /** Listing an unvisited dequeued node keeps the order sorted by distance
      and every closer node visited. */
  lemma LayeredVisitOrder(g: Graph, start: nat, visited: set<nat>, queue: seq<nat>, order: seq<nat>)
    requires IsGraph(g) && start < |g| && LoopInvariant(g, start, visited, queue, order)
    requires Layered(g, start, visited, queue, order)
    requires queue != [] && queue[0] !in visited
    ensures SortedByDist(g, start, order + [queue[0]])
    ensures CloserVisited(g, start, visited + {queue[0]}, order + [queue[0]])
  {
    VisitSorted(g, start, visited, queue, order);
    VisitCloser(g, start, visited, queue, order);
  }

  /** The listed node is no closer than any listed before it. */
  lemma VisitSorted(g: Graph, start: nat, visited: set<nat>, queue: seq<nat>, order: seq<nat>)
    requires IsGraph(g) && LoopInvariant(g, start, visited, queue, order)
    requires Layered(g, start, visited, queue, order)
    requires queue != [] && queue[0] !in visited
    ensures SortedByDist(g, start, order + [queue[0]])
  {
    var u := queue[0];
    var o := order + [u];
    if order != [] {
      var last := order[|order| - 1];
      assert queue[0] in queue;
      QueuedLevels(g, start, visited, queue, order, u);
      forall i, j | 0 <= i < j < |o|
        ensures Dist(g, start, o[i]) <= Dist(g, start, o[j])
      {
        if j == |o| - 1 && i < |order| - 1 {
          assert Dist(g, start, order[i]) <= Dist(g, start, last);
        }
      }
    }
  }

  /** Once the front is listed, every reachable node closer than it is
      visited. */
  lemma VisitCloser(g: Graph, start: nat, visited: set<nat>, queue: seq<nat>, order: seq<nat>)
    requires IsGraph(g) && start < |g| && LoopInvariant(g, start, visited, queue, order)
    requires Layered(g, start, visited, queue, order)
    requires queue != [] && queue[0] !in visited
    ensures CloserVisited(g, start, visited + {queue[0]}, order + [queue[0]])
  {
    var u := queue[0];
    if order == [] {
      DistStart(g, start);
    } else {
      var last := order[|order| - 1];
      assert queue[0] in queue;
      QueuedLevels(g, start, visited, queue, order, u);
      forall x | Reachable(g, start, x) && Dist(g, start, x) < Dist(g, start, u)
        ensures x in visited + {u}
      {
        if Dist(g, start, x) >= Dist(g, start, last) {
          CloserToNextLevel(g, start, visited, queue, order, x);
        }
      }
    }
  }

  /** A reachable node at the distance of the last listed node, when the
      front of the queue is one farther, is already visited. */
  lemma CloserToNextLevel(g: Graph, start: nat, visited: set<nat>, queue: seq<nat>, order: seq<nat>, x: nat)
    requires IsGraph(g) && LoopInvariant(g, start, visited, queue, order)
    requires Layered(g, start, visited, queue, order)
    requires order != [] && queue != [] && queue[0] !in visited
    requires Reachable(g, start, x)
    requires Dist(g, start, x) == Dist(g, start, order[|order| - 1])
    requires Dist(g, start, x) < Dist(g, start, queue[0])
    ensures x in visited
  {
    assert order[0] in order;
    if x != start {
      var p := DistParent(g, start, x);
      assert p in visited;
      FrontNearest(g, start, visited, queue);
    }
  }

  /** After the unvisited front is listed and its unvisited neighbours are
      queued, the queue is still layered. */
  lemma LayeredVisitQueue(g: Graph, start: nat, visited: set<nat>, queue: seq<nat>, order: seq<nat>)
    requires IsGraph(g) && start < |g| && LoopInvariant(g, start, visited, queue, order)
    requires Layered(g, start, visited, queue, order)
    requires queue != [] && queue[0] !in visited
    ensures var u := queue[0];
      QueueByDist(g, start, visited + {u}, queue[1..] + Unvisited(g[u], visited + {u}))
  {
    var u := queue[0];
    var visited' := visited + {u};
    var rest := queue[1..];
    var a := Unvisited(g[u], visited');
    var d := Dist(g, start, u);
    QueuedPop(g, start, order, queue);
    LayeredVisitOrder(g, start, visited, queue, order);
    QueueByDistVisit(g, start, visited, visited', queue);
    QueueByDistDrop(g, start, visited', queue);
    forall q | q in rest && q !in visited'
      ensures Dist(g, start, q) <= d + 1
    {
      assert q in queue;
      QueuedLevels(g, start, visited, queue, order, q);
      QueuedLevels(g, start, visited, queue, order, u);
    }
    forall w | w in a
      ensures Dist(g, start, w) <= d + 1 && (Dist(g, start, w) == d + 1 || w in rest)
    {
      DistEdge(g, start, u, w);
      if Dist(g, start, w) <= d {
        NeighbourAlreadyQueued(g, start, visited, queue, order, w);
      }
    }
    QueueByDistAppend(g, start, visited', rest, a, d);
  }

  /** An unvisited neighbour of the listed front that is no farther than the
      front itself is already queued behind it. */
  lemma NeighbourAlreadyQueued(g: Graph, start: nat, visited: set<nat>, queue: seq<nat>, order: seq<nat>, w: nat)
    requires IsGraph(g) && start < |g| && LoopInvariant(g, start, visited, queue, order)
    requires queue != [] && queue[0] !in visited
    requires Reachable(g, start, queue[0])
    requires CloserVisited(g, start, visited + {queue[0]}, order + [queue[0]])
    requires w !in visited + {queue[0]} && Reachable(g, start, w)
    requires Dist(g, start, w) <= Dist(g, start, queue[0])
    ensures w in queue[1..]
  {
    var u := queue[0];
    if order != [] {
      assert order[0] in order;
    }
    var p := DistParent(g, start, w);
    assert p in visited;
    assert queue == [u] + queue[1..];
  }

  /** Queuing nodes no farther than one level past D, each either exactly
      one level past D or already queued, keeps a queue layered whose
      unvisited nodes are no farther than one level past D. */
  lemma QueueByDistAppend(g: Graph, start: nat, visited: set<nat>, r: seq<nat>, a: seq<nat>, d: nat)
    requires QueueByDist(g, start, visited, r)
    requires forall q :: q in r && q !in visited ==> Dist(g, start, q) <= d + 1
    requires forall w :: w in a ==> Dist(g, start, w) <= d + 1 && (Dist(g, start, w) == d + 1 || w in r)
    ensures QueueByDist(g, start, visited, r + a)
  {
    var q := r + a;
    forall i, j | 0 <= i < j < |q| && q[i] !in visited && q[j] !in visited
      ensures Dist(g, start, q[i]) <= Dist(g, start, q[j]) || q[j] in q[..i]
    {
      if j < |r| {
        assert q[i] == r[i] && q[j] == r[j] && q[..i] == r[..i];
      } else {
        var w := q[j];
        assert w == a[j - |r|];
        if i < |r| { assert q[i] == r[i]; assert q[i] in r; } else { assert q[i] == a[i - |r|]; }
        if Dist(g, start, w) != d + 1 {
          var k :| 0 <= k < |r| && r[k] == w;
          if k < i {
            assert q[..i][k] == w;
          } else if k > i {
            assert q[i] == r[i];
            if r[k] in r[..i] {
              var m :| 0 <= m < i && r[m] == w;
              assert q[..i][m] == w;
            }
          }
        }
      }
    }
  }

  /** Visiting more nodes keeps a queue layered. */
  lemma QueueByDistVisit(g: Graph, start: nat, visited: set<nat>, more: set<nat>, queue: seq<nat>)
    requires QueueByDist(g, start, visited, queue) && visited <= more
    ensures QueueByDist(g, start, more, queue)
  {
  }

  /** The layering carried to the end of the loop: the final order is
      sorted by distance from the start. */
  lemma {:induction false} BfsLoopSorted(g: Graph, start: nat, visited: set<nat>, queue: seq<nat>, order: seq<nat>)
    requires IsGraph(g) && start < |g|
    requires LoopInvariant(g, start, visited, queue, order)
    requires Layered(g, start, visited, queue, order)
    ensures SortedByDist(g, start, BfsLoop(g, visited, queue, order))
    decreases Nodes(g) - visited, |queue|
  {
    if queue == [] {
    } else if queue[0] in visited {
      LoopInvariantSkip(g, start, visited, queue, order);
      LayeredSkip(g, start, visited, queue, order);
      BfsLoopSorted(g, start, visited, queue[1..], order);
    } else {
      var v := queue[0];
      LoopInvariantVisit(g, start, visited, queue, order);
      LayeredVisit(g, start, visited, queue, order);
      assert v in Nodes(g) - visited;
      BfsLoopSorted(g, start, visited + {v}, queue[1..] + Unvisited(g[v], visited + {v}), order + [v]);
    }
  }
}
