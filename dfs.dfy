/**
 The depth-first traversal of main.py: a recursive search that threads one
 caller-visible visited set through every call and returns the nodes it
 newly visits, in the order it first visits them.
 */
module DepthFirst {
  import opened Graphs

  /** What a depth-first search from some point produces: the nodes it
      newly visits, in pre-order, and the visited set when it returns. */
  datatype Visit = Visit(order: seq<nat>, visited: set<nat>)

  /** r records a search that began from the visited set `visited`: it
      lists only nodes of g, each once, none of them visited before, and
      its visited set is the old one plus exactly the nodes it lists. */
  predicate Extends(g: Graph, visited: set<nat>, r: Visit) {
    && r.visited == visited + Elems(r.order)
    && Elems(r.order) !! visited
    && (forall i :: 0 <= i < |r.order| ==> r.order[i] < |g|)
    && NoDuplicates(r.order)
  }

  /**
   The depth-first search of main.py as a function of the visited set it
   starts from: an already visited start contributes nothing; otherwise the
   start comes first, followed by the searches from its neighbours, taken
   in adjacency order, each starting from the visited set the previous one
   left behind. The visited set only grows.
   */
  function Search(g: Graph, start: nat, visited: set<nat>): (r: Visit)
    requires IsGraph(g) && start < |g|
    ensures visited <= r.visited
    decreases Nodes(g) - visited, 0, 0
  {
    if start in visited then Visit([], visited)
    else
      assert forall i :: 0 <= i < |g[start]| ==> g[start][i] in g[start];
      var rest := Explore(g, g[start], visited + {start});
      Visit([start] + rest.order, rest.visited)
  }

  /** The loop over a neighbour list ns: search from every neighbour not yet
      visited, in order, appending each sub-order. Defined on the last
      element so that it follows the loop one iteration at a time. */
  function Explore(g: Graph, ns: seq<nat>, visited: set<nat>): (r: Visit)
    requires IsGraph(g) && forall i :: 0 <= i < |ns| ==> ns[i] < |g|
    ensures visited <= r.visited
    decreases Nodes(g) - visited, 1, |ns|
  {
    if ns == [] then Visit([], visited)
    else
      var r := Explore(g, ns[..|ns| - 1], visited);
      var n := ns[|ns| - 1];
      if n in r.visited then r
      else
        var s := Search(g, n, r.visited);
        Visit(r.order + s.order, s.visited)
  }

  /** A search from an already visited node lists nothing and changes
      nothing; from an unvisited one it lists that node first. Either way it
      extends the visited set by exactly the new, distinct nodes it lists. */
  lemma {:induction false} SearchExtends(g: Graph, start: nat, visited: set<nat>)
    requires IsGraph(g) && start < |g|
    ensures Extends(g, visited, Search(g, start, visited))
    ensures start in visited ==> Search(g, start, visited) == Visit([], visited)
    ensures start !in visited ==>
      |Search(g, start, visited).order| > 0 && Search(g, start, visited).order[0] == start
    decreases Nodes(g) - visited, 0, 0
  {
    if start !in visited {
      assert forall i :: 0 <= i < |g[start]| ==> g[start][i] in g[start];
      ExploreExtends(g, g[start], visited + {start});
      var rest := Explore(g, g[start], visited + {start});
      NoDuplicatesConcat([start], rest.order);
      assert Elems([start] + rest.order) == {start} + Elems(rest.order);
    }
  }

  /** The neighbour loop extends the visited set by exactly the new,
      distinct nodes it lists. */
  lemma {:induction false} ExploreExtends(g: Graph, ns: seq<nat>, visited: set<nat>)
    requires IsGraph(g) && forall i :: 0 <= i < |ns| ==> ns[i] < |g|
    ensures Extends(g, visited, Explore(g, ns, visited))
    decreases Nodes(g) - visited, 1, |ns|
  {
    if ns != [] {
      var front := ns[..|ns| - 1];
      ExploreExtends(g, front, visited);
      var r := Explore(g, front, visited);
      var n := ns[|ns| - 1];
      if n !in r.visited {
        SearchExtends(g, n, r.visited);
        var s := Search(g, n, r.visited);
        NoDuplicatesConcat(r.order, s.order);
        assert Elems(r.order + s.order) == Elems(r.order) + Elems(s.order);
      }
    }
  }

  /** One more iteration of the neighbour loop: the next neighbour is
      skipped when already visited and otherwise searched from. */
  lemma ExploreExtend(g: Graph, ns: seq<nat>, i: nat, visited: set<nat>)
    requires IsGraph(g) && forall j :: 0 <= j < |ns| ==> ns[j] < |g|
    requires i < |ns|
    ensures var prev := Explore(g, ns[..i], visited);
      Explore(g, ns[..i + 1], visited) ==
        if ns[i] in prev.visited then prev
        else
          var found := Search(g, ns[i], prev.visited);
          Visit(prev.order + found.order, found.visited)
  {
    assert ns[..i + 1][..i] == ns[..i];
  }

  /** Every node a search lists is reachable from where it started. */
  lemma {:induction false} SearchReachable(g: Graph, start: nat, visited: set<nat>)
    requires IsGraph(g) && start < |g|
    ensures forall v :: v in Search(g, start, visited).order ==> Reachable(g, start, v)
    decreases Nodes(g) - visited, 0, 0
  {
    if start !in visited {
      var ns := g[start];
      assert forall i :: 0 <= i < |ns| ==> ns[i] in ns;
      ReachableRefl(g, start);
      forall n | n in ns
        ensures Reachable(g, start, n)
      {
        ReachableStep(g, start, start, n);
      }
      ExploreReachable(g, start, ns, visited + {start});
    }
  }

  /** Every node the neighbour loop lists is reachable from s, when every
      neighbour it was given is. */
  lemma {:induction false} ExploreReachable(g: Graph, s: nat, ns: seq<nat>, visited: set<nat>)
    requires IsGraph(g) && forall i :: 0 <= i < |ns| ==> ns[i] < |g|
    requires forall n :: n in ns ==> Reachable(g, s, n)
    ensures forall v :: v in Explore(g, ns, visited).order ==> Reachable(g, s, v)
    decreases Nodes(g) - visited, 1, |ns|
  {
    if ns != [] {
      var front := ns[..|ns| - 1];
      var n := ns[|ns| - 1];
      assert forall m :: m in front ==> m in ns;
      ExploreReachable(g, s, front, visited);
      var r := Explore(g, front, visited);
      if n !in r.visited {
        SearchReachable(g, n, r.visited);
        forall v | v in Search(g, n, r.visited).order
          ensures Reachable(g, s, v)
        {
          ReachableTrans(g, s, n, v);
        }
      }
    }
  }

  /** When a search returns, every neighbour of a node it listed is visited. */
  lemma {:induction false} SearchClosed(g: Graph, start: nat, visited: set<nat>)
    requires IsGraph(g) && start < |g|
    ensures NeighboursIn(g, Search(g, start, visited).order, Search(g, start, visited).visited)
    decreases Nodes(g) - visited, 0, 0
  {
    if start !in visited {
      assert forall i :: 0 <= i < |g[start]| ==> g[start][i] in g[start];
      ExploreClosed(g, g[start], visited + {start});
    }
  }

  /** When the neighbour loop ends, every neighbour it was given is visited,
      and so is every neighbour of a node it listed. */
  lemma {:induction false} ExploreClosed(g: Graph, ns: seq<nat>, visited: set<nat>)
    requires IsGraph(g) && forall i :: 0 <= i < |ns| ==> ns[i] < |g|
    ensures forall n :: n in ns ==> n in Explore(g, ns, visited).visited
    ensures NeighboursIn(g, Explore(g, ns, visited).order, Explore(g, ns, visited).visited)
    decreases Nodes(g) - visited, 1, |ns|
  {
    if ns != [] {
      var front := ns[..|ns| - 1];
      var n := ns[|ns| - 1];
      assert forall m :: m in ns ==> m in front || m == n;
      ExploreClosed(g, front, visited);
      var r := Explore(g, front, visited);
      if n !in r.visited {
        SearchClosed(g, n, r.visited);
        var s := Search(g, n, r.visited);
        assert r.visited <= s.visited;
        assert Explore(g, ns, visited) == Visit(r.order + s.order, s.visited);
        forall u, v | u in r.order + s.order && u < |g| && v in g[u]
          ensures v in s.visited
        {
          if u in r.order {
            assert v in r.visited;
          }
        }
      }
    }
  }

  /** Started from an empty visited set, a search lists its start first and
      lists exactly the nodes reachable from it. */
  lemma SearchFromScratch(g: Graph, start: nat)
    requires IsGraph(g) && start < |g|
    ensures var order := Search(g, start, {}).order;
      |order| > 0 && order[0] == start &&
      forall v :: v in order <==> Reachable(g, start, v)
  {
    var r := Search(g, start, {});
    SearchExtends(g, start, {});
    SearchReachable(g, start, {});
    SearchClosed(g, start, {});
    assert r.visited == Elems(r.order);
    assert Closed(g, r.visited);
    forall v | Reachable(g, start, v)
      ensures v in r.order
    {
      ClosedContainsReachable(g, r.visited, start, v);
    }
  }

  /** Pre-order shape: every node a search lists after its start is a
      neighbour of a node listed before it. */
  lemma {:induction false} SearchTreeOrder(g: Graph, start: nat, visited: set<nat>)
    requires IsGraph(g) && start < |g|
    ensures DiscoveryOrder(g, Search(g, start, visited).order)
    decreases Nodes(g) - visited, 0, 0
  {
    if start !in visited {
      var ns := g[start];
      assert forall i :: 0 <= i < |ns| ==> ns[i] in ns;
      ExploreTreeOrder(g, ns, visited + {start});
      SearchExtends(g, start, visited);
      var rest := Explore(g, ns, visited + {start});
      assert DiscoveryOrderFrom(g, ns, rest.order);
      var o := Search(g, start, visited).order;
      assert o == [start] + rest.order;
      forall i | 0 < i < |o|
        ensures Discovered(g, o[..i], o[i])
      {
        assert o[i] == rest.order[i - 1];
        assert start in o[..i];
        if !(o[i] in ns) {
          assert rest.order[i - 1] !in ns;
          assert Discovered(g, rest.order[..i - 1], rest.order[i - 1]);
          var u :| u in rest.order[..i - 1] && u < |g| && o[i] in g[u];
          assert o[..i] == [start] + rest.order[..i - 1];
          assert u in o[..i];
        }
      }
    }
  }

  /** Every node the neighbour loop lists is one of the given neighbours or
      a neighbour of a node listed before it. */
  lemma {:induction false} ExploreTreeOrder(g: Graph, ns: seq<nat>, visited: set<nat>)
    requires IsGraph(g) && forall i :: 0 <= i < |ns| ==> ns[i] < |g|
    ensures DiscoveryOrderFrom(g, ns, Explore(g, ns, visited).order)
    decreases Nodes(g) - visited, 1, |ns|
  {
    if ns != [] {
      var front := ns[..|ns| - 1];
      var n := ns[|ns| - 1];
      assert forall m :: m in front ==> m in ns;
      ExploreTreeOrder(g, front, visited);
      var r := Explore(g, front, visited);
      assert DiscoveryOrderFrom(g, front, r.order);
      if n !in r.visited {
        SearchTreeOrder(g, n, r.visited);
        var s := Search(g, n, r.visited);
        assert DiscoveryOrder(g, s.order);
        var o := r.order + s.order;
        assert Explore(g, ns, visited).order == o;
        forall i | 0 <= i < |o|
          ensures o[i] in ns || Discovered(g, o[..i], o[i])
        {
          if i < |r.order| {
            assert o[..i] == r.order[..i];
            assert o[i] == r.order[i];
            assert r.order[i] in front || Discovered(g, r.order[..i], r.order[i]);
          } else if i == |r.order| {
            assert o[i] == n;
          } else {
            var k := i - |r.order|;
            assert o[i] == s.order[k];
            assert Discovered(g, s.order[..k], s.order[k]);
            var u :| u in s.order[..k] && u < |g| && o[i] in g[u];
            assert o[..i] == r.order + s.order[..k];
            assert u in o[..i];
          }
        }
      }
    }
  }

  /**
   Depth-first search with a caller-supplied visited map, shared with and
   updated by every recursive call. The order and the new visited set are
   those of Search from the visited set on entry.
   */
  method Dfs(g: Graph, start: nat, visited: array<bool>) returns (order: seq<nat>)
    requires IsGraph(g) && start < |g| && visited.Length == |g|
    modifies visited
    ensures order == Search(g, start, old(Marked(visited))).order
    ensures Marked(visited) == Search(g, start, old(Marked(visited))).visited
    ensures old(visited[start]) ==> order == [] && unchanged(visited)
    ensures !old(visited[start]) ==> |order| > 0 && order[0] == start
    ensures Extends(g, old(Marked(visited)), Visit(order, Marked(visited)))
    decreases Nodes(g) - Marked(visited)
  {
    ghost var initial := Marked(visited);
    order := [];
    if !visited[start] {
      ghost var before := Marked(visited);
      order := [start];
      visited[start] := true;
      assert Marked(visited) == before + {start};
      var ns := g[start];
      assert forall i :: 0 <= i < |ns| ==> ns[i] in ns;
      for i := 0 to |ns|
        invariant order == [start] + Explore(g, ns[..i], before + {start}).order
        invariant Marked(visited) == Explore(g, ns[..i], before + {start}).visited
      {
        ExploreExtend(g, ns, i, before + {start});
        var node := ns[i];
        if !visited[node] {
          var sub := Dfs(g, node, visited);
          order := order + sub;
        }
      }
      assert ns[..|ns|] == ns;
    }
    SearchExtends(g, start, initial);
  }

  /** The set of nodes a visited map marks. */
  ghost function Marked(visited: array<bool>): set<nat>
    reads visited
  {
    set u: nat | u < visited.Length && visited[u]
  }

  /** Depth-first search called without a visited set: a fresh one is made. */
  method DfsDefault(g: Graph, start: nat) returns (order: seq<nat>)
    requires IsGraph(g) && start < |g|
    ensures order == Search(g, start, {}).order
    ensures |order| > 0 && order[0] == start
    ensures NoDuplicates(order)
    ensures DiscoveryOrder(g, order)
    ensures forall v :: v in order <==> Reachable(g, start, v)
    ensures Connected(g) ==> Elems(order) == Nodes(g) && |order| == |g|
  {
    var visited := new bool[|g|](_ => false);
    assert Marked(visited) == {};
    order := Dfs(g, start, visited);
    SearchExtends(g, start, {});
    SearchFromScratch(g, start);
    SearchTreeOrder(g, start, {});
    if Connected(g) {
      ConnectedListsEveryNode(g, start, order);
    }
  }
}
