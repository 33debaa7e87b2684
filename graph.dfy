/**
 The graph a traversal walks over. Node identifiers are the integers
 0 .. |g|-1 and g[u] lists the neighbours of u in the order the graph
 library yields them. Only node membership and neighbour iteration are
 modelled; reachability is defined by finite paths.
 */
module Graphs {

  type Graph = seq<seq<nat>>

  /** Every neighbour of a node is itself a node of the graph. */
  predicate IsGraph(g: Graph) {
    forall u, v :: 0 <= u < |g| && v in g[u] ==> v < |g|
  }

  /** The node set {0, ..., |g|-1}, built up one node at a time. */
  function Nodes(g: Graph): (r: set<nat>)
    ensures forall u: nat :: u in r <==> u < |g|
  {
    if g == [] then {} else Nodes(g[..|g| - 1]) + {|g| - 1}
  }

  lemma {:induction false} NodesCard(g: Graph)
    ensures |Nodes(g)| == |g|
  {
    if g != [] {
      var h := g[..|g| - 1];
      NodesCard(h);
      assert Nodes(g) == Nodes(h) + {|g| - 1};
    }
  }

  /** The set of elements of a sequence. */
  function Elems(s: seq<nat>): set<nat> {
    set x | x in s
  }

  predicate NoDuplicates(s: seq<nat>) {
    forall i, j :: 0 <= i < j < |s| ==> s[i] != s[j]
  }

  /** Joining two duplicate-free sequences with no element in common. */
  lemma NoDuplicatesConcat(a: seq<nat>, b: seq<nat>)
    requires NoDuplicates(a) && NoDuplicates(b) && Elems(a) !! Elems(b)
    ensures NoDuplicates(a + b)
  {
    forall i, j | 0 <= i < j < |a + b|
      ensures (a + b)[i] != (a + b)[j]
    {
      if j >= |a| && i < |a| {
        assert (a + b)[i] in Elems(a) && (a + b)[j] in Elems(b);
      }
    }
  }

  /** Every edge (u, v) of g with u in s ends in s. */
  predicate Closed(g: Graph, s: set<nat>) {
    forall u, v :: u in s && u < |g| && v in g[u] ==> v in s
  }

  /** Every neighbour of a node listed in p belongs to s. */
  predicate NeighboursIn(g: Graph, p: seq<nat>, s: set<nat>) {
    forall u, v :: u in p && u < |g| && v in g[u] ==> v in s
  }

  /** v is a neighbour of some node listed in p. */
  ghost predicate Discovered(g: Graph, p: seq<nat>, v: nat) {
    exists u :: u in p && u < |g| && v in g[u]
  }

  /** Every node listed after the first is a neighbour of a node listed
      before it: the order could have been produced by following edges. */
  ghost predicate DiscoveryOrder(g: Graph, o: seq<nat>) {
    forall i :: 0 < i < |o| ==> Discovered(g, o[..i], o[i])
  }

  /** Every node listed is one of the roots ns or a neighbour of a node
      listed before it. */
  ghost predicate DiscoveryOrderFrom(g: Graph, ns: seq<nat>, o: seq<nat>) {
    forall i :: 0 <= i < |o| ==> o[i] in ns || Discovered(g, o[..i], o[i])
  }

  /** p is a walk: each element after the first is a neighbour of its
      predecessor. */
  ghost predicate IsPath(g: Graph, p: seq<nat>) {
    |p| > 0 &&
    (|p| > 1 ==> p[0] < |g| && p[1] in g[p[0]] && IsPath(g, p[1..]))
  }

  ghost predicate Reachable(g: Graph, s: nat, t: nat) {
    exists p :: IsPath(g, p) && p[0] == s && p[|p| - 1] == t
  }

  /** Every node reachable from every other one, as the graph generator guarantees. */
  ghost predicate Connected(g: Graph) {
    forall u: nat, v: nat :: u < |g| && v < |g| ==> Reachable(g, u, v)
  }

  lemma ReachableRefl(g: Graph, s: nat)
    ensures Reachable(g, s, s)
  {
    assert IsPath(g, [s]);
  }

  /** A walk ending in u followed by an edge out of u is a walk. */
  lemma {:induction false} PathAppend(g: Graph, p: seq<nat>, v: nat)
    requires IsPath(g, p) && p[|p| - 1] < |g| && v in g[p[|p| - 1]]
    ensures IsPath(g, p + [v])
  {
    if |p| > 1 {
      PathAppend(g, p[1..], v);
      assert (p + [v])[1..] == p[1..] + [v];
    }
  }

  /** Two walks, the second starting where the first ends, join into one. */
  lemma {:induction false} PathJoin(g: Graph, p: seq<nat>, q: seq<nat>)
    requires IsPath(g, p) && IsPath(g, q) && p[|p| - 1] == q[0]
    ensures IsPath(g, p + q[1..])
  {
    if |p| == 1 {
      assert p + q[1..] == q;
    } else {
      PathJoin(g, p[1..], q);
      assert (p + q[1..])[1..] == p[1..] + q[1..];
    }
  }

  /** Reachability extends along one more edge. */
  lemma ReachableStep(g: Graph, s: nat, u: nat, v: nat)
    requires Reachable(g, s, u) && u < |g| && v in g[u]
    ensures Reachable(g, s, v)
  {
    var p :| IsPath(g, p) && p[0] == s && p[|p| - 1] == u;
    PathAppend(g, p, v);
    assert (p + [v])[0] == s;
  }

  /** Reachability is transitive: a walk from s to m joined to a walk from m to t. */
  lemma ReachableTrans(g: Graph, s: nat, m: nat, t: nat)
    requires Reachable(g, s, m) && Reachable(g, m, t)
    ensures Reachable(g, s, t)
  {
    var p :| IsPath(g, p) && p[0] == s && p[|p| - 1] == m;
    var q :| IsPath(g, q) && q[0] == m && q[|q| - 1] == t;
    PathJoin(g, p, q);
    var r := p + q[1..];
    assert r[0] == s;
    assert r[|r| - 1] == t by {
      if |q| == 1 { assert r == p; } else { assert r[|r| - 1] == q[|q| - 1]; }
    }
  }

  /** A walk that starts in a closed set stays in it. */
  lemma {:induction false} PathStaysIn(g: Graph, c: set<nat>, p: seq<nat>)
    requires Closed(g, c) && IsPath(g, p) && p[0] in c
    ensures p[|p| - 1] in c
  {
    if |p| > 1 {
      PathStaysIn(g, c, p[1..]);
    }
  }

  /** A closed set holding s holds every node reachable from s. */
  lemma ClosedContainsReachable(g: Graph, c: set<nat>, s: nat, t: nat)
    requires Closed(g, c) && s in c && Reachable(g, s, t)
    ensures t in c
  {
    var p :| IsPath(g, p) && p[0] == s && p[|p| - 1] == t;
    PathStaysIn(g, c, p);
  }

  /** On an in-range graph everything reachable from a node is a node. */
  lemma {:induction false} ReachableIsNode(g: Graph, s: nat, t: nat)
    requires IsGraph(g) && s < |g| && Reachable(g, s, t)
    ensures t < |g|
  {
    ClosedContainsReachable(g, Nodes(g), s, t);
  }

  /** A sequence without duplicates has as many distinct elements as entries. */
  lemma {:induction false} DistinctCard(s: seq<nat>)
    requires NoDuplicates(s)
    ensures |Elems(s)| == |s|
  {
    if s != [] {
      var h := s[..|s| - 1];
      DistinctCard(h);
      assert Elems(s) == Elems(h) + {s[|s| - 1]};
      assert s[|s| - 1] !in Elems(h);
    }
  }

  /** On a connected graph, a duplicate-free listing of exactly the nodes
      reachable from a node lists every node exactly once. */
  lemma ConnectedListsEveryNode(g: Graph, s: nat, order: seq<nat>)
    requires IsGraph(g) && s < |g| && Connected(g)
    requires NoDuplicates(order)
    requires forall v :: v in order <==> Reachable(g, s, v)
    ensures Elems(order) == Nodes(g)
    ensures |order| == |g|
  {
    forall v | v in Nodes(g)
      ensures v in Elems(order)
    {
    }
    forall v | v in Elems(order)
      ensures v in Nodes(g)
    {
      ReachableIsNode(g, s, v);
    }
    DistinctCard(order);
    NodesCard(g);
  }
}
