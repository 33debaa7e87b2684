/**
 Shortest-path distance (number of edges) from a start node, defined as the
 least length of a walk, with the two facts a breadth-first search relies
 on: an edge adds at most one to the distance, and every node other than
 the start has a neighbour-predecessor one step closer.
 */
module Distances {
  import opened Graphs

  /** t can be reached from s by a walk of at most k edges. */
  ghost predicate Within(g: Graph, s: nat, t: nat, k: nat) {
    exists p :: IsPath(g, p) && p[0] == s && p[|p| - 1] == t && |p| <= k + 1
  }

  /** The least k in [k0, bound] with Within(g, s, t, k). */
  ghost function Least(g: Graph, s: nat, t: nat, k0: nat, bound: nat): (d: nat)
    requires k0 <= bound && Within(g, s, t, bound)
    ensures k0 <= d <= bound && Within(g, s, t, d)
    ensures forall k: nat :: k0 <= k < d ==> !Within(g, s, t, k)
    decreases bound - k0
  {
    if Within(g, s, t, k0) then k0 else Least(g, s, t, k0 + 1, bound)
  }

  /** The distance from s to t: the fewest edges on a walk from s to t when
      t is reachable from s (and 0 otherwise, where it is never used). */
  ghost function Dist(g: Graph, s: nat, t: nat): (d: nat)
    ensures Reachable(g, s, t) ==> Within(g, s, t, d)
    ensures forall k: nat :: k < d ==> !Within(g, s, t, k)
  {
    if Reachable(g, s, t) then
      var p :| IsPath(g, p) && p[0] == s && p[|p| - 1] == t;
      assert Within(g, s, t, |p| - 1);
      Least(g, s, t, 0, |p| - 1)
    else 0
  }

  /** A walk of at most k edges bounds the distance by k. */
  lemma DistAtMost(g: Graph, s: nat, t: nat, k: nat)
    requires Within(g, s, t, k)
    ensures Reachable(g, s, t) && Dist(g, s, t) <= k
  {
  }

  /** The start is at distance 0. */
  lemma DistStart(g: Graph, s: nat)
    ensures Reachable(g, s, s) && Dist(g, s, s) == 0
  {
    assert IsPath(g, [s]);
    DistAtMost(g, s, s, 0);
  }

  /** Following an edge adds at most one to the distance. */
  lemma DistEdge(g: Graph, s: nat, u: nat, v: nat)
    requires Reachable(g, s, u) && u < |g| && v in g[u]
    ensures Reachable(g, s, v) && Dist(g, s, v) <= Dist(g, s, u) + 1
  {
    var d := Dist(g, s, u);
    var p :| IsPath(g, p) && p[0] == s && p[|p| - 1] == u && |p| <= d + 1;
    PathAppend(g, p, v);
    var q := p + [v];
    assert q[0] == s && q[|q| - 1] == v;
    DistAtMost(g, s, v, d + 1);
  }

  /** Dropping the last node of a walk of two or more nodes leaves a walk
      ending in a node that has the dropped one as a neighbour. */
  lemma {:induction false} PathDropLast(g: Graph, p: seq<nat>)
    requires IsPath(g, p) && |p| >= 2
    ensures IsPath(g, p[..|p| - 1])
    ensures p[|p| - 2] < |g| && p[|p| - 1] in g[p[|p| - 2]]
  {
    if |p| > 2 {
      PathDropLast(g, p[1..]);
      assert p[1..][..|p| - 2] == p[..|p| - 1][1..];
    }
  }

  /** A reachable node other than the start has a neighbour-predecessor
      one step closer to the start. */
  lemma DistParent(g: Graph, s: nat, v: nat) returns (u: nat)
    requires Reachable(g, s, v) && v != s
    ensures u < |g| && v in g[u] && Reachable(g, s, u)
    ensures Dist(g, s, u) + 1 == Dist(g, s, v)
  {
    var d := Dist(g, s, v);
    var p :| IsPath(g, p) && p[0] == s && p[|p| - 1] == v && |p| <= d + 1;
    PathDropLast(g, p);
    u := p[|p| - 2];
    var q := p[..|p| - 1];
    assert q[0] == s && q[|q| - 1] == u;
    DistAtMost(g, s, u, d - 1);
    DistEdge(g, s, u, v);
  }
}
