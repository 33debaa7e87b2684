# Breadth-first and depth-first traversal orders

A model of the two graph traversals of the graph visualiser, `bfs` and
`dfs` in `main.py`, together with proofs of what their visiting orders
satisfy.

- `graph.dfy` (module `Graphs`): the graph as an adjacency list
  `seq<seq<nat>>`. The nodes are `0 .. |g|-1`, and `g[u]` lists the
  neighbours of `u` in the order the graph library yields them. The module
  also defines paths and reachability, and the order predicates shared by
  both traversals.
- `dfs.dfy` (module `DepthFirst`): the recursive depth-first search, with
  a caller-visible visited map (`array<bool>`) that every recursive call
  shares and updates.
  - `Dfs` is proved against the function `Search`, which describes the
    search as a function of the visited set it starts from.
  - `Search` is mutually recursive with `Explore`, the loop over a
    neighbour list.
  - The lemmas about `Search` and `Explore` give the effect on the visited
    set, reachability, closure and pre-order shape.
  - `DfsDefault` is the call without a visited set: a fresh, all-false map
    is made.
- `distance.dfy` (module `Distances`): the shortest-path distance
  `Dist(g, s, t)`, the fewest edges on a walk from `s` to `t`.
- `bfs.dfy` (module `BreadthFirst`): the queue-based breadth-first search
  as a method with a `while` loop over a FIFO queue (`seq<nat>`, front
  first) and a visited set.
  - `Bfs` is proved against the function `BfsLoop`, which describes the
    loop as a function of its state.
  - The loop invariant `LoopInvariant` is carried through `BfsLoop` by
    `BfsLoopComplete`.
  - This gives start first, no repetitions, each listed node adjacent to
    an earlier one, and exactly the reachable nodes.
  - It also gives the same node set as depth-first search.
  - A second invariant, `Layered`, is carried by `BfsLoopSorted`. It keeps
    the listed nodes sorted by distance. Every node closer than the last
    listed one is visited. The unvisited part of the queue is in
    non-decreasing distance order, apart from repeated entries.
  - Together these show that the order is non-decreasing in distance from
    the start.

The properties hold for any adjacency list whose entries are nodes,
directed or not. Symmetry of the adjacency is therefore never assumed. On
a connected graph, which is what the visualiser's generator produces,
both searches list every node exactly once (`Graphs.ConnectedListsEveryNode`).

## Model

| member | source | states |
|---|---|---|
| DepthFirst.Search | main.py:47-53 | A search from `start` given the visited set returns a visited set that contains the one it was given: visiting only adds nodes |
| DepthFirst.Explore | main.py:50-52 | The loop over a neighbour list, searching from each neighbour not yet visited in adjacency order, only adds to the visited set |
| DepthFirst.SearchExtends | main.py:47-53 | From an already visited start the search lists nothing and leaves the visited set as it was. From an unvisited start it lists the start first. Either way the new visited set is the old one plus exactly the listed nodes, which are nodes, distinct, and none visited before |
| DepthFirst.ExploreExtends | main.py:50-52 | The neighbour loop extends the visited set by exactly the nodes it lists, each a node, listed once and not visited before |
| DepthFirst.ExploreExtend | main.py:50-52 | One-step unfolding of `Explore` over a prefix of the neighbour list, used by the loop in `Dfs`: a neighbour visited by an earlier sibling's search is skipped, otherwise its search's order is appended and its visited set carried on |
| DepthFirst.SearchReachable | main.py:47-52 | Every node a search lists is reachable from its start |
| DepthFirst.ExploreReachable | main.py:50-52 | If every neighbour given to the loop is reachable from s, so is every node the loop lists |
| DepthFirst.SearchClosed | main.py:47-52 | When a search returns, every neighbour of every node it listed is in the visited set |
| DepthFirst.ExploreClosed | main.py:50-52 | When the neighbour loop ends, every neighbour it was given is visited, as is every neighbour of a node it listed |
| DepthFirst.SearchFromScratch | main.py:43-53 | From an empty visited set, the order is non-empty, starts with `start`, and contains a node if and only if it is reachable from `start` |
| DepthFirst.SearchTreeOrder | main.py:48-52 | Pre-order shape: every node listed after the start is a neighbour of a node listed before it |
| DepthFirst.ExploreTreeOrder | main.py:50-52 | Every node the neighbour loop lists is one of the given neighbours or a neighbour of a node listed before it |
| DepthFirst.Dfs | main.py:32-53 | The method on a shared visited map returns the order of `Search` from the map's marked set on entry, and leaves the map marking `Search`'s visited set. A visited start gives `[]` and leaves the map unchanged. An unvisited start comes first. The marked set grows by exactly the listed nodes, which are distinct and were unmarked |
| DepthFirst.DfsDefault | main.py:43-53 | Called without a visited set, the order starts with `start`, has no duplicates, lists each later node as a neighbour of an earlier one, and contains exactly the nodes reachable from `start`. On a connected graph it lists every node exactly once |
| BreadthFirst.Unvisited | main.py:27-29 | The neighbours the inner loop queues are exactly the neighbours not in the visited set |
| BreadthFirst.BfsLoop | main.py:22-30 | Running the queue loop to the end only appends to the order listed so far |
| BreadthFirst.Bfs | main.py:7-30 | The method's order is that of `BfsLoop` from the queue `[start]`. It is non-empty and starts with `start`, has no duplicates, and lists each later node as a neighbour of an earlier one. It contains a node if and only if it is reachable from `start`, has the same node set as the depth-first order from `start`, and on a connected graph lists every node exactly once. Every node comes no later than any node farther from `start` |
| BreadthFirst.BfsOrderProps | main.py:7-30 | The same properties, stated for the loop function from the initial state |
| BreadthFirst.BfsOrderByDistance | main.py:7-30 | The breadth-first order is non-decreasing in shortest-path distance from `start` |
| BreadthFirst.LoopInvariantInit | main.py:17-20 | The loop invariant holds for the empty visited set, the queue `[start]` and the empty order |
| BreadthFirst.LoopInvariantSkip | main.py:23-24 | Dequeuing an already visited node keeps the loop invariant |
| BreadthFirst.LoopInvariantVisit | main.py:23-29 | Dequeuing an unvisited node keeps the loop invariant. The node is listed and marked, and its unvisited neighbours are queued |
| BreadthFirst.VisitListed | main.py:24-26 | Listing a dequeued unvisited node keeps the order starting at `start`, duplicate-free, in discovery order and reachable, and keeps the visited set equal to the listed nodes |
| BreadthFirst.VisitQueued | main.py:27-29 | After the inner loop every queued node is a reachable node, and unless it is the start it is a neighbour of a listed node |
| BreadthFirst.VisitPending | main.py:27-29 | After the inner loop every unvisited neighbour of a visited node is still queued |
| BreadthFirst.BfsLoopComplete | main.py:22-30 | From any state satisfying the loop invariant, the loop's final order starts with `start`, has no duplicates, is in discovery order, and lists every node reachable from `start` |
| BreadthFirst.BfsLoopSorted | main.py:22-30 | From any state satisfying both loop invariants, the loop's final order is sorted by distance from `start` |
| BreadthFirst.LayeredSkip | main.py:23-24 | Dequeuing an already visited node keeps the distance layering |
| BreadthFirst.LayeredVisit | main.py:23-29 | Dequeuing an unvisited node, listing it and queuing its unvisited neighbours keeps the distance layering |
| BreadthFirst.VisitSorted | main.py:24-26 | The node listed is no closer to `start` than any node listed before it |
| BreadthFirst.VisitCloser | main.py:24-26 | Once the dequeued node is listed, every reachable node closer to `start` than it is visited |
| BreadthFirst.NeighbourAlreadyQueued | main.py:27-29 | An unvisited neighbour of the listed node that is no farther from `start` than that node is already in the queue behind it, so queuing it again does not bring it forward |
| BreadthFirst.LayeredVisitQueue | main.py:27-29 | After the inner loop, the unvisited queued nodes are still in non-decreasing distance order, apart from repeated entries |
| BreadthFirst.QueuedLevels | main.py:22-29 | Every unvisited queued node is at the distance of the last listed node or one more |
| Distances.DistEdge | main.py:7-30 | A fact about the shortest-path metric, not a model of a source line, that supports `BfsOrderByDistance`: following an edge adds at most one to the distance from the start |
| Distances.DistParent | main.py:7-30 | A fact about the shortest-path metric, not a model of a source line, that supports `BfsOrderByDistance`: every reachable node other than the start has a neighbour-predecessor exactly one step closer to the start |

## Left out

- `visualize_search`, `generateGraph`, `main` and the restart loop are not part of this model. They hold the drawing, the layout, timing, console input and output, and random generation. Connectivity, the generator's guarantee, appears only as the hypothesis `Connected(g)`.
- DepthFirst.Dfs, DepthFirst.DfsDefault: the source's `dfs` recurses once per nested call (main.py:52), so past Python's recursion limit (about 1000 frames) it raises `RecursionError`, for example on the path graph 0-1-...-1199 searched from 0. The model has no depth bound: it returns the full order on every graph.
- A start that is not a node makes the source fail when it reads `graph[start]`. The model requires `start < |g|` instead of modelling that failure.
- The thread safety of `queue.Queue` is not modelled. The queue is a plain sequence, taken from the front and added to at the back.
- The visited set of `dfs` is a map `array<bool>` indexed by node rather than a hash set. Its marked set (`Marked`) plays the role of the set.
- DepthFirst.SearchTreeOrder: it states the pre-order shape as "each later node is a neighbour of an earlier one". The recursive structure (start, then each unvisited neighbour's sub-order in adjacency order) is `Search` and `Explore` themselves. A characterisation through the stack of open calls is not stated.
- The worked examples of small graphs (triangle, path, star) are not evaluated. Only the general properties are proved.
