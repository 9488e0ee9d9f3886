# Dijkstra's shortest distances, modelled and proved in Dafny

The system is one function, `dijkstra(graph, start_node)`. A graph maps each
node to a dictionary from neighbour to edge weight. The function returns a
dictionary holding, for every node of the graph, the least total edge weight
of a path from the start node. A node with no such path keeps infinity.

The engine:
- starts every node at infinity and the start node at 0;
- keeps a binary-heap frontier of `(distance, node)` entries, beginning with
  `(0, start)`;
- repeatedly pops the least entry and skips it if its node is already visited;
- otherwise marks the node visited and relaxes every edge to an unvisited
  neighbour, pushing a fresh entry whenever the distance strictly improves.

Stale entries are never removed from the heap; they are skipped when popped.

The model has four modules:

- `Graphs` (graphs.dfy) holds the vocabulary and the reference meaning:
  - graphs as `map<N, map<N, nat>>`, with distances either `Fin(n)` or `Inf`;
  - paths and their weights;
  - `IsDistance`, the reference distance: the least weight of a path, or
    `Inf` exactly when no path exists;
  - `ShortestDistances`, the local characterisation the algorithm
    establishes: the start is at 0, every finite entry is the weight of some
    path, and no edge can lower an entry.

  The module proves the two characterisations equivalent, and proves the
  result unique and monotone in the edge weights.
- `Heap` (heap.dfy) models the frontier by its contract. `Pop` returns an
  entry of least distance and removes exactly one copy of it. `Push` adds one
  entry.
- `Dijtra` (dijtra.dfy) holds the engine itself, as imperative code.
  - `Dijkstra` is the outer `while` loop.
  - `RelaxNeighbours` is the inner loop over the popped node's edges.
  - A loop invariant, kept by lemmas, shows the following:
    - each popped entry for an unvisited node carries that node's final
      distance;
    - popped distances never decrease;
    - every unvisited node with a finite distance has an entry on the heap;
    - the edges out of visited nodes are relaxed.
- `Examples` (examples.dfy) holds concrete runs, each proved to return an
  exact table:
  - the five-node graph of the usage example, from A and from E;
  - a disconnected graph;
  - a single node;
  - a one-way edge, run from both ends;
  - an unknown start node.

  From E the result is `A:4, B:3, C:2, D:1, E:0`. C is reached through D at
  cost 2, which beats the direct edge of weight 3.

Python raises `KeyError` in two places:
- at `graph[node]` when a popped node is not a key of the graph (this
  happens for the start node);
- at `distances[neighbor]` when an unvisited neighbour is not a key.

The model returns this error as the outcome `KeyError(key)` rather than
excluding it by a precondition. `Dijkstra` is proved to fail exactly when some
node reachable from the start is not a key of the graph. It fails with such a
node.

The docstring says the result holds "None if there's no path". The code
stores `float('inf')` instead, and the model follows the code (`Inf`).

## Model

| member | source | states |
|---|---|---|
| Dijtra.Dijkstra | dijtra.py:3-38 | Fails with KeyError exactly when some node reachable from the start is not a key, and then with such a node. Otherwise returns a table over exactly the graph's nodes in which every entry is the reference shortest distance (Inf exactly when unreachable) and which meets the local characterisation. |
| Dijtra.RelaxNeighbours | dijtra.py:31-36 | Fails exactly when some unvisited neighbour has no entry, and then returns that neighbour. Otherwise the table keeps its keys, entries only decrease, visited entries are unchanged, every change sets a neighbour to dist + weight, and every unvisited neighbour ends relaxed. The old heap entries stay. The new entries are exactly one per node whose distance strictly improved, each carrying its new distance: no push on a tie, no node pushed twice, no improved node left out. |
| Dijtra.InitialInvariant | dijtra.py:18-21 | The initial table (Inf everywhere, 0 at the start), the empty visited set and the frontier `[(0, start)]` satisfy the loop invariant. |
| Dijtra.SkipKeepsInvariant | dijtra.py:24-27 | Discarding a popped entry whose node is already visited keeps the loop invariant. |
| Dijtra.PopFresh | dijtra.py:24-29 | The least entry for an unvisited node carries exactly that node's current distance; that distance is at least every visited node's distance and is the weight of a path from the start. |
| Dijtra.VisitKeepsInvariant | dijtra.py:29-36 | Marking the popped node visited and relaxing its edges keeps the loop invariant, with the popped distance as the new lower bound. |
| Dijtra.VisitKeepsEntries | dijtra.py:24-36 | After a visit, every heap entry is still at least its node's current distance. |
| Dijtra.VisitKeepsFrontier | dijtra.py:24-36 | After a visit, every unvisited node with a finite distance still has a heap entry carrying that distance. |
| Dijtra.VisitKeepsRelaxed | dijtra.py:29-36 | After a visit, the edges out of every visited node, the new one included, are relaxed. |
| Dijtra.RelaxKeepsSound | dijtra.py:33-35 | Lowering entries to dist + weight along edges out of a node at path weight dist keeps every finite entry the weight of some path. |
| Dijtra.KeyErrorAt | dijtra.py:31 | A popped node that is not a key is reachable, so the graph is not closed under reachability from the start. |
| Dijtra.KeyErrorAfter | dijtra.py:34 | An unvisited neighbour with no entry is reachable and not a key. |
| Dijtra.DoneShortest | dijtra.py:23-38 | When the frontier is empty, the table meets the local characterisation of shortest distances. |
| Dijtra.FewerUnvisited | dijtra.py:29 | Visiting a new node strictly shrinks the set of unvisited nodes, the loop's termination measure. |
| Heap.MinIndex | dijtra.py:24 | Returns a position in the frontier whose distance is no greater than any other entry's. |
| Heap.Pop | dijtra.py:24 | Returns an entry of the frontier whose distance is least, and the rest. The rest is the frontier with exactly one copy of that entry removed, as a multiset, and keeps every other entry. |
| Heap.Push | dijtra.py:36 | Adds exactly one entry to the frontier, as a multiset, keeping the old entries. |
| Graphs.ExtendPath | dijtra.py:31-33 | Following an edge out of a path's last node yields a path one edge longer and heavier by that edge's weight. |
| Graphs.LowerBound | dijtra.py:31-36 | For a table that has the start at 0 and is relaxed along every edge, every path from the start ends at a node whose entry is finite and no greater than the path's weight. |
| Graphs.ShortestDistancesAreDistances | dijtra.py:3-38 | The local characterisation implies that every entry is the reference shortest distance and that everything reachable is a node. |
| Graphs.DistancesAreShortestDistances | dijtra.py:3-38 | Conversely, a table of reference distances over the nodes, for a graph closed under reachability, meets the local characterisation. |
| Graphs.ShortestDistancesCharacterised | dijtra.py:3-38 | Both directions as one equivalence. |
| Graphs.DistanceUnique | dijtra.py:3-38 | The reference distance of a node is unique. |
| Graphs.ShortestDistancesUnique | dijtra.py:3-38 | At most one table meets the characterisation, so the result does not depend on the heap's tie-breaking or on the iteration order of the neighbours. |
| Graphs.WeightMonotone | dijtra.py:33 | A path in a graph with heavier edges is a path in the lighter graph and weighs no less there. |
| Graphs.ShortestMonotone | dijtra.py:3-38 | Making edges heavier never lowers a shortest distance. |
| Graphs.ClosedIsClosedFrom | dijtra.py:31-34 | If every neighbour is a node and the start is a node, everything reachable is a node. |
| Examples.ClosedRunsOk | dijtra.py:31-34 | On such a graph the run cannot fail. |
| Examples.ExampleFromA | dijtra.py:41-49 | From A the usage example's graph has shortest distances A:0, B:4, C:2, D:3, E:4. |
| Examples.ExampleFromE | dijtra.py:41-47 | From E the same graph has shortest distances A:4, B:3, C:2, D:1, E:0. |
| Examples.RunExampleFromA | dijtra.py:41-49 | `Dijkstra` on the usage example from A returns exactly A:0, B:4, C:2, D:3, E:4. |
| Examples.RunExampleFromE | dijtra.py:41-47 | `Dijkstra` on the same graph from E returns exactly A:4, B:3, C:2, D:1, E:0. |
| Examples.DisconnectedShortest | dijtra.py:18-38 | In `{A:{B:1}, B:{}, C:{}}` from A, the table A:0, B:1, C:Inf meets the characterisation. |
| Examples.RunDisconnected | dijtra.py:18-38 | `Dijkstra` there returns exactly A:0, B:1, C:Inf: the unreachable node stays infinite. |
| Examples.RunSingleNode | dijtra.py:18-38 | A lone start node with no edges gets exactly `{A:0}`. |
| Examples.OneWayFromA | dijtra.py:31-36 | With a single edge A to B of weight 1, the table from A is A:0, B:1. |
| Examples.OneWayFromB | dijtra.py:31-36 | In the same graph, the table from B is A:Inf, B:0. |
| Examples.RunDirected | dijtra.py:31-36 | Edges are directed: from A, B is at 1; from B, A is Inf. |
| Examples.MissingStartReachesOnlyItself | dijtra.py:19-31 | A start node that is not a key has no path but itself. |
| Examples.RunUnknownStart | dijtra.py:19-31 | A start node that is not a key makes the run fail with KeyError for that node. |

## Left out

- Heap.Pop: the binary-heap layout of the list and `heapq`'s tie-breaking are not modelled. The tie-break compares `(distance, node)` tuples, so equal distances fall back to comparing nodes. Pop returns the first entry of least distance instead. `Graphs.ShortestDistancesUnique` shows that the result does not depend on which entry is chosen.
- Dijtra.RelaxNeighbours: Python's dictionary iteration order over `graph[node].items()` is modelled as an arbitrary choice of the next unprocessed neighbour. So for a graph that fails, the model proves a KeyError for some missing neighbour, not for the first one in insertion order.
- Weights are natural numbers, not Python numbers. Floating-point weights, rounding and negative weights (excluded by the type) are not modelled. `float('inf')` is the constructor `Inf`.
- Dijkstra: the other exceptions Python could raise are out of scope. These are unhashable nodes, and a `TypeError` when two heap tuples tie on distance and their nodes cannot be compared.
- The usage demo's printing (dijtra.py:51-53) is I/O and is not modelled. Its graph and call (dijtra.py:41-49) are `Examples.RunExampleFromA`.
- Dijkstra: the heap's size is bounded only per visit, in `RelaxNeighbours` (one push per strictly improved neighbour, so at most |graph[node]| in total). No lemma bounds the heap's total size over a run.
- Dijtra.RelaxNeighbours: the order of the newly pushed entries is left open, since it follows the dictionary's iteration order. That the old entries stay as a prefix comes from modelling a push as an append rather than a sift into heap position.
- Path reconstruction is not part of the source and is not modelled.
