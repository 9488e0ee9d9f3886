/**
 Dijkstra's single-source shortest distances with a lazily-deleted frontier:
 pop the least entry, skip it if its node is already visited, otherwise
 visit the node and relax every edge to an unvisited neighbour, pushing a
 fresh entry on every improvement.
 */
module Dijtra {
  import opened Graphs
  import Heap

  /** What a call returns: the distance table, or the key whose lookup fails. */
  datatype Outcome<N> = Ok(distances: map<N, Dist>) | KeyError(key: N)

  /** Relaxes every edge out of `node`, whose distance is `dist`, skipping
      neighbours in `visited`. Fails with some unvisited neighbour that has
      no entry in the table. */
  method RelaxNeighbours<N(==,!new)>(graph: Graph<N>, node: N, dist: nat, visited: set<N>,
                                distances: map<N, Dist>, pq: seq<Heap.Entry<N>>)
    returns (missing: Option<N>, d: map<N, Dist>, q: seq<Heap.Entry<N>>)
    requires node in graph
    // the lookup fails exactly when some unvisited neighbour has no entry
    ensures missing.None? <==> forall v :: v in graph[node] ==> v in visited || v in distances
    ensures missing.Some? ==>
      missing.value in graph[node] && missing.value !in visited && missing.value !in distances
    // the table keeps its keys, distances only decrease, visited ones are frozen,
    // and every change is a relaxation along an edge out of node with a fresh entry
    ensures missing.None? ==> RelaxedAlong(graph, node, dist, visited, distances, pq, d, q)
    // old entries stay, and at most |graph[node]| entries are pushed in total; that the
    // old entries stay as a prefix comes from modelling a push as an append
    ensures |pq| <= |q| <= |pq| + |graph[node]| && q[..|pq|] == pq
    ensures d.Keys == distances.Keys
    // each pushed entry is for a node whose distance strictly improved, and carries the new distance
    ensures forall i :: |pq| <= i < |q| ==>
      q[i].1 in distances && Less(d[q[i].1], distances[q[i].1]) && q[i] == (d[q[i].1].n, q[i].1)
    // no node is pushed twice
    ensures forall i, j :: |pq| <= i < j < |q| ==> q[i].1 != q[j].1
    // every improved node is pushed
    ensures forall x :: x in distances && d[x] != distances[x] ==> d[x].Fin? && (d[x].n, x) in q[|pq|..]
  {
    d, q := distances, pq;
    var todo := graph[node].Keys;
    RelaxStart(graph, node, dist, visited, distances, pq);
    while todo != {}
      invariant RelaxLoop(graph, node, dist, visited, distances, pq, todo, d, q)
      decreases |todo|
    {
      var neighbor :| neighbor in todo;
      var weight := graph[node][neighbor];
      if neighbor !in visited {
        if neighbor !in d {
          RelaxFacts(graph, node, dist, visited, distances, pq, todo, d, q);
          return Some(neighbor), d, q;
        }
        var newDist := dist + weight;
        if Less(Fin(newDist), d[neighbor]) {
          RelaxPush(graph, node, dist, visited, distances, pq, todo, d, q, neighbor);
          d := d[neighbor := Fin(newDist)];
          q := Heap.Push(q, (newDist, neighbor));
        } else {
          RelaxSkip(graph, node, dist, visited, distances, pq, todo, d, q, neighbor);
        }
      } else {
        RelaxSkip(graph, node, dist, visited, distances, pq, todo, d, q, neighbor);
      }
      todo := todo - {neighbor};
    }
    RelaxFacts(graph, node, dist, visited, distances, pq, todo, d, q);
    RelaxDone(graph, node, dist, visited, distances, pq, d, q);
    missing := None;
  }

  /** The inner loop's invariant: `todo` holds the neighbours not yet processed,
      and `d`, `q` are the table and frontier after processing the others. */
  ghost predicate RelaxLoop<N(!new)>(graph: Graph<N>, node: N, dist: nat, visited: set<N>,
                                     distances: map<N, Dist>, pq: seq<Heap.Entry<N>>,
                                     todo: set<N>, d: map<N, Dist>, q: seq<Heap.Entry<N>>)
    requires node in graph
  {
    RelaxTable(graph, node, dist, visited, distances, todo, d) &&
    RelaxFrontier(graph, node, visited, distances, pq, todo, d, q)
  }

  /** The table half of the inner loop's invariant. */
  ghost predicate RelaxTable<N(!new)>(graph: Graph<N>, node: N, dist: nat, visited: set<N>,
                                      distances: map<N, Dist>, todo: set<N>, d: map<N, Dist>)
    requires node in graph
  {
    && todo <= graph[node].Keys
    // every processed neighbour was looked up without failure
    && (forall v :: v in graph[node] && v !in todo ==> v in visited || v in distances)
    && d.Keys == distances.Keys
    && (forall x :: x in distances ==> Le(d[x], distances[x]))
    // only processed, unvisited neighbours change, each to the distance through node
    && (forall x :: x in distances && d[x] != distances[x] ==>
          x in graph[node] && x !in todo && x !in visited && d[x] == Fin(dist + graph[node][x]))
    // processed, unvisited neighbours are relaxed
    && (forall v :: v in graph[node] && v !in todo && v !in visited ==>
          Le(d[v], Fin(dist + graph[node][v])))
  }

  /** The frontier half of the inner loop's invariant. */
  ghost predicate RelaxFrontier<N(!new)>(graph: Graph<N>, node: N, visited: set<N>,
                                         distances: map<N, Dist>, pq: seq<Heap.Entry<N>>,
                                         todo: set<N>, d: map<N, Dist>, q: seq<Heap.Entry<N>>)
    requires node in graph
  {
    && |pq| <= |q| && |q| + |todo| <= |pq| + |graph[node]| && q[..|pq|] == pq
    && PushedExactly(distances, pq, d, q, todo)
    // each pushed entry is for a processed, unvisited neighbour
    && (forall i :: |pq| <= i < |q| ==> q[i].1 in graph[node] && q[i].1 !in visited)
  }

  lemma RelaxStart<N(!new)>(graph: Graph<N>, node: N, dist: nat, visited: set<N>,
                            distances: map<N, Dist>, pq: seq<Heap.Entry<N>>)
    requires node in graph
    ensures RelaxLoop(graph, node, dist, visited, distances, pq, graph[node].Keys, distances, pq)
  {
  }

  /** Processing a neighbour that is visited, or whose distance does not improve,
      changes nothing. */
  lemma RelaxSkip<N(!new)>(graph: Graph<N>, node: N, dist: nat, visited: set<N>,
                           distances: map<N, Dist>, pq: seq<Heap.Entry<N>>,
                           todo: set<N>, d: map<N, Dist>, q: seq<Heap.Entry<N>>, v: N)
    requires node in graph && RelaxLoop(graph, node, dist, visited, distances, pq, todo, d, q)
    requires v in todo
    requires v in visited || (v in d && !Less(Fin(dist + graph[node][v]), d[v]))
    ensures RelaxLoop(graph, node, dist, visited, distances, pq, todo - {v}, d, q)
  {
    assert |todo - {v}| == |todo| - 1;
    if v !in visited {
      assert Le(d[v], Fin(dist + graph[node][v]));
    }
  }

  /** Lowering an unvisited neighbour and pushing its entry keeps the
      invariant once the neighbour is processed. */
  lemma RelaxPush<N(!new)>(graph: Graph<N>, node: N, dist: nat, visited: set<N>,
                           distances: map<N, Dist>, pq: seq<Heap.Entry<N>>,
                           todo: set<N>, d: map<N, Dist>, q: seq<Heap.Entry<N>>, v: N)
    requires node in graph && RelaxLoop(graph, node, dist, visited, distances, pq, todo, d, q)
    requires v in todo && v !in visited && v in d && Less(Fin(dist + graph[node][v]), d[v])
    ensures var nd := dist + graph[node][v];
      RelaxLoop(graph, node, dist, visited, distances, pq, todo - {v},
                d[v := Fin(nd)], Heap.Push(q, (nd, v)))
  {
    RelaxPushTable(graph, node, dist, visited, distances, todo, d, v);
    RelaxPushFrontier(graph, node, dist, visited, distances, pq, todo, d, q, v);
  }

  lemma RelaxPushTable<N(!new)>(graph: Graph<N>, node: N, dist: nat, visited: set<N>,
                                distances: map<N, Dist>, todo: set<N>, d: map<N, Dist>, v: N)
    requires node in graph && RelaxTable(graph, node, dist, visited, distances, todo, d)
    requires v in todo && v !in visited && v in d && Less(Fin(dist + graph[node][v]), d[v])
    ensures RelaxTable(graph, node, dist, visited, distances, todo - {v}, d[v := Fin(dist + graph[node][v])])
  {
  }

  lemma RelaxPushFrontier<N(!new)>(graph: Graph<N>, node: N, dist: nat, visited: set<N>,
                                   distances: map<N, Dist>, pq: seq<Heap.Entry<N>>,
                                   todo: set<N>, d: map<N, Dist>, q: seq<Heap.Entry<N>>, v: N)
    requires node in graph && RelaxTable(graph, node, dist, visited, distances, todo, d)
    requires RelaxFrontier(graph, node, visited, distances, pq, todo, d, q)
    requires v in todo && v !in visited && v in d && Less(Fin(dist + graph[node][v]), d[v])
    ensures var nd := dist + graph[node][v];
      RelaxFrontier(graph, node, visited, distances, pq, todo - {v}, d[v := Fin(nd)], Heap.Push(q, (nd, v)))
  {
    var nd := dist + graph[node][v];
    var q' := Heap.Push(q, (nd, v));
    assert |todo - {v}| == |todo| - 1;
    assert q'[..|pq|] == q[..|pq|];
    PushKeepsExact(distances, pq, d, q, todo, v, nd);
    forall i | |pq| <= i < |q'|
      ensures q'[i].1 in graph[node] && q'[i].1 !in visited
    {
      if i < |q| {
        assert q'[i] == q[i];
      }
    }
  }

  /** What holds of the table and frontier at any point of the loop. */
  lemma RelaxFacts<N(!new)>(graph: Graph<N>, node: N, dist: nat, visited: set<N>,
                            distances: map<N, Dist>, pq: seq<Heap.Entry<N>>,
                            todo: set<N>, d: map<N, Dist>, q: seq<Heap.Entry<N>>)
    requires node in graph && RelaxLoop(graph, node, dist, visited, distances, pq, todo, d, q)
    ensures d.Keys == distances.Keys
    ensures |pq| <= |q| <= |pq| + |graph[node]| && q[..|pq|] == pq
    ensures PushedExactly(distances, pq, d, q, {})
  {
  }

  /** After the last neighbour, the state is a relaxation along every edge out of node. */
  lemma RelaxDone<N(!new)>(graph: Graph<N>, node: N, dist: nat, visited: set<N>,
                           distances: map<N, Dist>, pq: seq<Heap.Entry<N>>,
                           d: map<N, Dist>, q: seq<Heap.Entry<N>>)
    requires node in graph && RelaxLoop(graph, node, dist, visited, distances, pq, {}, d, q)
    ensures RelaxedAlong(graph, node, dist, visited, distances, pq, d, q)
  {
    assert q == pq + q[|pq|..];
    forall e | e in q
      ensures e in pq || (e.1 in graph[node] && e.1 !in visited && e.0 == dist + graph[node][e.1] &&
                          e.1 in d && d[e.1] == Fin(e.0))
    {
      if e !in pq {
        var i :| |pq| <= i < |q| && q[i] == e;
      }
    }
  }

  /** The entries pushed after the first |pq| of q are exactly one per node whose
      distance went down from `distances` to `d`, each carrying the new distance,
      and none of them for a node still in `todo`. */
  ghost predicate PushedExactly<N(!new)>(distances: map<N, Dist>, pq: seq<Heap.Entry<N>>,
                                         d: map<N, Dist>, q: seq<Heap.Entry<N>>, todo: set<N>)
  {
    && |pq| <= |q| && d.Keys == distances.Keys
    && (forall i :: |pq| <= i < |q| ==>
          q[i].1 !in todo && q[i].1 in distances && Less(d[q[i].1], distances[q[i].1]) &&
          q[i] == (d[q[i].1].n, q[i].1))
    && (forall i, j :: |pq| <= i < j < |q| ==> q[i].1 != q[j].1)
    && (forall x :: x in distances && d[x] != distances[x] ==> d[x].Fin? && (d[x].n, x) in q[|pq|..])
  }

  /** Lowering a not-yet-processed neighbour and pushing its new entry keeps
      the pushed entries exact once the neighbour is processed. */
  lemma PushKeepsExact<N(!new)>(distances: map<N, Dist>, pq: seq<Heap.Entry<N>>,
                                d: map<N, Dist>, q: seq<Heap.Entry<N>>, todo: set<N>, v: N, nd: nat)
    requires PushedExactly(distances, pq, d, q, todo)
    requires v in todo && v in d && d[v] == distances[v] && Less(Fin(nd), d[v])
    ensures PushedExactly(distances, pq, d[v := Fin(nd)], Heap.Push(q, (nd, v)), todo - {v})
  {
    var d', q' := d[v := Fin(nd)], Heap.Push(q, (nd, v));
    assert q'[|pq|..] == q[|pq|..] + [(nd, v)];
    forall x | x in distances && d'[x] != distances[x]
      ensures d'[x].Fin? && (d'[x].n, x) in q'[|pq|..]
    {
      if x != v {
        assert (d[x].n, x) in q[|pq|..];
      }
    }
  }

  /** The engine: shortest distances from `start` over `graph`. */
  method Dijkstra<N(==,!new)>(graph: Graph<N>, start: N) returns (r: Outcome<N>)
    // a KeyError happens exactly when something reachable from start is not a node
    ensures r.KeyError? <==> !ClosedFrom(graph, start)
    ensures r.KeyError? ==> r.key !in graph && Reachable(graph, start, r.key)
    // otherwise every entry is the shortest distance, Inf exactly when unreachable
    ensures r.Ok? ==> r.distances.Keys == graph.Keys
    ensures r.Ok? ==> forall v :: v in r.distances ==> IsDistance(graph, start, v, r.distances[v])
    ensures r.Ok? ==> ShortestDistances(graph, start, r.distances)
  {
    var distances := map node | node in graph.Keys :: Inf;
    distances := distances[start := Fin(0)];
    var visited: set<N> := {};
    var pq: seq<Heap.Entry<N>> := [(0, start)];
    ghost var lo: nat := 0;
    InitialInvariant(graph, start, distances);
    while pq != []
      invariant LoopInvariant(graph, start, distances, visited, pq, lo)
      decreases |(graph.Keys + {start}) - visited|, |pq|
    {
      ghost var (before, pqBefore, visitedBefore) := (distances, pq, visited);
      var popped := Heap.Pop(pq);
      var (dist, node) := popped.0;
      pq := popped.1;
      if node in visited {
        SkipKeepsInvariant(graph, start, distances, visited, pqBefore, lo);
        continue;
      }
      PopFresh(graph, start, distances, visited, pqBefore, lo);
      visited := visited + {node};
      if node !in graph {
        KeyErrorAt(graph, start, node, dist);
        return KeyError(node);
      }
      var missing;
      missing, distances, pq := RelaxNeighbours(graph, node, dist, visited, distances, pq);
      if missing.Some? {
        KeyErrorAfter(graph, start, node, dist, missing.value);
        return KeyError(missing.value);
      }
      VisitKeepsInvariant(graph, start, before, visitedBefore, pqBefore, lo, dist, node, popped.1, distances, pq);
      FewerUnvisited(graph.Keys + {start}, visitedBefore, node);
      lo := dist;
    }
    DoneShortest(graph, start, distances, visited, lo);
    ShortestDistancesAreDistances(graph, start, distances);
    r := Ok(distances);
  }

  /** Every entry is at least its node's current distance. */
  ghost predicate EntriesAboveDistances<N(!new)>(distances: map<N, Dist>, pq: seq<Heap.Entry<N>>)
  {
    forall e :: e in pq ==> e.1 in distances && Le(distances[e.1], Fin(e.0))
  }

  /** Every unvisited node with a finite distance has an entry for exactly that distance. */
  ghost predicate FrontierComplete<N(!new)>(distances: map<N, Dist>, visited: set<N>, pq: seq<Heap.Entry<N>>)
  {
    forall x :: x in distances && x !in visited && distances[x].Fin? ==> (distances[x].n, x) in pq
  }

  /** No edge out of a visited node can lower its target's distance. */
  ghost predicate VisitedRelaxed<N(!new)>(graph: Graph<N>, distances: map<N, Dist>, visited: set<N>)
  {
    forall u :: u in visited && u in graph && u in distances && distances[u].Fin? ==>
      forall v :: v in graph[u] ==> v in distances && Le(distances[v], Fin(distances[u].n + graph[u][v]))
  }

  /** What holds before each pop: `lo` is the distance of the last visited
      node, so visited distances lie at or below it and pending entries at or above it. */
  ghost predicate LoopInvariant<N(!new)>(graph: Graph<N>, start: N, distances: map<N, Dist>,
                                         visited: set<N>, pq: seq<Heap.Entry<N>>, lo: nat)
  {
    && distances.Keys == graph.Keys + {start}
    && visited <= graph.Keys
    && distances[start] == Fin(0)
    && EntriesAboveDistances(distances, pq)
    && FrontierComplete(distances, visited, pq)
    && (forall x :: x in visited ==> distances[x].Fin? && distances[x].n <= lo)
    && (forall e :: e in pq ==> lo <= e.0)
    && Sound(graph, start, distances)
    && VisitedRelaxed(graph, distances, visited)
  }

  /** The initial table, visited set and frontier satisfy the invariant. */
  lemma InitialInvariant<N(!new)>(graph: Graph<N>, start: N, distances: map<N, Dist>)
    requires distances == (map node | node in graph.Keys :: Inf)[start := Fin(0)]
    ensures LoopInvariant(graph, start, distances, {}, [(0, start)], 0)
  {
    assert PathFromTo(graph, start, start, [start]);
  }

  /** Visiting one more node of `nodes` leaves fewer unvisited. */
  lemma FewerUnvisited<N>(nodes: set<N>, visited: set<N>, node: N)
    requires node in nodes && node !in visited
    ensures |nodes - (visited + {node})| < |nodes - visited|
  {
    assert nodes - visited == (nodes - (visited + {node})) + {node};
  }

  /** Popping a stale entry (its node already visited) keeps the invariant. */
  lemma SkipKeepsInvariant<N(!new)>(graph: Graph<N>, start: N, distances: map<N, Dist>,
                                    visited: set<N>, pq: seq<Heap.Entry<N>>, lo: nat)
    requires pq != [] && LoopInvariant(graph, start, distances, visited, pq, lo)
    requires Heap.Pop(pq).0.1 in visited
    ensures LoopInvariant(graph, start, distances, visited, Heap.Pop(pq).1, lo)
  {
  }

  /** The least entry for an unvisited node carries exactly that node's
      distance, which is no less than lo and is the weight of a path. */
  lemma PopFresh<N(!new)>(graph: Graph<N>, start: N, distances: map<N, Dist>,
                          visited: set<N>, pq: seq<Heap.Entry<N>>, lo: nat)
    requires pq != [] && LoopInvariant(graph, start, distances, visited, pq, lo)
    requires Heap.Pop(pq).0.1 !in visited
    ensures var (dist, node) := Heap.Pop(pq).0;
      node in distances && distances[node] == Fin(dist) && lo <= dist &&
      HasPathOfWeight(graph, start, node, dist)
  {
    var (dist, node) := Heap.Pop(pq).0;
    assert (distances[node].n, node) in pq;
  }

  /** The state after relaxing every edge out of `node` (distance `dist`),
      against the state before. */
  ghost predicate RelaxedAlong<N(!new)>(graph: Graph<N>, node: N, dist: nat, visited: set<N>,
                                        distances: map<N, Dist>, pq: seq<Heap.Entry<N>>,
                                        d: map<N, Dist>, q: seq<Heap.Entry<N>>)
    requires node in graph
  {
    // every neighbour was looked up without failure
    && (forall v :: v in graph[node] ==> v in visited || v in distances)
    // the table keeps its keys, and distances only ever decrease
    && d.Keys == distances.Keys
    && (forall x :: x in distances ==> Le(d[x], distances[x]))
    // visited distances are frozen
    && (forall x :: x in distances && x in visited ==> d[x] == distances[x])
    // every change is an improvement along an edge out of node, with a fresh entry
    && (forall x :: x in distances && d[x] != distances[x] ==>
          x in graph[node] && d[x] == Fin(dist + graph[node][x]) && (d[x].n, x) in q)
    // every unvisited neighbour has been relaxed
    && (forall v :: v in graph[node] && v !in visited ==> Le(d[v], Fin(dist + graph[node][v])))
    // old entries stay; each entry is old, or carries the current distance of an unvisited neighbour
    && (forall e :: e in pq ==> e in q)
    && (forall e :: e in q ==>
          e in pq || (e.1 in graph[node] && e.1 !in visited && e.0 == dist + graph[node][e.1] &&
                      e.1 in d && d[e.1] == Fin(e.0)))
  }

  /** Visiting a fresh node and relaxing its edges keeps the invariant, with
      the node's distance as the new lo. */
  lemma VisitKeepsInvariant<N(!new)>(graph: Graph<N>, start: N, distances: map<N, Dist>,
                                     visited: set<N>, pq: seq<Heap.Entry<N>>, lo: nat,
                                     dist: nat, node: N, rest: seq<Heap.Entry<N>>,
                                     d: map<N, Dist>, q: seq<Heap.Entry<N>>)
    requires pq != [] && LoopInvariant(graph, start, distances, visited, pq, lo)
    requires Heap.Pop(pq) == ((dist, node), rest)
    requires node !in visited && node in graph
    requires RelaxedAlong(graph, node, dist, visited + {node}, distances, rest, d, q)
    ensures LoopInvariant(graph, start, d, visited + {node}, q, dist)
  {
    PopFresh(graph, start, distances, visited, pq, lo);
    RelaxKeepsSound(graph, start, node, dist, distances, d);
    VisitKeepsEntries(distances, pq, dist, node, rest, graph, d, q, visited + {node});
    VisitKeepsFrontier(distances, visited, pq, dist, node, rest, d, q);
    VisitKeepsRelaxed(graph, distances, visited, lo, dist, node, d);
  }

  lemma VisitKeepsEntries<N(!new)>(distances: map<N, Dist>, pq: seq<Heap.Entry<N>>,
                                   dist: nat, node: N, rest: seq<Heap.Entry<N>>,
                                   graph: Graph<N>, d: map<N, Dist>, q: seq<Heap.Entry<N>>,
                                   visited: set<N>)
    requires EntriesAboveDistances(distances, pq)
    requires pq != [] && Heap.Pop(pq) == ((dist, node), rest)
    requires node in graph
    requires RelaxedAlong(graph, node, dist, visited, distances, rest, d, q)
    ensures EntriesAboveDistances(d, q)
    ensures forall e :: e in q ==> dist <= e.0
  {
    forall e | e in q
      ensures e.1 in d && Le(d[e.1], Fin(e.0)) && dist <= e.0
    {
      if e in rest {
        assert e in pq;
      }
    }
  }

  lemma VisitKeepsFrontier<N(!new)>(distances: map<N, Dist>, visited: set<N>, pq: seq<Heap.Entry<N>>,
                                    dist: nat, node: N, rest: seq<Heap.Entry<N>>,
                                    d: map<N, Dist>, q: seq<Heap.Entry<N>>)
    requires FrontierComplete(distances, visited, pq)
    requires pq != [] && Heap.Pop(pq) == ((dist, node), rest)
    requires d.Keys == distances.Keys
    requires forall e :: e in rest ==> e in q
    requires forall x :: x in distances && d[x] != distances[x] ==> d[x].Fin? && (d[x].n, x) in q
    ensures FrontierComplete(d, visited + {node}, q)
  {
    forall x | x in d && x !in visited + {node} && d[x].Fin?
      ensures (d[x].n, x) in q
    {
      if d[x] == distances[x] {
        assert (distances[x].n, x) in pq;
        assert (distances[x].n, x) in rest;
      }
    }
  }

  lemma VisitKeepsRelaxed<N(!new)>(graph: Graph<N>, distances: map<N, Dist>, visited: set<N>,
                                   lo: nat, dist: nat, node: N, d: map<N, Dist>)
    requires VisitedRelaxed(graph, distances, visited)
    requires forall x :: x in visited ==> x in distances && distances[x].Fin? && distances[x].n <= lo
    requires lo <= dist && node in graph && node in distances && distances[node] == Fin(dist)
    requires d.Keys == distances.Keys
    requires forall v :: v in graph[node] ==> v in visited + {node} || v in distances
    requires forall x :: x in distances ==> Le(d[x], distances[x])
    requires forall x :: x in distances && x in visited + {node} ==> d[x] == distances[x]
    requires forall v :: v in graph[node] && v !in visited + {node} ==> Le(d[v], Fin(dist + graph[node][v]))
    ensures VisitedRelaxed(graph, d, visited + {node})
    ensures forall x :: x in visited + {node} ==> d[x].Fin? && d[x].n <= dist
  {
    forall u, v | u in visited + {node} && u in graph && u in d && d[u].Fin? && v in graph[u]
      ensures v in d && Le(d[v], Fin(d[u].n + graph[u][v]))
    {
      if u != node {
        assert Le(d[v], distances[v]);
      } else if v in visited + {node} {
        assert d[v].n <= dist;
      }
    }
  }

  /** Looking up a popped node that is not a key fails, and the node is reachable. */
  lemma KeyErrorAt<N(!new)>(graph: Graph<N>, start: N, node: N, dist: nat)
    requires HasPathOfWeight(graph, start, node, dist) && node !in graph
    ensures Reachable(graph, start, node) && !ClosedFrom(graph, start)
  {
    var p :| PathFromTo(graph, start, node, p) && Weight(graph, p) == dist;
  }

  /** A neighbour of a reachable node that is not a key is itself reachable. */
  lemma KeyErrorAfter<N(!new)>(graph: Graph<N>, start: N, node: N, dist: nat, v: N)
    requires HasPathOfWeight(graph, start, node, dist) && node in graph
    requires v in graph[node] && v !in graph
    ensures Reachable(graph, start, v) && !ClosedFrom(graph, start)
  {
    var p :| PathFromTo(graph, start, node, p) && Weight(graph, p) == dist;
    ExtendPath(graph, p, v);
    assert PathFromTo(graph, start, v, p + [v]);
  }

  /** With the frontier empty every finite node is visited, so the table is relaxed. */
  lemma DoneShortest<N(!new)>(graph: Graph<N>, start: N, distances: map<N, Dist>,
                              visited: set<N>, lo: nat)
    requires LoopInvariant(graph, start, distances, visited, [], lo)
    ensures ShortestDistances(graph, start, distances)
  {
    assert start in visited;
  }

  /** A relaxation step along edges out of a node whose distance is witnessed
      by a path keeps every finite distance witnessed by a path. */
  lemma RelaxKeepsSound<N(!new)>(graph: Graph<N>, start: N, node: N, dist: nat,
                                 before: map<N, Dist>, after: map<N, Dist>)
    requires node in graph && HasPathOfWeight(graph, start, node, dist)
    requires Sound(graph, start, before) && after.Keys == before.Keys
    requires forall x :: x in before && after[x] != before[x] ==>
      x in graph[node] && after[x] == Fin(dist + graph[node][x])
    ensures Sound(graph, start, after)
  {
    var p :| PathFromTo(graph, start, node, p) && Weight(graph, p) == dist;
    forall x | x in after && after[x].Fin?
      ensures HasPathOfWeight(graph, start, x, after[x].n)
    {
      if after[x] != before[x] {
        ExtendPath(graph, p, x);
        assert PathFromTo(graph, start, x, p + [x]);
      }
    }
  }

  datatype Option<T> = None | Some(value: T)
}
