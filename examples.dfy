/**
 Concrete runs of the engine: the five-node example graph from two start
 nodes, a disconnected graph, a single isolated node, a directed graph whose
 one edge has no reverse, and a start node that is not in the graph.
 */
module Examples {
  import opened Graphs
  import opened Dijtra

  /** The example graph over the nodes A to E: every edge has a reverse of the same weight. */
  function ExampleGraph(): Graph<char>
  {
    map[
      'A' := map['B' := 4, 'C' := 2],
      'B' := map['A' := 4, 'C' := 3, 'D' := 2],
      'C' := map['A' := 2, 'B' := 3, 'D' := 1, 'E' := 3],
      'D' := map['B' := 2, 'C' := 1, 'E' := 1],
      'E' := map['C' := 3, 'D' := 1]]
  }

  /** A run on a graph in which every neighbour is a node cannot fail. */
  lemma ClosedRunsOk<N(!new)>(g: Graph<N>, s: N, r: Outcome<N>)
    requires Closed(g) && s in g
    requires r.KeyError? <==> !ClosedFrom(g, s)
    ensures r.Ok?
  {
    ClosedIsClosedFrom(g, s);
  }

  /** The five-node example's distances from A: E is reached through C and D. */
  function FromA(): map<char, Dist>
  {
    map['A' := Fin(0), 'B' := Fin(4), 'C' := Fin(2), 'D' := Fin(3), 'E' := Fin(4)]
  }

  /** The five-node example's distances from E: C is reached through D, not directly. */
  function FromE(): map<char, Dist>
  {
    map['A' := Fin(4), 'B' := Fin(3), 'C' := Fin(2), 'D' := Fin(1), 'E' := Fin(0)]
  }

  /** The table FromA() meets the characterisation for the example graph and start A. */
  lemma ExampleFromA()
    ensures ShortestDistances(ExampleGraph(), 'A', FromA())
  {
    assert FromA().Keys == ExampleGraph().Keys;
    ExampleSoundFromA();
    ExampleRelaxedFromA();
  }

  /** Each finite entry of FromA() is witnessed by a path from A. */
  lemma ExampleSoundFromA()
    ensures Sound(ExampleGraph(), 'A', FromA())
  {
    var g, T := ExampleGraph(), FromA();
    forall v | v in T && T[v].Fin?
      ensures HasPathOfWeight(g, 'A', v, T[v].n)
    {
      if v == 'A' {
        PathWitness(g, ['A'], 0);
      } else if v == 'B' {
        PathWitness(g, ['A', 'B'], 4);
      } else if v == 'C' {
        PathWitness(g, ['A', 'C'], 2);
      } else if v == 'D' {
        PathWitness(g, ['A', 'C', 'D'], 3);
      } else {
        ExtendPath(g, ['A', 'C', 'D'], 'E');
        assert ['A', 'C', 'D'] + ['E'] == ['A', 'C', 'D', 'E'];
        PathWitness(g, ['A', 'C', 'D', 'E'], 4);
      }
    }
  }

  /** No edge of the example graph can lower an entry of FromA(). */
  lemma ExampleRelaxedFromA()
    ensures Relaxed(ExampleGraph(), FromA())
  {
    forall u | u in FromA() && u in ExampleGraph() && FromA()[u].Fin?
      ensures RowRelaxed(ExampleGraph(), FromA(), u)
    {
      ExampleRow(FromA(), u);
    }
  }

  /** No edge out of u can lower its target's entry in T. */
  ghost predicate RowRelaxed(g: Graph<char>, T: map<char, Dist>, u: char)
    requires u in T && u in g && T[u].Fin?
  {
    forall v :: v in g[u] ==> v in T && Le(T[v], Fin(T[u].n + g[u][v]))
  }

  /** Either example table passes the relaxation check on the edges out of u;
      each node's few edges are checked in a lemma of their own. */
  lemma ExampleRow(T: map<char, Dist>, u: char)
    requires T == FromA() || T == FromE()
    requires u in T && T[u].Fin?
    ensures RowRelaxed(ExampleGraph(), T, u)
  {
    if u == 'A' {
      RowA(T);
    } else if u == 'B' {
      RowB(T);
    } else if u == 'C' {
      RowC(T);
    } else if u == 'D' {
      RowD(T);
    } else {
      RowE(T);
    }
  }

  lemma RowA(T: map<char, Dist>)
    requires T == FromA() || T == FromE()
    ensures RowRelaxed(ExampleGraph(), T, 'A')
  {}

  lemma RowB(T: map<char, Dist>)
    requires T == FromA() || T == FromE()
    ensures RowRelaxed(ExampleGraph(), T, 'B')
  {}

  lemma RowC(T: map<char, Dist>)
    requires T == FromA() || T == FromE()
    ensures RowRelaxed(ExampleGraph(), T, 'C')
  {}

  lemma RowD(T: map<char, Dist>)
    requires T == FromA() || T == FromE()
    ensures RowRelaxed(ExampleGraph(), T, 'D')
  {}

  lemma RowE(T: map<char, Dist>)
    requires T == FromA() || T == FromE()
    ensures RowRelaxed(ExampleGraph(), T, 'E')
  {}

  /** The table FromE() meets the characterisation for the example graph and start E. */
  lemma ExampleFromE()
    ensures ShortestDistances(ExampleGraph(), 'E', FromE())
  {
    assert FromE().Keys == ExampleGraph().Keys;
    ExampleSoundFromE();
    ExampleRelaxedFromE();
  }

  /** Each finite entry of FromE() is witnessed by a path from E. */
  lemma ExampleSoundFromE()
    ensures Sound(ExampleGraph(), 'E', FromE())
  {
    var g, T := ExampleGraph(), FromE();
    forall v | v in T && T[v].Fin?
      ensures HasPathOfWeight(g, 'E', v, T[v].n)
    {
      if v == 'A' {
        ExtendPath(g, ['E', 'D', 'C'], 'A');
        assert ['E', 'D', 'C'] + ['A'] == ['E', 'D', 'C', 'A'];
        PathWitness(g, ['E', 'D', 'C', 'A'], 4);
      } else if v == 'B' {
        PathWitness(g, ['E', 'D', 'B'], 3);
      } else if v == 'C' {
        PathWitness(g, ['E', 'D', 'C'], 2);
      } else if v == 'D' {
        PathWitness(g, ['E', 'D'], 1);
      } else {
        PathWitness(g, ['E'], 0);
      }
    }
  }

  /** No edge of the example graph can lower an entry of FromE(). */
  lemma ExampleRelaxedFromE()
    ensures Relaxed(ExampleGraph(), FromE())
  {
    forall u | u in FromE() && u in ExampleGraph() && FromE()[u].Fin?
      ensures RowRelaxed(ExampleGraph(), FromE(), u)
    {
      ExampleRow(FromE(), u);
    }
  }

  /** p is a path of weight w, so its end is reachable from its start at cost w. */
  lemma PathWitness(g: Graph<char>, p: seq<char>, w: nat)
    requires IsPath(g, p) && Weight(g, p) == w
    ensures HasPathOfWeight(g, p[0], Last(p), w)
  {
    assert PathFromTo(g, p[0], Last(p), p);
  }

  /** From A the example yields A:0, B:4, C:2, D:3, E:4. */
  method RunExampleFromA() returns (r: Outcome<char>)
    ensures r == Ok(FromA())
  {
    r := Dijkstra(ExampleGraph(), 'A');
    ClosedRunsOk(ExampleGraph(), 'A', r);
    ExampleFromA();
    ShortestDistancesUnique(ExampleGraph(), 'A', r.distances, FromA());
  }

  /** From E the example yields A:4, B:3, C:2, D:1, E:0. */
  method RunExampleFromE() returns (r: Outcome<char>)
    ensures r == Ok(FromE())
  {
    r := Dijkstra(ExampleGraph(), 'E');
    ClosedRunsOk(ExampleGraph(), 'E', r);
    ExampleFromE();
    ShortestDistancesUnique(ExampleGraph(), 'E', r.distances, FromE());
  }

  /** A reaches B; C has no edges in or out. */
  function DisconnectedGraph(): Graph<char>
  {
    map['A' := map['B' := 1], 'B' := map[], 'C' := map[]]
  }

  function DisconnectedFromA(): map<char, Dist>
  {
    map['A' := Fin(0), 'B' := Fin(1), 'C' := Inf]
  }

  /** From A: B at 1, C unreachable. */
  lemma DisconnectedShortest()
    ensures ShortestDistances(DisconnectedGraph(), 'A', DisconnectedFromA())
  {
    var g, T := DisconnectedGraph(), DisconnectedFromA();
    assert T.Keys == g.Keys;
    forall v | v in T && T[v].Fin?
      ensures HasPathOfWeight(g, 'A', v, T[v].n)
    {
      if v == 'A' {
        PathWitness(g, ['A'], 0);
      } else {
        PathWitness(g, ['A', 'B'], 1);
      }
    }
    forall u | u in T && u in g && T[u].Fin?
      ensures forall v :: v in g[u] ==> v in T && Le(T[v], Fin(T[u].n + g[u][v]))
    {
      if u == 'A' {} else if u == 'B' {} else {}
    }
  }

  /** A node without a path from the start keeps Inf. */
  method RunDisconnected() returns (r: Outcome<char>)
    ensures r == Ok(DisconnectedFromA())
  {
    r := Dijkstra(DisconnectedGraph(), 'A');
    ClosedRunsOk(DisconnectedGraph(), 'A', r);
    DisconnectedShortest();
    ShortestDistancesUnique(DisconnectedGraph(), 'A', r.distances, DisconnectedFromA());
  }

  /** A lone start node gets distance 0 and nothing else is reported. */
  method RunSingleNode() returns (r: Outcome<char>)
    ensures r == Ok(map['A' := Fin(0)])
  {
    var g: Graph<char> := map['A' := map[]];
    r := Dijkstra(g, 'A');
    ClosedRunsOk(g, 'A', r);
    PathWitness(g, ['A'], 0);
    ShortestDistancesUnique(g, 'A', r.distances, map['A' := Fin(0)]);
  }

  /** One edge, A to B, with no reverse. */
  function OneWayGraph(): Graph<char>
  {
    map['A' := map['B' := 1], 'B' := map[]]
  }

  /** From A, B is one edge away. */
  lemma OneWayFromA()
    ensures ShortestDistances(OneWayGraph(), 'A', map['A' := Fin(0), 'B' := Fin(1)])
  {
    var g, T := OneWayGraph(), map['A' := Fin(0), 'B' := Fin(1)];
    assert T.Keys == g.Keys;
    forall v | v in T && T[v].Fin?
      ensures HasPathOfWeight(g, 'A', v, T[v].n)
    {
      if v == 'A' {
        PathWitness(g, ['A'], 0);
      } else {
        PathWitness(g, ['A', 'B'], 1);
      }
    }
    forall u | u in T && u in g && T[u].Fin?
      ensures forall v :: v in g[u] ==> v in T && Le(T[v], Fin(T[u].n + g[u][v]))
    {
      if u == 'A' {} else {}
    }
  }

  /** From B, A is unreachable. */
  lemma OneWayFromB()
    ensures ShortestDistances(OneWayGraph(), 'B', map['A' := Inf, 'B' := Fin(0)])
  {
    var g, T := OneWayGraph(), map['A' := Inf, 'B' := Fin(0)];
    assert T.Keys == g.Keys;
    PathWitness(g, ['B'], 0);
    assert Sound(g, 'B', T);
  }

  /** Edges are directed: A to B costs 1, while B cannot reach A. */
  method RunDirected() returns (fromA: Outcome<char>, fromB: Outcome<char>)
    ensures fromA == Ok(map['A' := Fin(0), 'B' := Fin(1)])
    ensures fromB == Ok(map['A' := Inf, 'B' := Fin(0)])
  {
    fromA := Dijkstra(OneWayGraph(), 'A');
    fromB := Dijkstra(OneWayGraph(), 'B');
    ClosedRunsOk(OneWayGraph(), 'A', fromA);
    ClosedRunsOk(OneWayGraph(), 'B', fromB);
    OneWayFromA();
    OneWayFromB();
    ShortestDistancesUnique(OneWayGraph(), 'A', fromA.distances, map['A' := Fin(0), 'B' := Fin(1)]);
    ShortestDistancesUnique(OneWayGraph(), 'B', fromB.distances, map['A' := Inf, 'B' := Fin(0)]);
  }

  /** A start node that is not a key reaches nothing but itself. */
  lemma {:induction false} MissingStartReachesOnlyItself<N(!new)>(g: Graph<N>, s: N, p: seq<N>)
    requires s !in g && IsPath(g, p) && p[0] == s
    ensures p == [s]
    decreases |p|
  {
    if |p| > 1 {
      MissingStartReachesOnlyItself(g, s, p[..|p| - 1]);
      assert false;
    }
  }

  /** An unknown start node fails with a KeyError for that node. */
  method RunUnknownStart() returns (r: Outcome<char>)
    ensures r == KeyError('Z')
  {
    var g: Graph<char> := map['A' := map[]];
    r := Dijkstra(g, 'Z');
    assert IsPath(g, ['Z']) && Last(['Z']) !in g;
    ghost var p :| PathFromTo(g, 'Z', r.key, p);
    MissingStartReachesOnlyItself(g, 'Z', p);
  }
}
