/**
 Weighted directed graphs, paths and their weights, and what it means for a
 table of distances to be the single-source shortest distances of a graph.
 */
module Graphs {

  /** Each node maps to its out-neighbours, each with the weight of the edge to it.
      Weights are natural numbers, so no edge is negative. */
  type Graph<N> = map<N, map<N, nat>>

  /** A tentative or final distance: finite, or infinite when no path is known. */
  datatype Dist = Fin(n: nat) | Inf

  /** a <= b, with Inf above every finite distance. */
  predicate Le(a: Dist, b: Dist)
  {
    b.Inf? || (a.Fin? && a.n <= b.n)
  }

  /** a < b, with Inf above every finite distance and Inf < Inf false. */
  predicate Less(a: Dist, b: Dist)
  {
    a.Fin? && (b.Inf? || a.n < b.n)
  }

  function Last<N(!new)>(p: seq<N>): N
    requires |p| > 0
  {
    p[|p| - 1]
  }

  /** A non-empty sequence of nodes in which every consecutive pair is an edge.
      Every node but the last is a key of g; the last one need not be. */
  ghost predicate IsPath<N(!new)>(g: Graph<N>, p: seq<N>)
    decreases |p|
  {
    |p| == 1 ||
    (|p| > 1 && IsPath(g, p[..|p| - 1]) && p[|p| - 2] in g && p[|p| - 1] in g[p[|p| - 2]])
  }

  /** The sum of the weights of the edges along p. */
  ghost function Weight<N(!new)>(g: Graph<N>, p: seq<N>): nat
    requires IsPath(g, p)
    decreases |p|
  {
    if |p| == 1 then 0
    else Weight(g, p[..|p| - 1]) + g[p[|p| - 2]][p[|p| - 1]]
  }

  ghost predicate PathFromTo<N(!new)>(g: Graph<N>, s: N, v: N, p: seq<N>)
  {
    IsPath(g, p) && p[0] == s && Last(p) == v
  }

  /** Some path from s to v weighs exactly d. */
  ghost predicate HasPathOfWeight<N(!new)>(g: Graph<N>, s: N, v: N, d: nat)
  {
    exists p :: PathFromTo(g, s, v, p) && Weight(g, p) == d
  }

  ghost predicate Reachable<N(!new)>(g: Graph<N>, s: N, v: N)
  {
    exists p :: PathFromTo(g, s, v, p)
  }

  /** Every node reachable from s, s included, is a key of g. */
  ghost predicate ClosedFrom<N(!new)>(g: Graph<N>, s: N)
  {
    forall p :: IsPath(g, p) && p[0] == s ==> Last(p) in g
  }

  /** The reference meaning of a distance: a finite d is the weight of some
      path from s to v and no path from s to v weighs less; Inf means there is
      no path from s to v at all. */
  ghost predicate IsDistance<N(!new)>(g: Graph<N>, s: N, v: N, dv: Dist)
  {
    match dv
    case Fin(d) =>
      HasPathOfWeight(g, s, v, d) &&
      forall p :: PathFromTo(g, s, v, p) ==> d <= Weight(g, p)
    case Inf => !Reachable(g, s, v)
  }

  /** Every finite distance in D is the weight of a path from s. */
  ghost predicate Sound<N(!new)>(g: Graph<N>, s: N, D: map<N, Dist>)
  {
    forall v :: v in D && D[v].Fin? ==> HasPathOfWeight(g, s, v, D[v].n)
  }

  /** No edge out of a node with a finite distance can lower its target's distance. */
  ghost predicate Relaxed<N(!new)>(g: Graph<N>, D: map<N, Dist>)
  {
    forall u :: u in D && u in g && D[u].Fin? ==>
      forall v :: v in g[u] ==> v in D && Le(D[v], Fin(D[u].n + g[u][v]))
  }

  /** The local characterisation that Dijkstra's algorithm establishes. */
  ghost predicate ShortestDistances<N(!new)>(g: Graph<N>, s: N, D: map<N, Dist>)
  {
    D.Keys == g.Keys && s in D && D[s] == Fin(0) && Sound(g, s, D) && Relaxed(g, D)
  }

  /** Appending an edge to a path gives a path one edge heavier. */
  lemma ExtendPath<N(!new)>(g: Graph<N>, p: seq<N>, v: N)
    requires IsPath(g, p) && Last(p) in g && v in g[Last(p)]
    ensures IsPath(g, p + [v]) && Last(p + [v]) == v
    ensures Weight(g, p + [v]) == Weight(g, p) + g[Last(p)][v]
  {
    assert (p + [v])[..|p|] == p;
  }

  /** A table that gives the start 0 and is relaxed along every edge out of a
      finite node is a lower bound on the weight of every path from the start;
      in particular every node on such a path is a key with a finite distance. */
  lemma {:induction false} LowerBound<N(!new)>(g: Graph<N>, s: N, D: map<N, Dist>, p: seq<N>)
    requires s in D && D[s] == Fin(0) && Relaxed(g, D)
    requires IsPath(g, p) && p[0] == s
    ensures Last(p) in D && D[Last(p)].Fin? && D[Last(p)].n <= Weight(g, p)
    decreases |p|
  {
    if |p| > 1 {
      var q := p[..|p| - 1];
      LowerBound(g, s, D, q);
      assert Last(q) == p[|p| - 2];
    }
  }

  /** The local characterisation means what a shortest-distance table should:
      every entry is the reference distance, and nothing reachable lies outside g. */
  lemma ShortestDistancesAreDistances<N(!new)>(g: Graph<N>, s: N, D: map<N, Dist>)
    requires ShortestDistances(g, s, D)
    ensures ClosedFrom(g, s)
    ensures forall v :: v in D ==> IsDistance(g, s, v, D[v])
  {
    forall p | IsPath(g, p) && p[0] == s
      ensures Last(p) in g
    {
      LowerBound(g, s, D, p);
    }
    forall v | v in D
      ensures IsDistance(g, s, v, D[v])
    {
      if D[v].Fin? {
        forall p | PathFromTo(g, s, v, p)
          ensures D[v].n <= Weight(g, p)
        {
          LowerBound(g, s, D, p);
        }
      } else if Reachable(g, s, v) {
        var p :| PathFromTo(g, s, v, p);
        LowerBound(g, s, D, p);
        assert false;
      }
    }
  }

  /** Conversely, a table over the keys of g, closed under reachability, whose
      entries are the reference distances satisfies the local characterisation. */
  lemma DistancesAreShortestDistances<N(!new)>(g: Graph<N>, s: N, D: map<N, Dist>)
    requires D.Keys == g.Keys && ClosedFrom(g, s)
    requires forall v :: v in D ==> IsDistance(g, s, v, D[v])
    ensures ShortestDistances(g, s, D)
  {
    var start := [s];
    assert PathFromTo(g, s, s, start) && Weight(g, start) == 0;
    assert s in D;
    assert D[s] == Fin(0);
    forall u, v | u in D && u in g && D[u].Fin? && v in g[u]
      ensures v in D && Le(D[v], Fin(D[u].n + g[u][v]))
    {
      var p :| PathFromTo(g, s, u, p) && Weight(g, p) == D[u].n;
      ExtendPath(g, p, v);
      var q := p + [v];
      assert PathFromTo(g, s, v, q);
      assert v in g;
    }
  }

  /** Both directions together: the characterisation holds exactly when the
      table is the reference distance table of a graph closed under reachability. */
  lemma ShortestDistancesCharacterised<N(!new)>(g: Graph<N>, s: N, D: map<N, Dist>)
    ensures ShortestDistances(g, s, D) <==>
      (D.Keys == g.Keys && ClosedFrom(g, s) && forall v :: v in D ==> IsDistance(g, s, v, D[v]))
  {
    if ShortestDistances(g, s, D) {
      ShortestDistancesAreDistances(g, s, D);
    }
    if D.Keys == g.Keys && ClosedFrom(g, s) && forall v :: v in D ==> IsDistance(g, s, v, D[v]) {
      DistancesAreShortestDistances(g, s, D);
    }
  }

  /** The reference distance of a node is determined by g, s and the node. */
  lemma DistanceUnique<N(!new)>(g: Graph<N>, s: N, v: N, a: Dist, b: Dist)
    requires IsDistance(g, s, v, a) && IsDistance(g, s, v, b)
    ensures a == b
  {
    if a.Fin? {
      var p :| PathFromTo(g, s, v, p) && Weight(g, p) == a.n;
      if b.Fin? {
        var q :| PathFromTo(g, s, v, q) && Weight(g, q) == b.n;
        assert a.n <= Weight(g, q) && b.n <= Weight(g, p);
      }
    } else if b.Fin? {
      assert false;
    }
  }

  /** At most one table satisfies the characterisation, so the result of the
      computation depends only on the graph and the start node. */
  lemma ShortestDistancesUnique<N(!new)>(g: Graph<N>, s: N, D1: map<N, Dist>, D2: map<N, Dist>)
    requires ShortestDistances(g, s, D1) && ShortestDistances(g, s, D2)
    ensures D1 == D2
  {
    ShortestDistancesAreDistances(g, s, D1);
    ShortestDistancesAreDistances(g, s, D2);
    forall v | v in D1
      ensures D1[v] == D2[v]
    {
      DistanceUnique(g, s, v, D1[v], D2[v]);
    }
  }

  /** h has the same nodes and edges as g, each edge at least as heavy. */
  ghost predicate Heavier<N(!new)>(g: Graph<N>, h: Graph<N>)
  {
    g.Keys == h.Keys &&
    forall u :: u in g ==> g[u].Keys == h[u].Keys && forall v :: v in g[u] ==> g[u][v] <= h[u][v]
  }

  lemma {:induction false} WeightMonotone<N(!new)>(g: Graph<N>, h: Graph<N>, p: seq<N>)
    requires Heavier(g, h) && IsPath(h, p)
    ensures IsPath(g, p) && Weight(g, p) <= Weight(h, p)
    decreases |p|
  {
    if |p| > 1 {
      var q := p[..|p| - 1];
      WeightMonotone(g, h, q);
    }
  }

  /** Making edges heavier never makes a shortest distance smaller. */
  lemma ShortestMonotone<N(!new)>(g: Graph<N>, h: Graph<N>, s: N, Dg: map<N, Dist>, Dh: map<N, Dist>)
    requires Heavier(g, h)
    requires ShortestDistances(g, s, Dg) && ShortestDistances(h, s, Dh)
    ensures Dg.Keys == Dh.Keys
    ensures forall v :: v in Dg ==> Le(Dg[v], Dh[v])
  {
    forall v | v in Dg
      ensures Le(Dg[v], Dh[v])
    {
      if Dh[v].Fin? {
        var p :| PathFromTo(h, s, v, p) && Weight(h, p) == Dh[v].n;
        WeightMonotone(g, h, p);
        LowerBound(g, s, Dg, p);
      }
    }
  }

  /** Every neighbour of every node is a node. */
  ghost predicate Closed<N(!new)>(g: Graph<N>)
  {
    forall u :: u in g ==> g[u].Keys <= g.Keys
  }

  lemma ClosedIsClosedFrom<N(!new)>(g: Graph<N>, s: N)
    requires Closed(g) && s in g
    ensures ClosedFrom(g, s)
  {
    forall p | IsPath(g, p) && p[0] == s
      ensures Last(p) in g
    {
      if |p| > 1 {
        assert p[|p| - 2] in g;
      }
    }
  }
}
