// Bellman-Ford: |V| - 1 passes of relaxation over every edge, then one more
// scan that reports whether some edge can still be relaxed.

module ShortestPathCommon {
  import opened Graphs

  /** The vertex set, gathered key by key and successor by successor. */
  method CollectVertices(g: Graph) returns (vs: set<Vertex>)
    ensures vs == Vertices(g)
  {
    vs := g.Keys;
    var todo := g.Keys;
    while todo != {}
      invariant todo <= g.Keys
      invariant vs == g.Keys + set u, v | u in g.Keys - todo && v in g[u] :: v
      decreases todo
    {
      var u :| u in todo;
      var succ := g[u].Keys;
      while succ != {}
        invariant succ <= g[u].Keys
        invariant vs == g.Keys + (set x, v | x in g.Keys - todo && v in g[x] :: v) + (g[u].Keys - succ)
        decreases succ
      {
        var v :| v in succ;
        vs := vs + {v};
        succ := succ - {v};
      }
      todo := todo - {u};
    }
  }

  /** Every vertex at distance "unreached", except the source at 0, which is added when it is not a vertex. */
  function InitialDistances(vs: set<Vertex>, s: Vertex): (dist: map<Vertex, Distance>)
    ensures dist.Keys == vs + {s} && dist[s] == Finite(0)
    ensures forall v :: v in dist && v != s ==> dist[v] == Unreached
  {
    (map v | v in vs :: Unreached)[s := Finite(0)]
  }

  /** No vertex has a predecessor yet; a source that is not a vertex gets no entry. */
  function InitialPredecessors(vs: set<Vertex>): (pred: map<Vertex, Option<Vertex>>)
    ensures pred.Keys == vs
    ensures forall v :: v in pred ==> pred[v] == None
  {
    map v | v in vs :: None
  }

  /** Relaxing the edge (u, v) of weight w would lower the distance of v. */
  predicate Relaxable(dist: map<Vertex, Distance>, u: Vertex, v: Vertex, w: int)
    requires u in dist && v in dist
  {
    dist[u].Finite? && Less(Finite(dist[u].value + w), dist[v])
  }

  /** Every finite distance is the weight of a recorded path from the source. */
  ghost predicate Witnessed(g: Graph, s: Vertex, dist: map<Vertex, Distance>, paths: map<Vertex, seq<Vertex>>)
  {
    forall v :: v in dist && dist[v].Finite? ==>
      v in paths && PathFromTo(g, paths[v], s, v) && Weight(g, paths[v]) == dist[v].value
  }

  /** Every recorded predecessor is joined to its vertex by an edge that the distances respect. */
  ghost predicate PredecessorsSound(g: Graph, dist: map<Vertex, Distance>, pred: map<Vertex, Option<Vertex>>)
  {
    forall v :: v in pred && pred[v].Some? ==>
      var u := pred[v].value;
      IsEdge(g, u, v) && u in dist && v in dist && dist[u].Finite? && dist[v].Finite? &&
      dist[u].value + g[u][v] <= dist[v].value
  }

  /** No edge leaving a reached vertex can be relaxed. */
  ghost predicate NoRelaxableEdge(g: Graph, dist: map<Vertex, Distance>)
  {
    forall u, v :: IsEdge(g, u, v) && u in dist && v in dist ==> !Relaxable(dist, u, v, g[u][v])
  }

  /** No distance of dist is above the one in start. */
  ghost predicate NoHigher(start: map<Vertex, Distance>, dist: map<Vertex, Distance>)
  {
    start.Keys == dist.Keys &&
    forall v :: v in dist ==> LessEq(dist[v], start[v])
  }

  lemma NoHigherTrans(a: map<Vertex, Distance>, b: map<Vertex, Distance>, c: map<Vertex, Distance>)
    requires a.Keys == b.Keys == c.Keys && NoHigher(a, b) && NoHigher(b, c)
    ensures NoHigher(a, c)
  {
  }

  /** The invariants that every relaxation keeps. */
  ghost predicate Tables(g: Graph, s: Vertex, dist: map<Vertex, Distance>,
                         pred: map<Vertex, Option<Vertex>>, paths: map<Vertex, seq<Vertex>>)
  {
    dist.Keys == Vertices(g) + {s} && pred.Keys == Vertices(g) &&
    Witnessed(g, s, dist, paths) && PredecessorsSound(g, dist, pred)
  }

  /**
   * Relaxing one edge (u, v): when it lowers the distance of v, v gets the
   * distance of u plus the weight, its predecessor becomes u, and its witness
   * path is that of u followed by v.
   */
  lemma RelaxKeepsTables(g: Graph, s: Vertex, dist: map<Vertex, Distance>,
                         pred: map<Vertex, Option<Vertex>>, paths: map<Vertex, seq<Vertex>>, u: Vertex, v: Vertex,
                         dist': map<Vertex, Distance>, pred': map<Vertex, Option<Vertex>>, paths': map<Vertex, seq<Vertex>>)
    requires Tables(g, s, dist, pred, paths) && IsEdge(g, u, v)
    requires Relaxable(dist, u, v, g[u][v])
    requires dist' == dist[v := Finite(dist[u].value + g[u][v])]
    requires pred' == pred[v := Some(u)] && paths' == paths[v := paths[u] + [v]]
    ensures Tables(g, s, dist', pred', paths') && NoHigher(dist, dist')
  {
    RelaxKeepsWitnessed(g, s, dist, paths, u, v, dist', paths');
    RelaxKeepsPredecessors(g, dist, pred, u, v, dist', pred');
  }

  lemma RelaxKeepsWitnessed(g: Graph, s: Vertex, dist: map<Vertex, Distance>, paths: map<Vertex, seq<Vertex>>,
                            u: Vertex, v: Vertex, dist': map<Vertex, Distance>, paths': map<Vertex, seq<Vertex>>)
    requires Witnessed(g, s, dist, paths) && IsEdge(g, u, v) && u in dist && v in dist
    requires Relaxable(dist, u, v, g[u][v])
    requires dist' == dist[v := Finite(dist[u].value + g[u][v])] && paths' == paths[v := paths[u] + [v]]
    ensures Witnessed(g, s, dist', paths')
  {
    PathExtend(g, paths[u], v);
  }

  lemma RelaxKeepsPredecessors(g: Graph, dist: map<Vertex, Distance>, pred: map<Vertex, Option<Vertex>>,
                               u: Vertex, v: Vertex, dist': map<Vertex, Distance>, pred': map<Vertex, Option<Vertex>>)
    requires PredecessorsSound(g, dist, pred) && IsEdge(g, u, v) && u in dist && v in dist
    requires Relaxable(dist, u, v, g[u][v])
    requires dist' == dist[v := Finite(dist[u].value + g[u][v])] && pred' == pred[v := Some(u)]
    ensures PredecessorsSound(g, dist', pred')
  {
    forall x | x in pred' && pred'[x].Some?
      ensures var y := pred'[x].value;
        IsEdge(g, y, x) && y in dist' && x in dist' && dist'[y].Finite? && dist'[x].Finite? &&
        dist'[y].value + g[y][x] <= dist'[x].value
    {
      if x != v {
        var y := pred[x].value;
        assert dist[y].Finite? && dist[y].value + g[y][x] <= dist[x].value;
      }
    }
  }

  /** Shortest-path distances leave no edge relaxable. */
  lemma ShortestNotRelaxable(g: Graph, s: Vertex, dist: map<Vertex, Distance>, paths: map<Vertex, seq<Vertex>>)
    requires dist.Keys == Vertices(g) + {s} && Witnessed(g, s, dist, paths)
    requires forall v :: v in dist ==> IsShortest(g, s, v, dist[v])
    ensures NoRelaxableEdge(g, dist)
  {
    forall u, v | IsEdge(g, u, v) && u in dist && v in dist ensures !Relaxable(dist, u, v, g[u][v]) {
      if dist[u].Finite? {
        var pu := paths[u];
        PathExtend(g, pu, v);
        assert PathFromTo(g, pu + [v], s, v);
        assert IsShortest(g, s, v, dist[v]);
      }
    }
  }

  /** Without relaxable edge each predecessor edge is tight. */
  lemma PredecessorsTight(g: Graph, dist: map<Vertex, Distance>, pred: map<Vertex, Option<Vertex>>)
    requires PredecessorsSound(g, dist, pred) && NoRelaxableEdge(g, dist)
    ensures forall v :: v in pred && pred[v].Some? ==>
      dist[v].value == dist[pred[v].value].value + g[pred[v].value][v]
  {
    forall v | v in pred && pred[v].Some?
      ensures dist[v].value == dist[pred[v].value].value + g[pred[v].value][v]
    {
      var u := pred[v].value;
      assert !Relaxable(dist, u, v, g[u][v]);
    }
  }

  /** Every recorded path witnesses an existing path of that weight. */
  lemma WitnessedExists(g: Graph, s: Vertex, dist: map<Vertex, Distance>, paths: map<Vertex, seq<Vertex>>)
    requires Witnessed(g, s, dist, paths)
    ensures forall v :: v in dist && dist[v].Finite? ==>
      exists p :: PathFromTo(g, p, s, v) && Weight(g, p) == dist[v].value
  {
    forall v | v in dist && dist[v].Finite?
      ensures exists p :: PathFromTo(g, p, s, v) && Weight(g, p) == dist[v].value
    {
      assert PathFromTo(g, paths[v], s, v);
    }
  }

  /**
   * When no edge can be relaxed, distances along any path from a reached
   * vertex grow at most by the path's weight.
   */
  lemma {:induction false} Telescope(g: Graph, dist: map<Vertex, Distance>, c: seq<Vertex>)
    requires IsPath(g, c) && NoRelaxableEdge(g, dist)
    requires Vertices(g) <= dist.Keys && c[0] in dist && dist[c[0]].Finite?
    ensures c[|c| - 1] in dist && dist[c[|c| - 1]].Finite?
    ensures dist[c[|c| - 1]].value <= dist[c[0]].value + Weight(g, c)
    decreases |c|
  {
    if |c| > 1 {
      assert IsEdge(g, c[0], c[1]);
      assert !Relaxable(dist, c[0], c[1], g[c[0]][c[1]]);
      assert IsPath(g, c[1..]) by {
        forall i | 0 <= i < |c| - 2 ensures IsEdge(g, c[1..][i], c[1..][i + 1]) {
          assert IsEdge(g, c[i + 1], c[i + 2]);
        }
      }
      Telescope(g, dist, c[1..]);
    }
  }
}

module BellmanFord {
  import opened Graphs
  import opened ShortestPathCommon

  /** After k passes, no path from s with at most k edges is lighter than the recorded distance. */
  ghost predicate Bounded(g: Graph, s: Vertex, dist: map<Vertex, Distance>, k: nat)
  {
    forall v, p :: PathFromTo(g, p, s, v) && |p| <= k + 1 ==>
      v in dist && LessEq(dist[v], Finite(Weight(g, p)))
  }

  ghost predicate AllEdgesRelaxedFrom(g: Graph, start: map<Vertex, Distance>, dist: map<Vertex, Distance>)
  {
    start.Keys == dist.Keys &&
    forall u, v :: IsEdge(g, u, v) && u in dist && v in dist ==>
      LessEq(dist[v], Add(start[u], g[u][v]))
  }

  /** Relaxes the edge (u, v): lowers the distance of v through u when that is shorter. */
  method RelaxEdge(g: Graph, s: Vertex, u: Vertex, v: Vertex, dist: map<Vertex, Distance>,
                   pred: map<Vertex, Option<Vertex>>, ghost paths: map<Vertex, seq<Vertex>>)
    returns (dist': map<Vertex, Distance>, pred': map<Vertex, Option<Vertex>>, ghost paths': map<Vertex, seq<Vertex>>)
    requires IsEdge(g, u, v) && Tables(g, s, dist, pred, paths)
    ensures Tables(g, s, dist', pred', paths') && NoHigher(dist, dist')
    ensures dist'[v] == if Relaxable(dist, u, v, g[u][v]) then Finite(dist[u].value + g[u][v]) else dist[v]
    ensures forall x :: x in dist && x != v ==> dist'[x] == dist[x]
    ensures pred' == if Relaxable(dist, u, v, g[u][v]) then pred[v := Some(u)] else pred
  {
    var w := g[u][v];
    if dist[u].Finite? && Less(Finite(dist[u].value + w), dist[v]) {
      dist' := dist[v := Finite(dist[u].value + w)];
      pred' := pred[v := Some(u)];
      paths' := paths[v := paths[u] + [v]];
      RelaxKeepsTables(g, s, dist, pred, paths, u, v, dist', pred', paths');
    } else {
      dist', pred', paths' := dist, pred, paths;
    }
  }

  /** The state of the pass over the edges leaving u once the successors outside succ are done. */
  ghost predicate OutgoingDone(g: Graph, s: Vertex, u: Vertex, start: map<Vertex, Distance>, dist0: map<Vertex, Distance>,
                               succ: set<Vertex>, dist: map<Vertex, Distance>, pred: map<Vertex, Option<Vertex>>,
                               paths: map<Vertex, seq<Vertex>>)
  {
    u in g && succ <= g[u].Keys && start.Keys == dist0.Keys && NoHigher(start, dist0) &&
    Tables(g, s, dist, pred, paths) && NoHigher(dist0, dist) &&
    forall v :: v in g[u].Keys - succ ==> LessEq(dist[v], Add(start[u], g[u][v]))
  }

  lemma OutgoingStep(g: Graph, s: Vertex, u: Vertex, v: Vertex, start: map<Vertex, Distance>, dist0: map<Vertex, Distance>,
                     succ: set<Vertex>, dist: map<Vertex, Distance>, pred: map<Vertex, Option<Vertex>>,
                     paths: map<Vertex, seq<Vertex>>, dist': map<Vertex, Distance>, pred': map<Vertex, Option<Vertex>>,
                     paths': map<Vertex, seq<Vertex>>)
    requires OutgoingDone(g, s, u, start, dist0, succ, dist, pred, paths) && v in succ
    requires Tables(g, s, dist', pred', paths') && NoHigher(dist, dist')
    requires dist'[v] == if Relaxable(dist, u, v, g[u][v]) then Finite(dist[u].value + g[u][v]) else dist[v]
    requires forall x :: x in dist && x != v ==> dist'[x] == dist[x]
    ensures OutgoingDone(g, s, u, start, dist0, succ - {v}, dist', pred', paths')
  {
    NoHigherTrans(dist0, dist, dist');
    NoHigherTrans(start, dist0, dist);
    assert LessEq(dist[u], start[u]);
  }

  /** Relaxes every edge leaving u, in an arbitrary order. */
  method RelaxOutgoing(g: Graph, s: Vertex, u: Vertex, start: map<Vertex, Distance>, dist0: map<Vertex, Distance>,
                       pred0: map<Vertex, Option<Vertex>>, ghost paths0: map<Vertex, seq<Vertex>>)
    returns (dist: map<Vertex, Distance>, pred: map<Vertex, Option<Vertex>>, ghost paths: map<Vertex, seq<Vertex>>)
    requires u in g && Tables(g, s, dist0, pred0, paths0)
    requires start.Keys == dist0.Keys && NoHigher(start, dist0)
    ensures Tables(g, s, dist, pred, paths) && NoHigher(dist0, dist)
    ensures forall v :: v in g[u] ==> LessEq(dist[v], Add(start[u], g[u][v]))
  {
    dist, pred, paths := dist0, pred0, paths0;
    var succ := g[u].Keys;
    while succ != {}
      invariant OutgoingDone(g, s, u, start, dist0, succ, dist, pred, paths)
      decreases succ
    {
      var v :| v in succ;
      var dist', pred', paths' := RelaxEdge(g, s, u, v, dist, pred, paths);
      OutgoingStep(g, s, u, v, start, dist0, succ, dist, pred, paths, dist', pred', paths');
      dist, pred, paths := dist', pred', paths';
      succ := succ - {v};
    }
  }

  /** The state of a pass once the keys outside todo are done. */
  ghost predicate PassDone(g: Graph, s: Vertex, dist0: map<Vertex, Distance>, todo: set<Vertex>,
                           dist: map<Vertex, Distance>, pred: map<Vertex, Option<Vertex>>, paths: map<Vertex, seq<Vertex>>)
  {
    todo <= g.Keys && Tables(g, s, dist, pred, paths) && NoHigher(dist0, dist) &&
    forall u, v :: u in g.Keys - todo && v in g[u] ==> LessEq(dist[v], Add(dist0[u], g[u][v]))
  }

  lemma PassStep(g: Graph, s: Vertex, u: Vertex, dist0: map<Vertex, Distance>, todo: set<Vertex>,
                 dist: map<Vertex, Distance>, pred: map<Vertex, Option<Vertex>>, paths: map<Vertex, seq<Vertex>>,
                 dist': map<Vertex, Distance>, pred': map<Vertex, Option<Vertex>>, paths': map<Vertex, seq<Vertex>>)
    requires PassDone(g, s, dist0, todo, dist, pred, paths) && u in todo
    requires Tables(g, s, dist', pred', paths') && NoHigher(dist, dist')
    requires forall v :: v in g[u] ==> LessEq(dist'[v], Add(dist0[u], g[u][v]))
    ensures PassDone(g, s, dist0, todo - {u}, dist', pred', paths')
  {
    NoHigherTrans(dist0, dist, dist');
    PassBounds(g, u, dist0, todo, dist, dist');
  }

  lemma PassBounds(g: Graph, u: Vertex, dist0: map<Vertex, Distance>, todo: set<Vertex>,
                   dist: map<Vertex, Distance>, dist': map<Vertex, Distance>)
    requires u in todo && todo <= g.Keys && Vertices(g) <= dist.Keys
    requires NoHigher(dist0, dist) && NoHigher(dist, dist')
    requires forall x, v :: x in g.Keys - todo && v in g[x] ==> LessEq(dist[v], Add(dist0[x], g[x][v]))
    requires forall v :: v in g[u] ==> LessEq(dist'[v], Add(dist0[u], g[u][v]))
    ensures forall x, v :: x in g.Keys - (todo - {u}) && v in g[x] ==> LessEq(dist'[v], Add(dist0[x], g[x][v]))
  {
    forall x, v | x in g.Keys - (todo - {u}) && v in g[x] ensures LessEq(dist'[v], Add(dist0[x], g[x][v])) {
      if x != u {
        assert LessEq(dist'[v], dist[v]) && LessEq(dist[v], Add(dist0[x], g[x][v]));
      }
    }
  }

  /** One pass: every edge (u, v) is relaxed once, key by key, in an arbitrary order. */
  method RelaxAllEdges(g: Graph, s: Vertex, dist0: map<Vertex, Distance>,
                       pred0: map<Vertex, Option<Vertex>>, ghost paths0: map<Vertex, seq<Vertex>>)
    returns (dist: map<Vertex, Distance>, pred: map<Vertex, Option<Vertex>>, ghost paths: map<Vertex, seq<Vertex>>)
    requires Tables(g, s, dist0, pred0, paths0)
    ensures Tables(g, s, dist, pred, paths)
    ensures NoHigher(dist0, dist) && AllEdgesRelaxedFrom(g, dist0, dist)
  {
    dist, pred, paths := dist0, pred0, paths0;
    var todo := g.Keys;
    while todo != {}
      invariant PassDone(g, s, dist0, todo, dist, pred, paths)
      decreases todo
    {
      var u :| u in todo;
      var dist', pred', paths' := RelaxOutgoing(g, s, u, dist0, dist, pred, paths);
      PassStep(g, s, u, dist0, todo, dist, pred, paths, dist', pred', paths');
      dist, pred, paths := dist', pred', paths';
      todo := todo - {u};
    }
  }

  /** A pass after which every edge is relaxed extends the bound by one edge. */
  lemma BoundedStep(g: Graph, s: Vertex, start: map<Vertex, Distance>, dist: map<Vertex, Distance>, k: nat)
    requires start.Keys == dist.Keys && Vertices(g) + {s} <= dist.Keys
    requires Bounded(g, s, start, k) && NoHigher(start, dist) && AllEdgesRelaxedFrom(g, start, dist)
    ensures Bounded(g, s, dist, k + 1)
  {
    forall v, p | PathFromTo(g, p, s, v) && |p| <= k + 2
      ensures v in dist && LessEq(dist[v], Finite(Weight(g, p)))
    {
      if |p| == 1 {
        assert PathFromTo(g, p, s, s);
      } else {
        var n := |p| - 1;
        var q := p[..n];
        WeightSplit(g, p, n - 1);
        assert p[n - 1..] == [p[n - 1], v];
        assert [p[n - 1], v][1..] == [v];
        assert PathFromTo(g, q, s, p[n - 1]);
        assert IsEdge(g, p[n - 1], v);
      }
    }
  }

  /** The number of passes: one less than the number of vertices, none for an empty graph. */
  function PassCount(g: Graph): nat
  {
    if |Vertices(g)| > 0 then |Vertices(g)| - 1 else 0
  }

  /** After the passes, a path without repeated vertex is never lighter than the recorded distance. */
  lemma SimplePathsBounded(g: Graph, s: Vertex, dist: map<Vertex, Distance>, p: seq<Vertex>, v: Vertex)
    requires Bounded(g, s, dist, PassCount(g)) && PathFromTo(g, p, s, v)
    ensures !NegativeCycleReachable(g, s) ==> v in dist && LessEq(dist[v], Finite(Weight(g, p)))
    ensures |p| <= |Vertices(g)| ==> v in dist && LessEq(dist[v], Finite(Weight(g, p)))
  {
    var q := Shorten(g, p);
    SimplePathLength(g, q);
  }

  /** Without a negative cycle reachable from s the bounded distances are the shortest-path distances. */
  lemma ShortestWithoutNegativeCycle(g: Graph, s: Vertex, dist: map<Vertex, Distance>, paths: map<Vertex, seq<Vertex>>)
    requires !NegativeCycleReachable(g, s) && dist.Keys == Vertices(g) + {s}
    requires Witnessed(g, s, dist, paths) && Bounded(g, s, dist, PassCount(g))
    ensures forall v :: v in dist ==> IsShortest(g, s, v, dist[v])
  {
    forall v | v in dist ensures IsShortest(g, s, v, dist[v]) {
      forall p | PathFromTo(g, p, s, v) ensures LessEq(dist[v], Finite(Weight(g, p))) {
        SimplePathsBounded(g, s, dist, p, v);
      }
      if dist[v].Finite? {
        assert PathFromTo(g, paths[v], s, v);
      }
    }
  }

  /** A negative cycle that the source reaches leaves some edge relaxable. */
  lemma NegativeCycleRelaxable(g: Graph, s: Vertex, dist: map<Vertex, Distance>)
    requires dist.Keys == Vertices(g) + {s}
    requires Bounded(g, s, dist, PassCount(g))
    requires NegativeCycleReachable(g, s)
    ensures !NoRelaxableEdge(g, dist)
  {
    var p, c :| IsPath(g, c) && c[|c| - 1] == c[0] && PathFromTo(g, p, s, c[0]) && Weight(g, c) < 0;
    var q := Shorten(g, p);
    SimplePathLength(g, q);
    assert PathFromTo(g, q, s, c[0]);
    if NoRelaxableEdge(g, dist) {
      Telescope(g, dist, c);
    }
  }

  /** The initial tables: the source at distance 0 along the one-vertex path. */
  lemma InitialTables(g: Graph, s: Vertex, vs: set<Vertex>)
    requires vs == Vertices(g)
    ensures Tables(g, s, InitialDistances(vs, s), InitialPredecessors(vs), map[s := [s]])
    ensures Bounded(g, s, InitialDistances(vs, s), 0)
  {
    var dist := InitialDistances(vs, s);
    assert PathFromTo(g, [s], s, s);
    forall v, p | PathFromTo(g, p, s, v) && |p| <= 1 ensures v in dist && LessEq(dist[v], Finite(Weight(g, p))) {
      assert p == [s];
    }
  }

  /**
   * Distances and predecessors from s, and whether an edge can still be
   * relaxed after |V| - 1 passes (V: the keys and successors of g).
   */
  method BellmanFord(g: Graph, s: Vertex)
    returns (dist: map<Vertex, Distance>, pred: map<Vertex, Option<Vertex>>, negativeCycle: bool)
    ensures dist.Keys == Vertices(g) + {s} && pred.Keys == Vertices(g)
    ensures forall v :: v in dist && dist[v].Finite? ==>
      exists p :: PathFromTo(g, p, s, v) && Weight(g, p) == dist[v].value
    ensures forall v, p :: PathFromTo(g, p, s, v) && |p| <= |Vertices(g)| ==>
      v in dist && LessEq(dist[v], Finite(Weight(g, p)))
    ensures negativeCycle <==> exists u, v :: IsEdge(g, u, v) && Relaxable(dist, u, v, g[u][v])
    ensures PredecessorsSound(g, dist, pred)
    ensures !negativeCycle ==> forall v :: v in pred && pred[v].Some? ==>
      dist[v].value == dist[pred[v].value].value + g[pred[v].value][v]
    ensures negativeCycle <==> NegativeCycleReachable(g, s)
    ensures !negativeCycle ==> forall v :: v in dist ==> IsShortest(g, s, v, dist[v])
    ensures NonNegative(g) ==> !negativeCycle
  {
    var vertices := CollectVertices(g);
    dist := InitialDistances(vertices, s);
    pred := InitialPredecessors(vertices);
    ghost var paths: map<Vertex, seq<Vertex>> := map[s := [s]];
    InitialTables(g, s, vertices);
    var passes := |vertices| - 1;
    var k := 0;
    while k < passes
      invariant 0 <= k && (passes >= 0 ==> k <= passes)
      invariant Tables(g, s, dist, pred, paths) && Bounded(g, s, dist, k)
    {
      ghost var start := dist;
      dist, pred, paths := RelaxAllEdges(g, s, dist, pred, paths);
      BoundedStep(g, s, start, dist, k);
      k := k + 1;
    }
    assert k == PassCount(g);
    negativeCycle := ScanForRelaxableEdge(g, dist);
    forall v, p | PathFromTo(g, p, s, v) && |p| <= |Vertices(g)|
      ensures v in dist && LessEq(dist[v], Finite(Weight(g, p)))
    {
      SimplePathsBounded(g, s, dist, p, v);
    }
    if NonNegative(g) {
      NonNegativeNoNegativeCycle(g, s);
    }
    if NegativeCycleReachable(g, s) {
      NegativeCycleRelaxable(g, s, dist);
    } else {
      ShortestWithoutNegativeCycle(g, s, dist, paths);
      ShortestNotRelaxable(g, s, dist, paths);
    }
    WitnessedExists(g, s, dist, paths);
    if !negativeCycle {
      PredecessorsTight(g, dist, pred);
    }
  }

  /** The final scan: whether some edge leaving a reached vertex can still be relaxed. */
  method ScanForRelaxableEdge(g: Graph, dist: map<Vertex, Distance>) returns (found: bool)
    requires Vertices(g) <= dist.Keys
    ensures found <==> exists u, v :: IsEdge(g, u, v) && Relaxable(dist, u, v, g[u][v])
    ensures !found ==> NoRelaxableEdge(g, dist)
  {
    found := false;
    var todo := g.Keys;
    while todo != {}
      invariant todo <= g.Keys
      invariant found ==> exists u, v :: IsEdge(g, u, v) && Relaxable(dist, u, v, g[u][v])
      invariant !found ==> forall u, v :: u in g.Keys - todo && v in g[u] ==> !Relaxable(dist, u, v, g[u][v])
      decreases todo
    {
      var u :| u in todo;
      var succ := g[u].Keys;
      while succ != {}
        invariant succ <= g[u].Keys
        invariant found ==> exists u, v :: IsEdge(g, u, v) && Relaxable(dist, u, v, g[u][v])
        invariant !found ==> forall x, v :: x in g.Keys - todo && v in g[x] ==> !Relaxable(dist, x, v, g[x][v])
        invariant !found ==> forall v :: v in g[u].Keys - succ ==> !Relaxable(dist, u, v, g[u][v])
        decreases succ
      {
        var v :| v in succ;
        if dist[u].Finite? && Less(Finite(dist[u].value + g[u][v]), dist[v]) {
          found := true;
          break;
        }
        succ := succ - {v};
      }
      todo := todo - {u};
    }
  }
}
