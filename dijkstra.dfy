// Dijkstra's algorithm, as run by both priority-queue variants.
//
// The proof follows the usual argument. The vertices taken out of the queue
// ("done") carry their shortest-path distance; every other reached vertex is
// in the queue under its current distance; no queued distance is below the
// distances of the done vertices; and every edge leaving a done vertex has been
// relaxed, except those of the vertex being scanned that are still pending.
// Weights are non-negative throughout.

module DijkstraCommon {
  import opened Graphs
  import opened ShortestPathCommon

  /** The done vertices hold exact shortest-path distances. */
  ghost predicate Settled(g: Graph, s: Vertex, dist: map<Vertex, Distance>, done: set<Vertex>)
  {
    done <= dist.Keys &&
    forall v :: v in done ==> dist[v].Finite? && IsShortest(g, s, v, dist[v])
  }

  /**
   * The queue holds every reached vertex that is not done, under its current
   * distance; floor separates the done distances from the queued ones.
   */
  ghost predicate Frontier(dist: map<Vertex, Distance>, done: set<Vertex>, queue: map<Vertex, int>, floor: int)
  {
    (forall v :: v in queue ==> v in dist && v !in done && dist[v] == Finite(queue[v]) && floor <= queue[v]) &&
    (forall v :: v in dist && dist[v].Finite? ==> v in done || v in queue) &&
    (forall v :: v in done ==> v in dist && dist[v].Finite? && dist[v].value <= floor)
  }

  /** Every edge leaving a done vertex is relaxed, except the pending edges of cur. */
  ghost predicate RelaxedFrom(g: Graph, dist: map<Vertex, Distance>, done: set<Vertex>, cur: Vertex, pending: set<Vertex>)
  {
    forall u, v :: u in done && IsEdge(g, u, v) && !(u == cur && v in pending) ==>
      u in dist && v in dist && LessEq(dist[v], Add(dist[u], g[u][v]))
  }

  /**
   * The source keeps distance 0 and, when it is a vertex, no predecessor;
   * every other vertex has one exactly when reached.
   */
  ghost predicate SourceFixed(s: Vertex, dist: map<Vertex, Distance>, pred: map<Vertex, Option<Vertex>>)
  {
    s in dist && dist[s] == Finite(0) && (s in pred ==> pred[s] == None) &&
    forall v :: v in pred && v != s ==> v in dist && (pred[v].Some? <==> dist[v].Finite?)
  }

  /** The loop invariant of Dijkstra's algorithm, while the edges of cur in pending are still to be relaxed. */
  ghost predicate Progress(g: Graph, s: Vertex, dist: map<Vertex, Distance>, pred: map<Vertex, Option<Vertex>>,
                           paths: map<Vertex, seq<Vertex>>, done: set<Vertex>, queue: map<Vertex, int>,
                           floor: int, cur: Vertex, pending: set<Vertex>)
  {
    NonNegative(g) && Tables(g, s, dist, pred, paths) && SourceFixed(s, dist, pred) &&
    Settled(g, s, dist, done) && Frontier(dist, done, queue, floor) &&
    RelaxedFrom(g, dist, done, cur, pending) &&
    (pending != {} ==> cur in done && cur in g && pending <= g[cur].Keys && dist[cur] == Finite(floor))
  }

  /** Before the first iteration: only the source is reached, and it is queued at 0. */
  lemma InitialProgress(g: Graph, s: Vertex, vs: set<Vertex>)
    requires NonNegative(g) && vs == Vertices(g)
    ensures Progress(g, s, InitialDistances(vs, s), InitialPredecessors(vs), map[s := [s]], {}, map[s := 0], 0, s, {})
  {
    assert PathFromTo(g, [s], s, s);
  }

  /** The first vertex of a path that is not done. */
  lemma {:induction false} FirstOutside(done: set<Vertex>, p: seq<Vertex>) returns (k: nat)
    requires |p| > 0 && p[|p| - 1] !in done
    ensures k < |p| && p[k] !in done
    ensures forall i :: 0 <= i < k ==> p[i] in done
    decreases |p|
  {
    if p[0] !in done {
      k := 0;
    } else {
      var k' := FirstOutside(done, p[1..]);
      k := k' + 1;
      forall i | 0 <= i < k ensures p[i] in done {
        if i > 0 { assert p[i] == p[1..][i - 1]; }
      }
    }
  }

  /** No path to a queued vertex of minimum priority is lighter than that priority. */
  lemma MinimumLowerBound(g: Graph, s: Vertex, dist: map<Vertex, Distance>, done: set<Vertex>,
                          queue: map<Vertex, int>, floor: int, cur: Vertex, u: Vertex, p: seq<Vertex>)
    requires NonNegative(g) && s in dist && dist[s] == Finite(0)
    requires Settled(g, s, dist, done) && Frontier(dist, done, queue, floor) && RelaxedFrom(g, dist, done, cur, {})
    requires u in queue && (forall w :: w in queue ==> queue[u] <= queue[w])
    requires PathFromTo(g, p, s, u)
    ensures queue[u] <= Weight(g, p)
  {
    var k := FirstOutside(done, p);
    if k == 0 {
      assert s in queue;
      WeightNonNegative(g, p);
    } else {
      var a, b := p[k - 1], p[k];
      assert IsEdge(g, a, b);
      var front := p[..k];
      WeightSplit(g, p, k - 1);
      assert PathFromTo(g, front, s, a);
      assert IsShortest(g, s, a, dist[a]);
      PathExtend(g, front, b);
      assert front + [b] == p[..k + 1];
      PrefixLighter(g, p, k);
      assert LessEq(dist[b], Add(dist[a], g[a][b]));
      assert b in queue;
    }
  }

  /** A queued vertex of minimum priority has its shortest-path distance. */
  lemma MinimumIsShortest(g: Graph, s: Vertex, dist: map<Vertex, Distance>, paths: map<Vertex, seq<Vertex>>,
                          done: set<Vertex>, queue: map<Vertex, int>, floor: int, cur: Vertex, u: Vertex)
    requires NonNegative(g) && s in dist && dist[s] == Finite(0) && Witnessed(g, s, dist, paths)
    requires Settled(g, s, dist, done) && Frontier(dist, done, queue, floor) && RelaxedFrom(g, dist, done, cur, {})
    requires u in queue && (forall w :: w in queue ==> queue[u] <= queue[w])
    ensures IsShortest(g, s, u, dist[u])
  {
    assert PathFromTo(g, paths[u], s, u);
    forall p | PathFromTo(g, p, s, u) ensures dist[u].value <= Weight(g, p) {
      MinimumLowerBound(g, s, dist, done, queue, floor, cur, u, p);
    }
  }

  /** The edges of u that the scan relaxes: none when u has no entry in the graph. */
  function Successors(g: Graph, u: Vertex): (succ: set<Vertex>)
    ensures forall v :: v in succ <==> IsEdge(g, u, v)
  {
    if u in g then g[u].Keys else {}
  }

  lemma SuccessorKeys(g: Graph, u: Vertex)
    requires u in g
    ensures Successors(g, u) == g[u].Keys
  {
  }

  lemma SinkSuccessors(g: Graph, u: Vertex)
    requires u !in g
    ensures Successors(g, u) == {}
  {
  }

  lemma SettleFrontier(dist: map<Vertex, Distance>, done: set<Vertex>, queue: map<Vertex, int>, floor: int, u: Vertex)
    requires Frontier(dist, done, queue, floor)
    requires u in queue && (forall w :: w in queue ==> queue[u] <= queue[w])
    ensures Frontier(dist, done + {u}, queue - {u}, queue[u])
  {
  }

  lemma SettleRelaxed(g: Graph, dist: map<Vertex, Distance>, done: set<Vertex>, cur: Vertex, u: Vertex)
    requires RelaxedFrom(g, dist, done, cur, {})
    ensures RelaxedFrom(g, dist, done + {u}, u, Successors(g, u))
  {
  }

  /** Taking a vertex of minimum priority out of the queue makes it done, with its edges pending. */
  lemma Settle(g: Graph, s: Vertex, dist: map<Vertex, Distance>, pred: map<Vertex, Option<Vertex>>,
               paths: map<Vertex, seq<Vertex>>, done: set<Vertex>, queue: map<Vertex, int>,
               floor: int, cur: Vertex, u: Vertex)
    requires Progress(g, s, dist, pred, paths, done, queue, floor, cur, {})
    requires u in queue && (forall w :: w in queue ==> queue[u] <= queue[w])
    ensures u !in done && u in dist
    ensures Progress(g, s, dist, pred, paths, done + {u}, queue - {u}, queue[u], u, Successors(g, u))
  {
    MinimumIsShortest(g, s, dist, paths, done, queue, floor, cur, u);
    SettleFrontier(dist, done, queue, floor, u);
    SettleRelaxed(g, dist, done, cur, u);
  }

  /** An edge (u, v) of the scanned vertex that is not relaxable: only the pending set shrinks. */
  lemma SkipEdge(g: Graph, s: Vertex, dist: map<Vertex, Distance>, pred: map<Vertex, Option<Vertex>>,
                 paths: map<Vertex, seq<Vertex>>, done: set<Vertex>, queue: map<Vertex, int>,
                 floor: int, u: Vertex, pending: set<Vertex>, v: Vertex)
    requires Progress(g, s, dist, pred, paths, done, queue, floor, u, pending) && v in pending
    requires !Relaxable(dist, u, v, g[u][v])
    ensures Progress(g, s, dist, pred, paths, done, queue, floor, u, pending - {v})
  {
    assert RelaxedFrom(g, dist, done, u, pending - {v});
  }

  /** A done vertex cannot be improved through an edge from a reached vertex. */
  lemma DoneNotRelaxable(g: Graph, s: Vertex, dist: map<Vertex, Distance>, paths: map<Vertex, seq<Vertex>>,
                         done: set<Vertex>, u: Vertex, v: Vertex)
    requires Settled(g, s, dist, done) && Witnessed(g, s, dist, paths)
    requires u in dist && v in done && IsEdge(g, u, v)
    ensures !Relaxable(dist, u, v, g[u][v])
  {
    if dist[u].Finite? {
      assert PathFromTo(g, paths[u], s, u);
      PathExtend(g, paths[u], v);
      assert PathFromTo(g, paths[u] + [v], s, v);
    }
  }

  /** Relaxing from a reached vertex never lowers the source below 0. */
  lemma SourceNotRelaxable(g: Graph, s: Vertex, dist: map<Vertex, Distance>, paths: map<Vertex, seq<Vertex>>, u: Vertex)
    requires NonNegative(g) && Witnessed(g, s, dist, paths) && s in dist && dist[s] == Finite(0)
    requires u in dist && IsEdge(g, u, s)
    ensures !Relaxable(dist, u, s, g[u][s])
  {
    if dist[u].Finite? {
      assert PathFromTo(g, paths[u], s, u);
      WeightNonNegative(g, paths[u]);
    }
  }

  lemma TakeFrontier(dist: map<Vertex, Distance>, done: set<Vertex>, queue: map<Vertex, int>, floor: int,
                     v: Vertex, d: int)
    requires Frontier(dist, done, queue, floor) && v in dist && v !in done && floor <= d
    ensures Frontier(dist[v := Finite(d)], done, queue[v := d], floor)
  {
  }

  lemma TakeRelaxed(g: Graph, dist: map<Vertex, Distance>, done: set<Vertex>, u: Vertex, pending: set<Vertex>,
                    v: Vertex, d: int)
    requires RelaxedFrom(g, dist, done, u, pending) && v in pending && v !in done && u in done
    requires IsEdge(g, u, v) && u in dist && v in dist && dist[u].Finite? && d == dist[u].value + g[u][v]
    requires Less(Finite(d), dist[v])
    ensures RelaxedFrom(g, dist[v := Finite(d)], done, u, pending - {v})
  {
  }

  lemma TakeSettled(g: Graph, s: Vertex, dist: map<Vertex, Distance>, done: set<Vertex>, v: Vertex, d: Distance)
    requires Settled(g, s, dist, done) && v in dist && v !in done
    ensures Settled(g, s, dist[v := d], done)
  {
    forall x | x in done ensures dist[v := d][x].Finite? && IsShortest(g, s, x, dist[v := d][x]) {
      assert dist[v := d][x] == dist[x];
    }
  }

  /** The target of a relaxable edge from a reached vertex is neither done nor the source. */
  lemma RelaxedTarget(g: Graph, s: Vertex, dist: map<Vertex, Distance>, paths: map<Vertex, seq<Vertex>>,
                      done: set<Vertex>, u: Vertex, v: Vertex)
    requires NonNegative(g) && Settled(g, s, dist, done) && Witnessed(g, s, dist, paths)
    requires s in dist && dist[s] == Finite(0) && u in dist && v in dist && IsEdge(g, u, v)
    requires Relaxable(dist, u, v, g[u][v])
    ensures v !in done && v != s
  {
    if v in done {
      DoneNotRelaxable(g, s, dist, paths, done, u, v);
    }
    if v == s {
      SourceNotRelaxable(g, s, dist, paths, u);
    }
  }

  lemma TakeSource(s: Vertex, dist: map<Vertex, Distance>, pred: map<Vertex, Option<Vertex>>, u: Vertex, v: Vertex, d: int)
    requires SourceFixed(s, dist, pred) && v in dist && v != s
    ensures SourceFixed(s, dist[v := Finite(d)], pred[v := Some(u)])
  {
  }

  /** Relaxing an edge (u, v) of the scanned vertex lowers v's distance to d and queues it there. */
  lemma TakeEdge(g: Graph, s: Vertex, dist: map<Vertex, Distance>, pred: map<Vertex, Option<Vertex>>,
                 paths: map<Vertex, seq<Vertex>>, done: set<Vertex>, queue: map<Vertex, int>,
                 floor: int, u: Vertex, pending: set<Vertex>, v: Vertex, d: int)
    requires Progress(g, s, dist, pred, paths, done, queue, floor, u, pending) && v in pending
    requires Relaxable(dist, u, v, g[u][v]) && d == dist[u].value + g[u][v]
    ensures v !in done && v != s
    ensures Progress(g, s, dist[v := Finite(d)], pred[v := Some(u)], paths[v := paths[u] + [v]],
                     done, queue[v := d], floor, u, pending - {v})
  {
    RelaxKeepsTables(g, s, dist, pred, paths, u, v, dist[v := Finite(d)], pred[v := Some(u)], paths[v := paths[u] + [v]]);
    RelaxedTarget(g, s, dist, paths, done, u, v);
    assert pending != {};
    assert dist[u] == Finite(floor) && g[u][v] >= 0;
    TakeFrontier(dist, done, queue, floor, v, d);
    TakeRelaxed(g, dist, done, u, pending, v, d);
    TakeSettled(g, s, dist, done, v, Finite(d));
    TakeSource(s, dist, pred, u, v, d);
  }

  /** With the queue empty, every path from the source ends at a done vertex. */
  lemma {:induction false} PathsEndDone(g: Graph, s: Vertex, dist: map<Vertex, Distance>, pred: map<Vertex, Option<Vertex>>,
                                        paths: map<Vertex, seq<Vertex>>, done: set<Vertex>,
                                        floor: int, cur: Vertex, p: seq<Vertex>)
    requires Progress(g, s, dist, pred, paths, done, map[], floor, cur, {})
    requires IsPath(g, p) && p[0] == s
    ensures p[|p| - 1] in done
    decreases |p|
  {
    if |p| > 1 {
      var n := |p| - 1;
      WeightSplit(g, p, n - 1);
      PathsEndDone(g, s, dist, pred, paths, done, floor, cur, p[..n]);
      assert IsEdge(g, p[n - 1], p[n]);
    }
  }

  /** With the queue empty, every distance is the shortest-path distance. */
  lemma Finished(g: Graph, s: Vertex, dist: map<Vertex, Distance>, pred: map<Vertex, Option<Vertex>>,
                 paths: map<Vertex, seq<Vertex>>, done: set<Vertex>, floor: int, cur: Vertex)
    requires Progress(g, s, dist, pred, paths, done, map[], floor, cur, {})
    ensures forall v :: v in dist ==> IsShortest(g, s, v, dist[v])
  {
    forall v | v in dist ensures IsShortest(g, s, v, dist[v]) {
      forall p | PathFromTo(g, p, s, v) ensures p[|p| - 1] in done {
        PathsEndDone(g, s, dist, pred, paths, done, floor, cur, p);
      }
    }
  }

  /** What both variants return: exact distances and a tree of tight predecessor edges. */
  lemma Conclusion(g: Graph, s: Vertex, dist: map<Vertex, Distance>, pred: map<Vertex, Option<Vertex>>,
                   paths: map<Vertex, seq<Vertex>>, done: set<Vertex>, floor: int, cur: Vertex)
    requires Progress(g, s, dist, pred, paths, done, map[], floor, cur, {})
    ensures forall v :: v in dist ==> IsShortest(g, s, v, dist[v])
    ensures forall v :: v in pred && pred[v].Some? ==>
      IsEdge(g, pred[v].value, v) && pred[v].value in dist && dist[pred[v].value].Finite? && dist[v].Finite? &&
      dist[v].value == dist[pred[v].value].value + g[pred[v].value][v]
  {
    Finished(g, s, dist, pred, paths, done, floor, cur);
    ShortestNotRelaxable(g, s, dist, paths);
    PredecessorsTight(g, dist, pred);
  }
}
