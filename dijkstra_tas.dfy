// Dijkstra's algorithm over the binary heap Tas.
//
// The heap holds exactly one entry per queued vertex, under its current
// distance: relaxing an edge lowers the entry in place (or adds one), so an
// entry taken out of the heap is never stale.

module DijkstraBinaryHeap {
  import opened Graphs
  import opened ShortestPathCommon
  import opened DijkstraCommon
  import opened BinaryHeap

  /** Relaxes the pending edge (u, v) of the scanned vertex u, lowering or adding v's entry. */
  method RelaxEdge(g: Graph, s: Vertex, dist: map<Vertex, Distance>, pred: map<Vertex, Option<Vertex>>,
                   ghost paths: map<Vertex, seq<Vertex>>, ghost done: set<Vertex>, ghost queue: map<Vertex, int>,
                   ghost floor: int, u: Vertex, ghost todo: set<Vertex>, v: Vertex, heap: Tas)
    returns (dist': map<Vertex, Distance>, pred': map<Vertex, Option<Vertex>>,
             ghost paths': map<Vertex, seq<Vertex>>, ghost queue': map<Vertex, int>)
    requires heap.Valid() && queue == heap.Contents()
    requires Progress(g, s, dist, pred, paths, done, queue, floor, u, todo) && v in todo
    modifies heap
    ensures heap.Valid() && queue' == heap.Contents() && dist'.Keys == dist.Keys
    ensures Progress(g, s, dist', pred', paths', done, queue', floor, u, todo - {v})
  {
    var w := g[u][v];
    if v !in dist {
      // Every successor already has a distance: the vertex set includes it.
      assert false;
    }
    if Relaxable(dist, u, v, w) {
      var d := dist[u].value + w;
      TakeEdge(g, s, dist, pred, paths, done, queue, floor, u, todo, v, d);
      var _ := heap.DecreaseKey(v, d);
      dist', pred', paths', queue' := dist[v := Finite(d)], pred[v := Some(u)], paths[v := paths[u] + [v]], queue[v := d];
    } else {
      SkipEdge(g, s, dist, pred, paths, done, queue, floor, u, todo, v);
      dist', pred', paths', queue' := dist, pred, paths, queue;
    }
  }

  /** Relaxes every edge leaving u, the vertex just taken out of the heap. */
  method RelaxSuccessors(g: Graph, s: Vertex, dist: map<Vertex, Distance>, pred: map<Vertex, Option<Vertex>>,
                         ghost paths: map<Vertex, seq<Vertex>>, ghost done: set<Vertex>, ghost queue: map<Vertex, int>,
                         ghost floor: int, u: Vertex, heap: Tas)
    returns (dist': map<Vertex, Distance>, pred': map<Vertex, Option<Vertex>>,
             ghost paths': map<Vertex, seq<Vertex>>, ghost queue': map<Vertex, int>)
    requires u in g && heap.Valid() && queue == heap.Contents()
    requires Progress(g, s, dist, pred, paths, done, queue, floor, u, g[u].Keys)
    modifies heap
    ensures heap.Valid() && queue' == heap.Contents() && dist'.Keys == dist.Keys
    ensures Progress(g, s, dist', pred', paths', done, queue', floor, u, {})
  {
    dist', pred', paths', queue' := dist, pred, paths, queue;
    var todo := g[u].Keys;
    while todo != {}
      invariant heap.Valid() && queue' == heap.Contents() && dist'.Keys == dist.Keys
      invariant Progress(g, s, dist', pred', paths', done, queue', floor, u, todo)
      decreases todo
    {
      var v :| v in todo;
      dist', pred', paths', queue' := RelaxEdge(g, s, dist', pred', paths', done, queue', floor, u, todo, v, heap);
      todo := todo - {v};
    }
  }

  /** Taking one more vertex out of those not done shrinks their number. */
  lemma SettleShrinks(keys: set<Vertex>, done: set<Vertex>, u: Vertex)
    requires u in keys && u !in done
    ensures |keys - (done + {u})| < |keys - done|
  {
    var rest := keys - (done + {u});
    assert keys - done == rest + {u};
  }

  /**
   * One turn of the main loop: takes an entry of least distance out of the
   * heap, marks its vertex u done and relaxes the edges leaving u.
   */
  method SettleNext(g: Graph, s: Vertex, dist: map<Vertex, Distance>, pred: map<Vertex, Option<Vertex>>,
                    ghost paths: map<Vertex, seq<Vertex>>, ghost done: set<Vertex>, ghost queue: map<Vertex, int>,
                    ghost floor: int, ghost cur: Vertex, heap: Tas)
    returns (dist': map<Vertex, Distance>, pred': map<Vertex, Option<Vertex>>, ghost paths': map<Vertex, seq<Vertex>>,
             ghost done': set<Vertex>, ghost queue': map<Vertex, int>, ghost floor': int, u: Vertex)
    requires heap.Valid() && queue == heap.Contents() && queue != map[]
    requires Progress(g, s, dist, pred, paths, done, queue, floor, cur, {})
    modifies heap
    ensures heap.Valid() && queue' == heap.Contents()
    ensures dist'.Keys == dist.Keys && Progress(g, s, dist', pred', paths', done', queue', floor', u, {})
    ensures u in dist && u !in done && done' == done + {u}
  {
    var r := heap.ExtractMin();
    if r.None? {
      // The heap is not empty, so it yields an entry.
      assert false;
    }
    var du;
    du, u := r.value.0, r.value.1;
    if Less(dist[u], Finite(du)) {
      // Each queued entry carries the vertex's current distance.
      assert false;
    }
    Settle(g, s, dist, pred, paths, done, queue, floor, cur, u);
    done', queue', floor' := done + {u}, queue - {u}, queue[u];
    if u in g {
      SuccessorKeys(g, u);
      dist', pred', paths', queue' := RelaxSuccessors(g, s, dist, pred, paths, done', queue', floor', u, heap);
    } else {
      SinkSuccessors(g, u);
      dist', pred', paths' := dist, pred, paths;
    }
  }

  /**
   * Shortest distances from s, and the predecessor of each reached vertex on a
   * shortest path, when no edge weight is negative.
   */
  method DijkstraTas(g: Graph, s: Vertex) returns (dist: map<Vertex, Distance>, pred: map<Vertex, Option<Vertex>>)
    requires NonNegative(g)
    ensures dist.Keys == Vertices(g) + {s} && pred.Keys == Vertices(g)
    ensures forall v :: v in dist ==> IsShortest(g, s, v, dist[v])
    ensures s in pred ==> pred[s] == None
    ensures forall v :: v in pred && v != s ==> (pred[v].Some? <==> dist[v].Finite?)
    ensures forall v :: v in pred && pred[v].Some? ==>
      IsEdge(g, pred[v].value, v) && pred[v].value in dist && dist[pred[v].value].Finite? && dist[v].Finite? &&
      dist[v].value == dist[pred[v].value].value + g[pred[v].value][v]
  {
    var vertices := CollectVertices(g);
    dist := InitialDistances(vertices, s);
    pred := InitialPredecessors(vertices);
    ghost var paths: map<Vertex, seq<Vertex>> := map[s := [s]];
    ghost var done: set<Vertex> := {};
    ghost var floor := 0;
    ghost var cur := s;
    ghost var keys := dist.Keys;
    var heap := new Tas();
    var _ := heap.Insert(0, s);
    ghost var queue := heap.Contents();
    InitialProgress(g, s, vertices);
    var empty := heap.IsEmpty();
    while !empty
      invariant heap.Valid() && queue == heap.Contents() && (empty <==> queue == map[])
      invariant dist.Keys == keys && Progress(g, s, dist, pred, paths, done, queue, floor, cur, {})
      decreases |keys - done|
    {
      ghost var u;
      ghost var before := done;
      dist, pred, paths, done, queue, floor, u := SettleNext(g, s, dist, pred, paths, done, queue, floor, cur, heap);
      SettleShrinks(keys, before, u);
      cur := u;
      empty := heap.IsEmpty();
    }
    Conclusion(g, s, dist, pred, paths, done, floor, cur);
  }
}
