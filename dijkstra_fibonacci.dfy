// Dijkstra's algorithm over the Fibonacci heap, and its agreement with
// Bellman-Ford and with the binary-heap variant.
//
// The node of each vertex ever queued is kept in a local table (the program's
// noeuds) that is never pruned: a done vertex keeps the handle of its
// extracted node, which is never used again because no edge into a done
// vertex is relaxable when weights are non-negative.

module DijkstraFibonacciHeap {
  import opened Graphs
  import opened ShortestPathCommon
  import opened DijkstraCommon
  import opened DijkstraBinaryHeap
  import BellmanFord
  import opened FibonacciArena
  import opened FibonacciHeaps

  /** The table agrees with the heap on every queued vertex, and every vertex with a node that is not done is queued. */
  ghost predicate Tracked(noeuds: map<Vertex, int>, handles: map<Vertex, int>, done: set<Vertex>)
  {
    (forall v :: v in handles ==> v in noeuds && noeuds[v] == handles[v]) &&
    (forall v :: v in noeuds && v !in done ==> v in handles)
  }

  /**
   * Queues the vertex v, which is not done, at d: its node's key is lowered
   * to d when it has one (d being below its queued key), and a new node is
   * added for it otherwise.
   */
  method QueueAt(heap: FibonacciHeap, noeuds: map<Vertex, int>, ghost done: set<Vertex>, ghost queue: map<Vertex, int>,
                 v: Vertex, d: int) returns (noeuds': map<Vertex, int>)
    requires heap.Valid() && queue == heap.Contents() && Tracked(noeuds, heap.handles, done)
    requires v !in done && (v in queue ==> d < queue[v])
    modifies heap
    ensures heap.Valid() && heap.Contents() == queue[v := d] && Tracked(noeuds', heap.handles, done)
  {
    if v in noeuds {
      assert v in heap.handles && heap.handles[v] == noeuds[v];
      var ok := heap.DecreaseKey(noeuds[v], d);
      noeuds' := noeuds;
    } else {
      var handle := heap.Insert(d, v);
      noeuds' := noeuds[v := handle];
    }
  }

  /** Takes a vertex of least key out of the non-empty heap; it counts as done from then on. */
  method TakeLeast(heap: FibonacciHeap, ghost noeuds: map<Vertex, int>, ghost done: set<Vertex>, ghost queue: map<Vertex, int>)
    returns (u: Vertex)
    requires heap.Valid() && queue == heap.Contents() && queue != map[] && Tracked(noeuds, heap.handles, done)
    modifies heap
    ensures heap.Valid() && heap.Contents() == queue - {u} && Tracked(noeuds, heap.handles, done + {u})
    ensures u in queue && forall w :: w in queue ==> queue[u] <= queue[w]
  {
    var r := heap.ExtractMin();
    if r.None? {
      // The heap is not empty, so it yields a vertex.
      assert false;
    }
    u := r.value;
  }

  /** Relaxes the pending edge (u, v) of the scanned vertex u. */
  method RelaxEdge(g: Graph, s: Vertex, dist: map<Vertex, Distance>, pred: map<Vertex, Option<Vertex>>,
                   ghost paths: map<Vertex, seq<Vertex>>, ghost done: set<Vertex>, ghost queue: map<Vertex, int>,
                   ghost floor: int, u: Vertex, ghost todo: set<Vertex>, v: Vertex, heap: FibonacciHeap, noeuds: map<Vertex, int>)
    returns (dist': map<Vertex, Distance>, pred': map<Vertex, Option<Vertex>>,
             ghost paths': map<Vertex, seq<Vertex>>, ghost queue': map<Vertex, int>, noeuds': map<Vertex, int>)
    requires heap.Valid() && queue == heap.Contents() && Tracked(noeuds, heap.handles, done)
    requires Progress(g, s, dist, pred, paths, done, queue, floor, u, todo) && v in todo
    modifies heap
    ensures heap.Valid() && queue' == heap.Contents() && dist'.Keys == dist.Keys && Tracked(noeuds', heap.handles, done)
    ensures Progress(g, s, dist', pred', paths', done, queue', floor, u, todo - {v})
  {
    var w := g[u][v];
    if v !in dist {
      // Every successor already has a distance: the vertex set includes it.
      assert false;
    }
    if Relaxable(dist, u, v, w) {
      var d := dist[u].value + w;
      TakeEdge(g, s, dist, pred, paths, done, queue, floor, u, todo, v, d);
      noeuds' := QueueAt(heap, noeuds, done, queue, v, d);
      dist', pred', paths', queue' := dist[v := Finite(d)], pred[v := Some(u)], paths[v := paths[u] + [v]], queue[v := d];
    } else {
      SkipEdge(g, s, dist, pred, paths, done, queue, floor, u, todo, v);
      dist', pred', paths', queue', noeuds' := dist, pred, paths, queue, noeuds;
    }
  }

  /** Relaxes every edge leaving u, lowering the key of a queued successor or adding a node for a new one. */
  method RelaxSuccessors(g: Graph, s: Vertex, dist: map<Vertex, Distance>, pred: map<Vertex, Option<Vertex>>,
                         ghost paths: map<Vertex, seq<Vertex>>, ghost done: set<Vertex>, ghost queue: map<Vertex, int>,
                         ghost floor: int, u: Vertex, heap: FibonacciHeap, noeuds: map<Vertex, int>)
    returns (dist': map<Vertex, Distance>, pred': map<Vertex, Option<Vertex>>,
             ghost paths': map<Vertex, seq<Vertex>>, ghost queue': map<Vertex, int>, noeuds': map<Vertex, int>)
    requires u in g && heap.Valid() && queue == heap.Contents() && Tracked(noeuds, heap.handles, done)
    requires Progress(g, s, dist, pred, paths, done, queue, floor, u, g[u].Keys)
    modifies heap
    ensures heap.Valid() && queue' == heap.Contents() && dist'.Keys == dist.Keys && Tracked(noeuds', heap.handles, done)
    ensures Progress(g, s, dist', pred', paths', done, queue', floor, u, {})
  {
    dist', pred', paths', queue', noeuds' := dist, pred, paths, queue, noeuds;
    var todo := g[u].Keys;
    while todo != {}
      invariant heap.Valid() && queue' == heap.Contents() && dist'.Keys == dist.Keys
      invariant Tracked(noeuds', heap.handles, done)
      invariant Progress(g, s, dist', pred', paths', done, queue', floor, u, todo)
      decreases todo
    {
      var v :| v in todo;
      dist', pred', paths', queue', noeuds' := RelaxEdge(g, s, dist', pred', paths', done, queue', floor, u, todo, v, heap, noeuds');
      todo := todo - {v};
    }
  }

  /**
   * One turn of the main loop: takes a vertex u of least distance out of the
   * heap, marks it done and relaxes the edges leaving it.
   */
  method SettleNext(g: Graph, s: Vertex, dist: map<Vertex, Distance>, pred: map<Vertex, Option<Vertex>>,
                    ghost paths: map<Vertex, seq<Vertex>>, traites: set<Vertex>, ghost queue: map<Vertex, int>,
                    ghost floor: int, ghost cur: Vertex, heap: FibonacciHeap, noeuds: map<Vertex, int>)
    returns (dist': map<Vertex, Distance>, pred': map<Vertex, Option<Vertex>>, ghost paths': map<Vertex, seq<Vertex>>,
             traites': set<Vertex>, ghost queue': map<Vertex, int>, ghost floor': int, u: Vertex, noeuds': map<Vertex, int>)
    requires heap.Valid() && queue == heap.Contents() && queue != map[] && Tracked(noeuds, heap.handles, traites)
    requires Progress(g, s, dist, pred, paths, traites, queue, floor, cur, {})
    modifies heap
    ensures heap.Valid() && queue' == heap.Contents() && Tracked(noeuds', heap.handles, traites')
    ensures dist'.Keys == dist.Keys && Progress(g, s, dist', pred', paths', traites', queue', floor', u, {})
    ensures u in dist && u !in traites && traites' == traites + {u}
  {
    u := TakeLeast(heap, noeuds, traites, queue);
    if u in traites {
      // Only vertices that are not done are queued.
      assert false;
    }
    Settle(g, s, dist, pred, paths, traites, queue, floor, cur, u);
    traites', queue', floor' := traites + {u}, queue - {u}, queue[u];
    if u in g {
      SuccessorKeys(g, u);
      dist', pred', paths', queue', noeuds' := RelaxSuccessors(g, s, dist, pred, paths, traites', queue', floor', u, heap, noeuds);
    } else {
      SinkSuccessors(g, u);
      dist', pred', paths', noeuds' := dist, pred, paths, noeuds;
    }
  }

  /**
   * Shortest distances from s, and the predecessor of each reached vertex on a
   * shortest path, when no edge weight is negative.
   */
  method DijkstraFibonacci(g: Graph, s: Vertex) returns (dist: map<Vertex, Distance>, pred: map<Vertex, Option<Vertex>>)
    requires NonNegative(g)
    ensures dist.Keys == Vertices(g) + {s} && pred.Keys == Vertices(g)
    ensures forall v :: v in dist ==> IsShortest(g, s, v, dist[v])
    ensures s in pred ==> pred[s] == None
    ensures forall v :: v in pred && v != s ==> (pred[v].Some? <==> dist[v].Finite?)
    ensures forall v :: v in pred && pred[v].Some? ==>
      IsEdge(g, pred[v].value, v) && pred[v].value in dist && dist[pred[v].value].Finite? && dist[v].Finite? &&
      dist[v].value == dist[pred[v].value].value + g[pred[v].value][v]
  {
    var vertices := CollectVertices(g);
    dist := InitialDistances(vertices, s);
    pred := InitialPredecessors(vertices);
    ghost var paths: map<Vertex, seq<Vertex>> := map[s := [s]];
    var traites: set<Vertex> := {};
    ghost var floor := 0;
    ghost var cur := s;
    ghost var keys := dist.Keys;
    var heap := new FibonacciHeap();
    var handle := heap.Insert(0, s);
    var noeuds := map[s := handle];
    ghost var queue := heap.Contents();
    InitialProgress(g, s, vertices);
    var empty := heap.IsEmpty();
    while !empty
      invariant heap.Valid() && queue == heap.Contents() && (empty <==> queue == map[])
      invariant Tracked(noeuds, heap.handles, traites)
      invariant dist.Keys == keys && Progress(g, s, dist, pred, paths, traites, queue, floor, cur, {})
      decreases |keys - traites|
    {
      ghost var u;
      ghost var before := traites;
      dist, pred, paths, traites, queue, floor, u, noeuds := SettleNext(g, s, dist, pred, paths, traites, queue, floor, cur, heap, noeuds);
      SettleShrinks(keys, before, u);
      cur := u;
      empty := heap.IsEmpty();
    }
    Conclusion(g, s, dist, pred, paths, traites, floor, cur);
  }

  /** Two tables of shortest distances over the same vertices are equal. */
  lemma ShortestTablesEqual(g: Graph, s: Vertex, a: map<Vertex, Distance>, b: map<Vertex, Distance>)
    requires a.Keys == b.Keys
    requires forall v :: v in a ==> IsShortest(g, s, v, a[v])
    requires forall v :: v in b ==> IsShortest(g, s, v, b[v])
    ensures a == b
  {
    forall v | v in a ensures a[v] == b[v] {
      ShortestUnique(g, s, v, a[v], b[v]);
    }
  }

  /**
   * On a graph without negative weights the three algorithms compute the
   * same distances, and Bellman-Ford reports no negative cycle.
   */
  method CompareAlgorithms(g: Graph, s: Vertex)
    returns (bellman: map<Vertex, Distance>, binary: map<Vertex, Distance>, fibonacci: map<Vertex, Distance>, negativeCycle: bool)
    requires NonNegative(g)
    ensures !negativeCycle && bellman == binary == fibonacci
    ensures bellman.Keys == Vertices(g) + {s} && forall v :: v in bellman ==> IsShortest(g, s, v, bellman[v])
  {
    var p1, p2, p3;
    bellman, p1, negativeCycle := BellmanFord.BellmanFord(g, s);
    binary, p2 := DijkstraTas(g, s);
    fibonacci, p3 := DijkstraFibonacci(g, s);
    ShortestTablesEqual(g, s, bellman, binary);
    ShortestTablesEqual(g, s, binary, fibonacci);
  }
}
