# Shortest paths on a transit network, modelled in Dafny

The program reads a GTFS timetable and builds a weighted directed graph. Its
vertices are stop identifiers. Its edge weights are travel times in seconds
between consecutive stops of a trip (the smallest one is kept). It then times
three single-source shortest-path algorithms on that graph, and again on
induced subgraphs of increasing size:
- Bellman-Ford;
- Dijkstra with a binary heap (`Tas`);
- Dijkstra with a Fibonacci heap (`FibonacciHeap`).

This project models the algorithmic core of `algorithme.py` and proves it correct:

- `time.dfy` (`TimeParsing`): `time_to_seconds`, from "H:M:S" to seconds or
  None. Python's `str.split` and `int` are modelled as `Split` and `ParseInt`.
- `graph.dfy` (`Graphs`): graphs, paths, path weights and the predicate
  `IsShortest` ("the least weight of a path from the source, or unreached when
  there is none"). Bellman-Ford is proved against this predicate whenever no
  negative cycle is reachable from the source, and both Dijkstra variants
  whenever no weight is negative.
- `subgraph.dfy` (`Subgraphs`): `creer_sous_graphes`, the subgraph induced by
  each sample of vertices.
- `binary_heap.dfy` (`BinaryHeap`): the class `Tas`. It is an array-backed
  binary min-heap of (priority, vertex) entries with a position map. Its
  abstract value is the map from each queued vertex to its priority.
- `bellman_ford.dfy` (`ShortestPathCommon`, `BellmanFord`): `bellman_ford`,
  including its final scan for a negative cycle.
- `dijkstra.dfy` (`DijkstraCommon`): the loop invariant of Dijkstra's
  algorithm and the lemmas that maintain it. Both variants share them.
- `dijkstra_tas.dfy` (`DijkstraBinaryHeap`): `dijkstra_tas`.
- The Fibonacci heap:
  - `fibonacci_arena.dfy` (`FibonacciArena`): nodes and rings;
  - `fibonacci_forest.dfy` (`FibonacciForest`): the well-formed, heap-ordered forest;
  - `fibonacci_link.dfy` (`FibonacciLinking`): `_lier`;
  - `fibonacci_consolidate.dfy` (`FibonacciConsolidation`): `_consolider`;
  - `fibonacci_extract.dfy` (`FibonacciExtraction`): the body of `extraire_min`;
  - `fibonacci_cut.dfy` (`FibonacciCutting`): `_couper`, `_couper_en_cascade` and the key change of `diminuer_clef`;
  - `fibonacci_heap.dfy` (`FibonacciHeaps`): the class `FibonacciHeap`.
- `dijkstra_fibonacci.dfy` (`DijkstraFibonacciHeap`): `dijkstra_fibonacci`, plus
  the agreement of the three algorithms run by `tester_performances`.

`FibonacciNode` objects refer to each other by reference. In the model they
live in an arena, the sequence `nodes`, and refer to each other by handle
(an index, with `NIL` = -1 for None). Each heap operation is a method over
the arena. The class methods of `FibonacciHeap` call these methods and
assign the fields. A ghost `Forest` records the tree structure, which the
program leaves implicit:
- the root ring in order;
- each node's child ring;
- the set of live nodes;
- a rank per node that decreases from parent to child.

The invariant `Shape` states that:
- every ring is a proper circular doubly-linked list;
- the roots are parentless;
- every child ring sits under its parent, records its degree and has the
  parent's handle as parent;
- every child's key is at least its parent's (heap order);
- every live node is reachable from the roots.

The heap's invariant adds that `min_node` is the first root and holds a
least key. Distances are `Unreached` (the program's `float('inf')`) or
`Finite(n)`.

## Model

| member | source | states |
|---|---|---|
| TimeParsing.Split | algorithme.py:25 | The pieces contain no separator, and gluing them back with the separator gives the input. |
| TimeParsing.SplitJoin | algorithme.py:25 | Splitting the join of separator-free pieces gives back those pieces. |
| TimeParsing.ParseInt | algorithme.py:25 | Succeeds exactly on an optional sign followed by decimal digits (any other text is `int`'s ValueError). Evaluates a digit string to its decimal value. |
| TimeParsing.ParseIntToString | algorithme.py:25 | Reading the decimal text of any integer gives back that integer. |
| TimeParsing.TimeToSeconds | algorithme.py:23-30 | A result means exactly three integer fields with hours in 0..30 and minutes and seconds in 0..59, and equals h*3600 + m*60 + s. It is below 31 hours. |
| TimeParsing.FormatThenParse | algorithme.py:23-30 | "h:m:s" converts to h*3600 + m*60 + s when the fields are in range and to None otherwise, both directions. |
| TimeParsing.SecondsDetermineFields | algorithme.py:26-29 | A valid time's three fields are recovered from its seconds: hours = r / 3600, minutes = (r / 60) % 60, seconds = r % 60. |
| Subgraphs.ClampSize | algorithme.py:487-488 | The size used is the requested size capped at the number of keys. |
| Subgraphs.InducedKeys | algorithme.py:493-496 | The induced subgraph has an entry for exactly the sampled keys of the graph. |
| Subgraphs.InducedEdges | algorithme.py:497-499 | An edge is kept, with its weight, exactly when both ends are sampled. |
| Subgraphs.InducedVertices | algorithme.py:493-500 | Every vertex of a subgraph is sampled. |
| Subgraphs.InducedIdempotent | algorithme.py:493-500 | Inducing again on the same sample changes nothing. |
| Subgraphs.SampleSubgraph | algorithme.py:491-500 | For a legal draw the subgraph's keys and vertices are exactly the sample, and there are as many as the clamped size. |
| Subgraphs.BuildSubgraph | algorithme.py:492-500 | The loop builds exactly the subgraph induced by the sample. |
| Subgraphs.SubgraphsKeys | algorithme.py:486-502 | The result has an entry for exactly the clamped sizes. |
| Subgraphs.SubgraphsLastWins | algorithme.py:502 | The entry for a clamped size holds the subgraph of the last size that clamps to it: later sizes overwrite earlier ones. |
| Subgraphs.CreateSubgraphs | algorithme.py:481-504 | The loop computes the map from each clamped size to the subgraph induced by its sample. |
| BinaryHeap.RootIsMinimum | algorithme.py:120-124 | In a heap-ordered sequence the first entry has a least priority. |
| BinaryHeap.SwapKeepsContents | algorithme.py:78-82 | Swapping two entries and re-indexing both keeps the position map correct and the abstract contents unchanged. |
| BinaryHeap.SiftUpStep | algorithme.py:74-85 | One exchange with the parent moves the single possible violation of heap order one level up. |
| BinaryHeap.SiftDownStep | algorithme.py:87-108 | Exchanging with the smaller child moves the single possible violation of heap order one level down. |
| BinaryHeap.AppendEntry | algorithme.py:66-70 | Appending a new vertex adds it to the contents with its priority, leaving only the last slot to repair. |
| BinaryHeap.LowerAt | algorithme.py:115-116 | Lowering a priority in place updates the contents, leaving only that slot to repair upwards. |
| BinaryHeap.RemoveRoot | algorithme.py:125-134 | Replacing the root by the last entry removes the root's vertex from the contents, leaving only the root slot to repair. |
| BinaryHeap.Tas.constructor | algorithme.py:59-61 | A new heap is valid and empty. |
| BinaryHeap.Tas.IsEmpty | algorithme.py:63-64 | True exactly when no vertex is queued. |
| BinaryHeap.Tas.Swap | algorithme.py:78-82 | Exchanges two entries, keeping the contents and the index. |
| BinaryHeap.Tas.SiftUp | algorithme.py:74-85 | Restores heap order with the same contents. |
| BinaryHeap.Tas.SiftDown | algorithme.py:87-108 | Restores heap order with the same contents. |
| BinaryHeap.Tas.Insert | algorithme.py:66-72 | Adds the vertex with its priority to the contents and returns the entry. |
| BinaryHeap.Tas.DecreaseKey | algorithme.py:110-118 | Adds an absent vertex, and lowers a queued one only when the new priority is smaller (otherwise nothing changes). The entry returned is the one now at the vertex's former slot, whatever the outcome. That is a current entry of the heap, but after the vertex has moved up it belongs to another vertex, as in the program. |
| BinaryHeap.Tas.ExtractMin | algorithme.py:120-136 | None exactly when empty. Otherwise returns an entry of least priority and removes its vertex from the contents. |
| Graphs.Vertices | algorithme.py:329-332 | The vertex set is exactly the keys plus the edge targets. |
| Graphs.NonNegativeNoNegativeCycle | algorithme.py:341-353 | Non-negative weights admit no negative cycle. |
| Graphs.CycleNonNegative | algorithme.py:341-346 | A cycle inside a path from s weighs at least 0 when no negative cycle is reachable from s. |
| Graphs.Shorten | algorithme.py:341-346 | Every path contains a path with no repeated vertex between the same ends, no heavier when no negative cycle is reachable from its start. |
| Graphs.ShortestUnique | algorithme.py:448-466 | There is only one shortest distance per vertex, so algorithms that compute it agree. |
| ShortestPathCommon.CollectVertices | algorithme.py:329-332 | The loop collects exactly the graph's vertices. |
| ShortestPathCommon.InitialDistances | algorithme.py:336-339 | Every vertex starts unreached except the source, at 0. |
| ShortestPathCommon.InitialPredecessors | algorithme.py:336-338 | Exactly the vertices get an entry, each without a predecessor. A source that is not a vertex gets none. |
| ShortestPathCommon.ShortestNotRelaxable | algorithme.py:348-353 | When all distances are shortest, no edge can be relaxed. |
| ShortestPathCommon.PredecessorsTight | algorithme.py:344-346 | With no relaxable edge, each recorded predecessor edge is tight: dist[v] = dist[pred[v]] + w. |
| BellmanFord.RelaxEdge | algorithme.py:343-346 | When dist[u] + w is smaller, v's distance becomes it and v's predecessor becomes u. Otherwise both tables are unchanged. No other distance changes and none rises. |
| BellmanFord.RelaxOutgoing | algorithme.py:342-346 | After u's edges, every successor's distance is at most u's distance at the start of the pass plus the weight. |
| BellmanFord.RelaxAllEdges | algorithme.py:341-346 | One pass relaxes every edge against the distances at its start and raises no distance. |
| BellmanFord.BoundedStep | algorithme.py:341-346 | If before a pass each distance is at most the weight of every path of at most k edges, then after it the same holds for k+1 edges. |
| BellmanFord.SimplePathsBounded | algorithme.py:341-346 | After \|V\|-1 passes no path of at most \|V\| vertices is lighter than the recorded distance, nor any path at all when no negative cycle is reachable. |
| BellmanFord.ShortestWithoutNegativeCycle | algorithme.py:341-346 | When no negative cycle is reachable from the source, \|V\|-1 passes give shortest distances. |
| BellmanFord.NegativeCycleRelaxable | algorithme.py:341-353 | A negative cycle reachable from the source leaves some edge relaxable after all passes. |
| BellmanFord.ScanForRelaxableEdge | algorithme.py:348-353 | The final scan reports true exactly when some edge is still relaxable. |
| BellmanFord.BellmanFord | algorithme.py:328-355 | Distances exist for the vertices and the source, predecessors for the vertices only. Every finite distance is the weight of a path, and no path of at most \|V\| vertices is shorter. The flag is set exactly when an edge is still relaxable, and that is exactly when a negative cycle is reachable from the source. Without the flag, the distances are shortest and the predecessor edges tight. Non-negative weights never raise the flag. |
| DijkstraCommon.InitialProgress | algorithme.py:359-372 | The initial tables with only the source queued at 0 satisfy the loop invariant. |
| DijkstraCommon.MinimumIsShortest | algorithme.py:375-380 | A queued vertex of least distance already has its shortest distance. |
| DijkstraCommon.Settle | algorithme.py:375-385 | Taking a least vertex out of the queue keeps the invariant, with that vertex done and its edges pending. |
| DijkstraCommon.TakeEdge | algorithme.py:392-395 | Relaxing a pending edge keeps the invariant. The target is neither the source nor done. |
| DijkstraCommon.RelaxedTarget | algorithme.py:392-395 | With non-negative weights an edge that can be relaxed never leads to a done vertex or to the source. |
| DijkstraCommon.SkipEdge | algorithme.py:392 | A pending edge that is not relaxable leaves the invariant true as it stops being pending. |
| DijkstraCommon.Conclusion | algorithme.py:397 | With the queue empty, every distance is shortest and every predecessor edge is a tight edge of the graph. |
| DijkstraBinaryHeap.RelaxEdge | algorithme.py:387-395 | Relaxing one edge and updating the heap through diminuer_clef keeps the heap in step with the queue and the invariant. |
| DijkstraBinaryHeap.RelaxSuccessors | algorithme.py:384-395 | After all of u's edges, the invariant holds with nothing pending. |
| DijkstraBinaryHeap.SettleNext | algorithme.py:374-395 | One turn of the main loop keeps the invariant and marks one more vertex done. The stale-entry test never fires. |
| DijkstraBinaryHeap.DijkstraTas | algorithme.py:358-397 | With non-negative weights: distances for the vertices and the source, each shortest, and predecessors for the vertices only. A source that is a vertex has no predecessor. Any other vertex has one exactly when reached, along a tight edge. |
| FibonacciArena.SpliceLeftOf | algorithme.py:167-170 | Splicing a node to the left of a ring's first node extends the ring by one at its end, and touches only three nodes' links. |
| FibonacciArena.Unlink | algorithme.py:226-227 | Unlinking a member of a ring of two or more leaves the ring of the others, starting after it. Only links change. |
| FibonacciForest.RootsNonEmpty | algorithme.py:157-158 | The root ring is empty exactly when no node is live. |
| FibonacciForest.LeastRoot | algorithme.py:220-221 | In a heap-ordered forest a least root has a least key among all live nodes. |
| FibonacciForest.RootsRotate | algorithme.py:273 | Starting the root ring at another root keeps the forest well-formed. |
| FibonacciForest.AddRoot | algorithme.py:160-176 | A fresh parentless, childless node spliced into the root ring gives a well-formed forest with one more root. |
| FibonacciLinking.Adopt | algorithme.py:239-241 | The child gets the parent's handle and loses its mark. The parent's degree grows by one. |
| FibonacciLinking.Enroll | algorithme.py:229-237 | The node joins the end of the parent's child ring, or becomes its only child. |
| FibonacciLinking.Link | algorithme.py:225-241 | The linked root leaves the root ring and is appended to the other root's child ring, under it, unmarked. The parent's degree grows by one. Keys and values are kept. |
| FibonacciLinking.LinkForest | algorithme.py:199-202 | Linking a root under a root of no larger key leaves a well-formed, heap-ordered forest with the same other roots. |
| FibonacciConsolidation.RootList | algorithme.py:182-191 | Walking right from min_node until it comes back lists the root ring in order. |
| FibonacciConsolidation.Absorb | algorithme.py:196-204 | Linking with the table's tree of the same degree until the degree is free keeps the forest well-formed, with the table's trees of distinct degrees. |
| FibonacciConsolidation.MergeRoots | algorithme.py:193-206 | After the loop over the roots every root is in the table under its own degree. |
| FibonacciConsolidation.SelfLoop | algorithme.py:211-212 | The first tabled tree becomes a ring of its own. Only its links change. |
| FibonacciConsolidation.ClearParent | algorithme.py:223 | The node's parent becomes None, and nothing else changes. |
| FibonacciConsolidation.Place | algorithme.py:209-223 | Each tabled tree joins the new root ring, in front when its key is smaller than the current minimum's and at the end otherwise. |
| FibonacciConsolidation.Rebuild | algorithme.py:208-223 | The new root ring holds exactly the tabled roots. min_node is its first root with a least key, and the root degrees are pairwise distinct. |
| FibonacciConsolidation.Consolidate | algorithme.py:178-223 | The forest stays well-formed with the same live nodes, keys and values; nothing changes when the heap is empty. Afterwards min_node is the first root, holds a least key of all live nodes, and the root degrees are pairwise distinct. |
| FibonacciExtraction.PromoteOne | algorithme.py:255-263 | One child gets no parent and joins the root ring. The walk moves right, back to the first child exactly after the last one. |
| FibonacciExtraction.PromoteChildren | algorithme.py:250-265 | Every child of the minimum joins the end of the root ring, in order, with no parent. Other nodes keep their parent and entries. |
| FibonacciExtraction.MoveChildren | algorithme.py:250-265 | The children, if any, are moved to the root ring. |
| FibonacciExtraction.ExtractedShape | algorithme.py:250-273 | Removing the minimum root and promoting its children leaves a well-formed, heap-ordered forest over the other nodes. |
| FibonacciExtraction.RemoveMin | algorithme.py:247-273 | The roots become the old roots after the minimum followed by its children. The minimum is no longer live and entries are kept. The right neighbour is the minimum itself exactly when no root is left. |
| FibonacciCutting.DetachAlone | algorithme.py:281-284 | For an only child, the parent's degree drops by one and it loses its child. Nothing else changes. |
| FibonacciCutting.DetachFrom | algorithme.py:281-288 | For a child with siblings, the parent's degree drops by one and its child becomes the node's right neighbour. The node is unlinked from the ring, and only links change elsewhere. |
| FibonacciCutting.Detach | algorithme.py:281-288 | The parent's degree drops by one. Its child is None when the node was its only child, and otherwise the node's right neighbour, with the node unlinked from the ring. |
| FibonacciCutting.Uproot | algorithme.py:290-291 | The node gets no parent and loses its mark. |
| FibonacciCutting.CutShape | algorithme.py:280-296 | After the cut, the forest with the node appended to the roots is well-formed and heap-ordered. |
| FibonacciCutting.Cut | algorithme.py:280-296 | The node joins the end of the root ring with no parent and no mark. The parent's degree drops by one, and no other node's parent or mark changes. |
| FibonacciCutting.MarkFrame | algorithme.py:304-305 | Marking a node does not disturb the forest's shape. |
| FibonacciCutting.CascadingCut | algorithme.py:298-308 | Nothing changes for None or a root. An unmarked node with a parent is only marked. A marked one is cut and the cascade goes on from its parent. Roots stay roots and the forest stays well-formed. |
| FibonacciCutting.KeyLowered | algorithme.py:317-318 | Lowering a key keeps the forest well-formed and heap-ordered except between the node and its parent, and wholly so when the parent's key is not above the new key. |
| FibonacciHeaps.CatalogueAdd | algorithme.py:162 | Recording the new node of an absent vertex adds that vertex's key. |
| FibonacciHeaps.CatalogueRemove | algorithme.py:277 | Forgetting the minimum's vertex removes exactly that vertex's key. |
| FibonacciHeaps.CatalogueRekey | algorithme.py:317 | Changing one node's key changes exactly its vertex's key. |
| FibonacciHeaps.CatalogueDomain | algorithme.py:155 | Every vertex in noeuds has a key in the heap's contents. |
| FibonacciHeaps.InsertFirst | algorithme.py:164-165 | The first node of an empty heap is its minimum and only root. |
| FibonacciHeaps.InsertMinimum | algorithme.py:172-173 | The new node holds the least key when its key is below the old minimum's, and the old minimum still does otherwise. |
| FibonacciHeaps.InsertSpliced | algorithme.py:167-173 | The spliced node makes a well-formed forest whose first root is the minimum. |
| FibonacciHeaps.InsertSplicedInvariant | algorithme.py:160-176 | Splicing in a new node keeps the heap's invariant and adds the vertex with its key. |
| FibonacciHeaps.HeapInsert | algorithme.py:160-176 | The vertex is added with its key and its node gets the next handle. The node becomes min_node exactly when the heap was empty or its key is smaller, and taille grows by one. |
| FibonacciHeaps.MinimumEntry | algorithme.py:247-248 | min_node's vertex is in the heap with a least key. |
| FibonacciHeaps.ExtractedInvariant | algorithme.py:267-278 | Removing the minimum's node keeps the invariant with taille one less, and removes exactly its vertex. |
| FibonacciHeaps.HeapExtractMin | algorithme.py:243-278 | None exactly when empty, and then nothing changes. Otherwise returns a vertex of least key and removes it from the contents and from noeuds. taille drops by one. |
| FibonacciHeaps.UncutBelowMinimum | algorithme.py:320-325 | A node whose new key needs no cut is a root, or its key is not below the minimum's. |
| FibonacciHeaps.DecreasedMinimum | algorithme.py:324-325 | After the key change a least key is the node's when it is below the old minimum's, and the old minimum's otherwise. |
| FibonacciHeaps.CutAndCascade | algorithme.py:320-322 | Cutting then cascading from the parent keeps the forest well-formed. The node ends a root without a mark, and keys and values are kept. |
| FibonacciHeaps.HeapDecreaseKey | algorithme.py:310-325 | None: nothing. A larger key: failure (the ValueError) and no change. Otherwise the vertex's key becomes the new key and the invariant is kept; the node is cut to the roots, unmarked, when the key falls below its parent's, and becomes min_node exactly when the key is below the minimum's. |
| FibonacciHeaps.FibonacciHeap.constructor | algorithme.py:152-155 | A new heap is valid and empty. |
| FibonacciHeaps.FibonacciHeap.IsEmpty | algorithme.py:157-158 | True exactly when the heap holds no vertex. |
| FibonacciHeaps.FibonacciHeap.Insert | algorithme.py:160-176 | Adds the vertex with its key, records its new node in noeuds and updates min_node and taille, per HeapInsert. |
| FibonacciHeaps.FibonacciHeap.ExtractMin | algorithme.py:243-278 | None exactly when empty. Otherwise a vertex of least key, removed from the contents and from noeuds, and taille drops by one. |
| FibonacciHeaps.FibonacciHeap.DecreaseKey | algorithme.py:310-325 | For the node of a vertex: success exactly when the new key is not larger than the vertex's key, and then the vertex's key is the new one; otherwise nothing changes. min_node is updated as in HeapDecreaseKey. |
| DijkstraFibonacciHeap.QueueAt | algorithme.py:440-443 | Lowering the key of an existing node, or adding a node for a new vertex, queues the vertex at its new distance. The local noeuds stays in step with the heap. |
| DijkstraFibonacciHeap.TakeLeast | algorithme.py:421 | Takes out a vertex of least queued distance. |
| DijkstraFibonacciHeap.RelaxEdge | algorithme.py:431-443 | Relaxing one edge keeps the heap in step with the queue and the invariant. A relaxed vertex is never done, so a stale node is never touched. |
| DijkstraFibonacciHeap.RelaxSuccessors | algorithme.py:428-443 | After all of u's edges, the invariant holds with nothing pending. |
| DijkstraFibonacciHeap.SettleNext | algorithme.py:420-443 | One turn of the main loop keeps the invariant and marks one more vertex done. The test on traites never fires. |
| DijkstraFibonacciHeap.DijkstraFibonacci | algorithme.py:400-445 | The same guarantees as DijkstraTas: every distance shortest, predecessors for the vertices only and along tight edges. |
| DijkstraFibonacciHeap.ShortestTablesEqual | algorithme.py:448-466 | Two tables of shortest distances over the same vertices are equal. |
| DijkstraFibonacciHeap.CompareAlgorithms | algorithme.py:448-466 | On a graph without negative weights, Bellman-Ford reports no negative cycle, and the three algorithms run on the same graph and source return the same distances. |

## Left out

- Reading the GTFS files with pandas, building the graph from `stop_times`, choosing the start stop, timing with `time.time()`, printing and plotting are I/O. They are not modelled, and the graph is a parameter.
- `tester_performances` returns only elapsed times, which are not modelled. DijkstraFibonacciHeap.CompareAlgorithms runs the same three calls and states how their results relate.
- The random draw `random.sample` in `creer_sous_graphes` is not modelled. The sample for each size is a parameter, constrained to be a legal draw.
- Subgraphs.CreateSubgraphs: requires every size to be non-negative. `random.sample` raises ValueError for a negative size, and that error is not modelled.
- TimeParsing.ParseInt: accepts an optional sign and ASCII digits only. Python's `int` also accepts surrounding whitespace, underscores between digits and non-ASCII digits.
- The iteration order of Python dicts and sets is not modelled. Loops pick the next key arbitrarily, so every contract holds for every order. The order of the roots after `_consolider` therefore follows one order of `tableau_degre.items()` and is not pinned to insertion order.
- `float('inf')` is the constructor `Unreached` of `Distance`. No floating point is modelled, and weights are unbounded integers.
- BinaryHeap.Tas.Insert: requires the vertex to be absent. `ajouter` on a queued vertex appends a second entry and re-points its position, which `dijkstra_tas` never does, because it adds only through `diminuer_clef`.
- FibonacciHeaps.FibonacciHeap.Insert, FibonacciHeaps.HeapInsert: require the vertex to be absent. `ajouter` on a present vertex overwrites its entry in `noeuds` and leaves the old node in the heap, which `dijkstra_fibonacci` never does.
- FibonacciHeaps.FibonacciHeap.DecreaseKey, FibonacciHeaps.HeapDecreaseKey: require the node to be None or the node of a vertex in the heap. `diminuer_clef` on a node that was already extracted would corrupt the heap. `dijkstra_fibonacci` never does this with non-negative weights, as RelaxEdge proves.
- DijkstraBinaryHeap.DijkstraTas and DijkstraFibonacciHeap.DijkstraFibonacci: require non-negative weights, the setting Dijkstra's algorithm is for. With a negative weight the program's functions can return non-shortest distances, and no contract is stated for that case.
- Node objects and references are modelled as an arena of records indexed by handle. Object identity comparisons (`current == stop`) are handle comparisons, and aliasing outside the heap is not modelled.
- The marks of children promoted by `extraire_min` are not cleared, as in the program. Marks are not part of the forest's invariant, so no contract mentions them beyond the cuts.
- No amortised running-time bound is stated. The model proves functional behaviour only.
