// The Fibonacci heap used by the second variant of Dijkstra's algorithm.
//
// The program links node objects by reference; here the nodes live in an
// arena (the sequence `nodes`) and refer to each other by handle. The heap
// keeps the handle of a minimum root, its number of nodes and, for each
// vertex in it, the handle of the vertex's node. The ghost field `forest`
// names the rings and ranks that the invariant talks about; the abstract
// value of the heap is the map from each vertex in it to its key.

module FibonacciHeaps {
  import opened Graphs
  import opened FibonacciArena
  import opened FibonacciForest
  import opened FibonacciConsolidation
  import opened FibonacciExtraction
  import opened FibonacciCutting

  /** handles maps each vertex with a live node to that node, and nothing else. */
  ghost predicate Catalogue(nodes: seq<Node>, live: set<int>, handles: map<Vertex, int>)
  {
    (forall v :: v in handles ==> handles[v] in live && 0 <= handles[v] < |nodes| && nodes[handles[v]].value == v) &&
    (forall x :: x in live ==> 0 <= x < |nodes| && nodes[x].value in handles && handles[nodes[x].value] == x)
  }

  /** The key of every vertex that has a node. */
  ghost function KeysOf(nodes: seq<Node>, handles: map<Vertex, int>): map<Vertex, int>
  {
    map v | v in handles && 0 <= handles[v] < |nodes| :: nodes[handles[v]].key
  }

  /** minNode is NIL exactly when there are no roots, and otherwise is the first root and holds a least key. */
  ghost predicate MinimumFirst(nodes: seq<Node>, f: Forest, minNode: int)
  {
    (minNode == NIL <==> f.roots == []) &&
    (f.roots != [] ==>
       f.roots[0] == minNode && 0 <= minNode < |nodes| &&
       (forall z :: z in f.live && 0 <= z < |nodes| ==> nodes[minNode].key <= nodes[z].key))
  }

  /** The heap's invariant over its fields and its forest. */
  ghost predicate Invariant(nodes: seq<Node>, f: Forest, minNode: int, size: int, handles: map<Vertex, int>)
  {
    Shape(nodes, f) && Catalogue(nodes, f.live, handles) && size == |f.live| && MinimumFirst(nodes, f, minNode)
  }

  /** The catalogue and the keys survive any change of the arena that keeps values and keys. */
  lemma CatalogueFrame(nodes: seq<Node>, n': seq<Node>, live: set<int>, handles: map<Vertex, int>)
    requires Catalogue(nodes, live, handles) && |nodes| <= |n'|
    requires forall z :: 0 <= z < |nodes| ==> SameEntry(n'[z], nodes[z])
    ensures Catalogue(n', live, handles) && KeysOf(n', handles) == KeysOf(nodes, handles)
  {
  }

  /** Every catalogued vertex has a key. */
  lemma CatalogueDomain(nodes: seq<Node>, live: set<int>, handles: map<Vertex, int>)
    requires Catalogue(nodes, live, handles)
    ensures KeysOf(nodes, handles).Keys == handles.Keys
  {
  }

  /** Cataloguing a new live node x for a vertex not yet in the heap. */
  lemma CatalogueAdd(nodes: seq<Node>, live: set<int>, handles: map<Vertex, int>, x: int)
    requires Catalogue(nodes, live, handles) && 0 <= x < |nodes| && x !in live && nodes[x].value !in handles
    ensures Catalogue(nodes, live + {x}, handles[nodes[x].value := x])
    ensures KeysOf(nodes, handles[nodes[x].value := x]) == KeysOf(nodes, handles)[nodes[x].value := nodes[x].key]
  {
    var v := nodes[x].value;
    var h := handles[v := x];
    assert KeysOf(nodes, h).Keys == KeysOf(nodes, handles).Keys + {v};
  }

  /** Forgetting the live node m: its vertex leaves the catalogue and the keys, across any change that keeps entries. */
  lemma CatalogueRemove(nodes: seq<Node>, n': seq<Node>, live: set<int>, handles: map<Vertex, int>, m: int)
    requires Catalogue(nodes, live, handles) && m in live && |n'| == |nodes|
    requires forall z :: 0 <= z < |nodes| ==> SameEntry(n'[z], nodes[z])
    ensures var v := nodes[m].value;
      Catalogue(n', live - {m}, handles - {v}) && KeysOf(n', handles - {v}) == KeysOf(nodes, handles) - {v}
  {
    CatalogueFrame(nodes, n', live, handles);
    var v := nodes[m].value;
    assert KeysOf(n', handles - {v}).Keys == KeysOf(nodes, handles).Keys - {v};
  }

  /** A fresh node added to an empty heap is its minimum and only node. */
  lemma InsertFirst(nodes: seq<Node>, f: Forest, minNode: int, size: int, handles: map<Vertex, int>, key: int, value: Vertex)
    requires Invariant(nodes, f, minNode, size, handles) && minNode == NIL && value !in handles
    ensures var x := |nodes|; var n1 := nodes + [Fresh(key, value, x)];
      Invariant(n1, Grown(f, x).(roots := [x]), x, size + 1, handles[value := x]) &&
      KeysOf(n1, handles[value := x]) == KeysOf(nodes, handles)[value := key]
  {
    var x := |nodes|;
    var n1 := nodes + [Fresh(key, value, x)];
    RootsNonEmpty(nodes, f);
    AddFirst(nodes, f, key, value);
    CatalogueFrame(nodes, n1, f.live, handles);
    CatalogueAdd(n1, f.live, handles, x);
  }

  /** A new node x of the given key: the least key is x's when it is below the old least key, and the old one's otherwise. */
  lemma InsertMinimum(nodes: seq<Node>, n': seq<Node>, live: set<int>, minNode: int, key: int)
    requires 0 <= minNode < |nodes| && forall z :: z in live && 0 <= z < |nodes| ==> nodes[minNode].key <= nodes[z].key
    requires |n'| == |nodes| + 1 && n'[|nodes|].key == key && forall z :: 0 <= z < |nodes| ==> n'[z].key == nodes[z].key
    ensures var x := |nodes|; var m := if key < nodes[minNode].key then x else minNode;
      forall z :: z in live + {x} && 0 <= z < |n'| ==> n'[m].key <= n'[z].key
  {
  }

  /**
   * A fresh node spliced left of the minimum root: the forest grows by one
   * root, listed first when its key is smaller than the minimum's and last
   * otherwise.
   */
  lemma InsertSpliced(nodes: seq<Node>, n': seq<Node>, f: Forest, minNode: int, key: int, value: Vertex)
    requires Shape(nodes, f) && MinimumFirst(nodes, f, minNode) && minNode != NIL
    requires var x := |nodes|;
      |n'| == x + 1 && Ring(n', f.roots + [x]) && Relinked(n'[x], Fresh(key, value, x)) &&
      (forall z :: 0 <= z < |nodes| ==> Relinked(n'[z], nodes[z])) &&
      (forall z :: 0 <= z < |nodes| && z != f.roots[0] && z != f.roots[|f.roots| - 1] ==> n'[z] == nodes[z])
    ensures var x := |nodes|; var smaller := key < nodes[minNode].key;
      var g := Grown(f, x).(roots := if smaller then [x] + f.roots else f.roots + [x]);
      Shape(n', g) && MinimumFirst(n', g, if smaller then x else minNode)
  {
    var x := |nodes|;
    var g := Grown(f, x);
    assert forall z :: 0 <= z < |nodes| ==> SameShape(n'[z], nodes[z]) by {
      forall z | 0 <= z < |nodes| ensures SameShape(n'[z], nodes[z]) {
        assert Relinked(n'[z], nodes[z]);
      }
    }
    AddRoot(nodes, n', f, x);
    RootsNonEmpty(nodes, f);
    InsertMinimum(nodes, n', f.live, minNode, key);
    if key < nodes[minNode].key {
      var r := f.roots + [x];
      RootsRotate(n', g.(roots := r), |f.roots|);
      assert r[|f.roots|..] + r[..|f.roots|] == [x] + f.roots;
    }
  }

  /** The catalogue gains the fresh node of a vertex not yet in the heap. */
  lemma InsertCatalogued(nodes: seq<Node>, n': seq<Node>, live: set<int>, handles: map<Vertex, int>, key: int, value: Vertex)
    requires Catalogue(nodes, live, handles) && value !in handles
    requires |n'| == |nodes| + 1 && SameEntry(n'[|nodes|], Fresh(key, value, |nodes|))
    requires forall z :: 0 <= z < |nodes| ==> Relinked(n'[z], nodes[z])
    ensures var x := |nodes|;
      Catalogue(n', live + {x}, handles[value := x]) && KeysOf(n', handles[value := x]) == KeysOf(nodes, handles)[value := key]
  {
    var x := |nodes|;
    assert x !in live;
    forall z | 0 <= z < |nodes| ensures SameEntry(n'[z], nodes[z]) {
      assert Relinked(n'[z], nodes[z]);
    }
    CatalogueFrame(nodes, n', live, handles);
    CatalogueAdd(n', live, handles, x);
  }

  /** Both halves together: the heap's invariant holds of the grown heap. */
  lemma InsertSplicedInvariant(nodes: seq<Node>, n': seq<Node>, f: Forest, minNode: int, size: int, handles: map<Vertex, int>,
                               key: int, value: Vertex)
    requires Invariant(nodes, f, minNode, size, handles) && minNode != NIL && value !in handles
    requires var x := |nodes|;
      |n'| == x + 1 && Ring(n', f.roots + [x]) && Relinked(n'[x], Fresh(key, value, x)) &&
      (forall z :: 0 <= z < |nodes| ==> Relinked(n'[z], nodes[z])) &&
      (forall z :: 0 <= z < |nodes| && z != f.roots[0] && z != f.roots[|f.roots| - 1] ==> n'[z] == nodes[z])
    ensures var x := |nodes|; var smaller := key < nodes[minNode].key;
      Invariant(n', Grown(f, x).(roots := if smaller then [x] + f.roots else f.roots + [x]),
                if smaller then x else minNode, size + 1, handles[value := x]) &&
      KeysOf(n', handles[value := x]) == KeysOf(nodes, handles)[value := key]
  {
    var x := |nodes|;
    InsertSpliced(nodes, n', f, minNode, key, value);
    assert SameEntry(n'[x], Fresh(key, value, x));
    InsertCatalogued(nodes, n', f.live, handles, key, value);
    assert x !in f.live;
  }

  /**
   * The program's ajouter: a fresh node for vertex value (not in the heap)
   * with the given key joins the root ring left of the minimum, or is the
   * only root of an empty heap, and becomes the minimum when its key is
   * smaller; the heap then holds one more entry.
   */
  method HeapInsert(nodes: seq<Node>, ghost f: Forest, minNode: int, size: int, handles: map<Vertex, int>, key: int, value: Vertex)
    returns (nodes': seq<Node>, ghost f': Forest, minNode': int, size': int, handles': map<Vertex, int>, handle: int)
    requires Invariant(nodes, f, minNode, size, handles) && value !in handles
    ensures Invariant(nodes', f', minNode', size', handles')
    ensures KeysOf(nodes', handles') == KeysOf(nodes, handles)[value := key]
    ensures handle == |nodes| && handles' == handles[value := handle] && f'.live == f.live + {handle} && size' == size + 1
    ensures minNode' == if minNode == NIL || key < nodes[minNode].key then handle else minNode
  {
    handle := |nodes|;
    var noeud := Fresh(key, value, handle);
    if minNode == NIL {
      InsertFirst(nodes, f, minNode, size, handles, key, value);
      nodes', f', minNode' := nodes + [noeud], Grown(f, handle).(roots := [handle]), handle;
    } else {
      var n1 := nodes + [noeud];
      assert Ring(nodes, f.roots);
      RingFrame(nodes, n1, f.roots);
      assert handle !in f.roots;
      nodes' := SpliceLeftOf(n1, minNode, handle, f.roots);
      InsertSplicedInvariant(nodes, nodes', f, minNode, size, handles, key, value);
      if key < nodes[minNode].key {
        f', minNode' := Grown(f, handle).(roots := [handle] + f.roots), handle;
      } else {
        f', minNode' := Grown(f, handle).(roots := f.roots + [handle]), minNode;
      }
    }
    handles' := handles[value := handle];
    size' := size + 1;
  }

  /** The vertex of the minimum node is in the heap and has a least key. */
  lemma MinimumEntry(nodes: seq<Node>, f: Forest, minNode: int, size: int, handles: map<Vertex, int>)
    requires Invariant(nodes, f, minNode, size, handles) && minNode != NIL
    ensures minNode in f.live && 0 <= minNode < |nodes|
    ensures var v := nodes[minNode].value; var keys := KeysOf(nodes, handles);
      v in handles && handles[v] == minNode && v in keys && forall w :: w in keys ==> keys[v] <= keys[w]
  {
    assert minNode in f.roots;
  }

  /** After the minimum m has left, with entries kept, the invariant holds of the smaller heap. */
  lemma ExtractedInvariant(nodes: seq<Node>, n': seq<Node>, f: Forest, f': Forest, m: int, minNode': int, size: int, handles: map<Vertex, int>)
    requires Invariant(nodes, f, m, size, handles) && m != NIL
    requires |n'| == |nodes| && forall z :: 0 <= z < |nodes| ==> SameEntry(n'[z], nodes[z])
    requires Shape(n', f') && f'.live == f.live - {m} && MinimumFirst(n', f', minNode')
    ensures var v := nodes[m].value;
      Invariant(n', f', minNode', size - 1, handles - {v}) && KeysOf(n', handles - {v}) == KeysOf(nodes, handles) - {v}
  {
    MinimumEntry(nodes, f, m, size, handles);
    CatalogueRemove(nodes, n', f.live, handles, m);
  }

  /**
   * The program's extraire_min: on an empty heap, None and no change;
   * otherwise the vertex of the minimum node, whose key is the least, after
   * its children have joined the root ring, it has left the ring, and the
   * ring has been consolidated (unless nothing is left in it).
   */
  method HeapExtractMin(nodes: seq<Node>, ghost f: Forest, minNode: int, size: int, handles: map<Vertex, int>)
    returns (nodes': seq<Node>, ghost f': Forest, minNode': int, size': int, handles': map<Vertex, int>, result: Option<Vertex>)
    requires Invariant(nodes, f, minNode, size, handles)
    ensures Invariant(nodes', f', minNode', size', handles')
    ensures result.None? <==> KeysOf(nodes, handles) == map[]
    ensures result.None? ==> nodes' == nodes && f' == f && minNode' == minNode && size' == size && handles' == handles
    ensures result.Some? ==>
      var v := result.value; var keys := KeysOf(nodes, handles);
      v in keys && (forall w :: w in keys ==> keys[v] <= keys[w]) &&
      KeysOf(nodes', handles') == keys - {v} && handles' == handles - {v} && size' == size - 1 &&
      f'.live == f.live - {handles[v]}
  {
    if minNode == NIL {
      RootsNonEmpty(nodes, f);
      assert forall v :: v !in handles;
      return nodes, f, minNode, size, handles, None;
    }
    var m := minNode;
    var valeur := nodes[m].value;
    MinimumEntry(nodes, f, m, size, handles);
    var n1, g, right := RemoveMin(nodes, f, m);
    if m == right {
      nodes', f', minNode' := n1, g, NIL;
    } else {
      nodes', f', minNode' := Consolidate(n1, g, right);
    }
    assert MinimumFirst(nodes', f', minNode');
    forall z | 0 <= z < |nodes| ensures SameEntry(nodes'[z], nodes[z]) {
      assert SameEntry(nodes'[z], n1[z]) && SameEntry(n1[z], nodes[z]);
    }
    ExtractedInvariant(nodes, nodes', f, f', m, minNode', size, handles);
    size' := size - 1;
    handles' := handles - {valeur};
    result := Some(valeur);
  }

  /** The live node x takes the key k and every other entry is kept: x's vertex now has key k. */
  lemma CatalogueRekey(nodes: seq<Node>, n': seq<Node>, live: set<int>, handles: map<Vertex, int>, x: int, k: int)
    requires Catalogue(nodes, live, handles) && x in live && |n'| == |nodes|
    requires n'[x] == n'[x].(value := nodes[x].value, key := k)
    requires forall z :: 0 <= z < |nodes| && z != x ==> SameEntry(n'[z], nodes[z])
    ensures Catalogue(n', live, handles) && KeysOf(n', handles) == KeysOf(nodes, handles)[nodes[x].value := k]
  {
    var v := nodes[x].value;
    assert KeysOf(n', handles).Keys == KeysOf(nodes, handles).Keys;
    forall w | w in KeysOf(n', handles) ensures KeysOf(n', handles)[w] == KeysOf(nodes, handles)[v := k][w] {
      if w != v {
        assert handles[w] != x;
      }
    }
  }

  /** A node whose new key k needs no cut is a root, or no lighter than the minimum. */
  lemma UncutBelowMinimum(nodes: seq<Node>, f: Forest, minNode: int, x: int, k: int)
    requires Shape(nodes, f) && MinimumFirst(nodes, f, minNode) && x in f.live
    requires nodes[x].parent == NIL || (0 <= nodes[x].parent < |nodes| && nodes[nodes[x].parent].key <= k)
    ensures x in f.roots || (f.roots != [] && nodes[minNode].key <= k)
  {
    RootsNonEmpty(nodes, f);
    if x !in f.roots {
      assert nodes[x].parent in f.live;
    }
  }

  /** With only x's key lowered to k, a least key is x's when k is below the old least key, and the old one's otherwise. */
  lemma LeastKeyAfterLowering(nodes: seq<Node>, n': seq<Node>, live: set<int>, minNode: int, x: int, k: int)
    requires 0 <= minNode < |nodes| && x in live && 0 <= x < |nodes| && k <= nodes[x].key && |n'| == |nodes|
    requires forall z :: z in live && 0 <= z < |nodes| ==> nodes[minNode].key <= nodes[z].key
    requires n'[x].key == k && forall z :: 0 <= z < |nodes| && z != x ==> n'[z].key == nodes[z].key
    ensures var m := if k < nodes[minNode].key then x else minNode;
      forall z :: z in live && 0 <= z < |n'| ==> n'[m].key <= n'[z].key
  {
  }

  /**
   * After x's key is lowered to k (and x cut if need be), with the first
   * root still the old minimum: the forest whose first root has a least key,
   * which is x exactly when k is below the old minimum's key.
   */
  lemma DecreasedMinimum(nodes: seq<Node>, n': seq<Node>, f: Forest, f': Forest, minNode: int, x: int, k: int) returns (g: Forest)
    requires MinimumFirst(nodes, f, minNode) && f.roots != [] && x in f.live && 0 <= x < |nodes| && k <= nodes[x].key
    requires Shape(n', f') && f'.live == f.live && f'.roots != [] && f'.roots[0] == minNode && |n'| == |nodes|
    requires n'[x].key == k && forall z :: 0 <= z < |nodes| && z != x ==> n'[z].key == nodes[z].key
    requires x in f'.roots || nodes[minNode].key <= k
    ensures Shape(n', g) && g.live == f.live && MinimumFirst(n', g, if k < nodes[minNode].key then x else minNode)
  {
    LeastKeyAfterLowering(nodes, n', f.live, minNode, x, k);
    if k < nodes[minNode].key {
      var i :| 0 <= i < |f'.roots| && f'.roots[i] == x;
      RootsRotate(n', f', i);
      g := f'.(roots := f'.roots[i..] + f'.roots[..i]);
      assert g.roots[0] == x;
    } else {
      g := f';
    }
  }

  /** The program's _couper of x from its parent p followed by _couper_en_cascade from p: x ends a root, unmarked. */
  method CutAndCascade(nodes: seq<Node>, ghost f: Forest, x: int, p: int, minNode: int) returns (nodes': seq<Node>, ghost f': Forest)
    requires ShapeCut(nodes, f, x) && x in f.live && nodes[x].parent == p && p != NIL && f.roots != [] && minNode == f.roots[0]
    ensures Shape(nodes', f') && f'.live == f.live && |nodes'| == |nodes| && f'.roots != [] && f'.roots[0] == minNode && x in f'.roots
    ensures forall z :: 0 <= z < |nodes| ==> SameEntry(nodes'[z], nodes[z])
    ensures nodes'[x].parent == NIL && !nodes'[x].mark
  {
    nodes', f' := Cut(nodes, f, x, p, minNode);
    ghost var n2 := nodes';
    ghost var f2 := f';
    assert p in f2.live;
    nodes', f' := CascadingCut(nodes', f', minNode, p);
    assert f'.roots[|f.roots|] == f2.roots[|f.roots|] == x;
    forall z | 0 <= z < |nodes| ensures SameEntry(nodes'[z], nodes[z]) {
      assert SameEntry(nodes'[z], n2[z]);
    }
  }

  /**
   * The program's diminuer_clef on the node x (NIL for None): nothing for
   * NIL; an error (ok false) and no change when k exceeds x's key; otherwise
   * x takes the key k, is cut into the root ring with a cascade of cuts above
   * it when k is below its parent's key, and becomes the minimum when k is
   * below the minimum's key.
   */
  method HeapDecreaseKey(nodes: seq<Node>, ghost f: Forest, minNode: int, size: int, handles: map<Vertex, int>, x: int, k: int)
    returns (nodes': seq<Node>, ghost f': Forest, minNode': int, ok: bool)
    requires Invariant(nodes, f, minNode, size, handles)
    requires x == NIL || (x in f.live && 0 <= x < |nodes| && 0 <= minNode < |nodes|)
    ensures Invariant(nodes', f', minNode', size, handles) && f'.live == f.live && |nodes'| == |nodes|
    ensures ok <==> x == NIL || k <= nodes[x].key
    ensures !ok || x == NIL ==> nodes' == nodes && f' == f && minNode' == minNode
    ensures ok && x != NIL ==>
      KeysOf(nodes', handles) == KeysOf(nodes, handles)[nodes[x].value := k] &&
      minNode' == (if k < nodes[minNode].key then x else minNode)
    ensures ok && x != NIL && nodes[x].parent != NIL && 0 <= nodes[x].parent < |nodes| && k < nodes[nodes[x].parent].key ==>
      nodes'[x].parent == NIL && !nodes'[x].mark
  {
    if x == NIL {
      return nodes, f, minNode, true;
    }
    if k > nodes[x].key {
      return nodes, f, minNode, false;
    }
    ok := true;
    RootsNonEmpty(nodes, f);
    var n1 := nodes[x := nodes[x].(key := k)];
    KeyLowered(nodes, n1, f, x, k);
    var parent := n1[x].parent;
    if parent != NIL {
      ParentAbove(nodes, f, x);
    }
    if parent != NIL && n1[x].key < n1[parent].key {
      nodes', f' := CutAndCascade(n1, f, x, parent, minNode);
    } else {
      nodes', f' := n1, f;
      UncutBelowMinimum(nodes, f, minNode, x, k);
    }
    ghost var g := DecreasedMinimum(nodes, nodes', f, f', minNode, x, k);
    if nodes'[x].key < nodes'[minNode].key {
      minNode' := x;
    } else {
      minNode' := minNode;
    }
    f' := g;
    CatalogueRekey(nodes, nodes', f.live, handles, x, k);
  }

  class FibonacciHeap {
    /** The node arena; a handle is an index into it. */
    var nodes: seq<Node>
    /** The handle of a minimum root, or NIL when the heap is empty (the program's min_node). */
    var minNode: int
    /** The number of nodes in the heap (the program's taille). */
    var size: int
    /** The node of each vertex in the heap (the program's noeuds). */
    var handles: map<Vertex, int>
    ghost var forest: Forest

    ghost predicate Valid()
      reads this
    {
      Invariant(nodes, forest, minNode, size, handles) && handles.Keys == Contents().Keys
    }

    ghost function Contents(): map<Vertex, int>
      reads this
    {
      KeysOf(nodes, handles)
    }

    constructor ()
      ensures Valid() && Contents() == map[] && nodes == []
    {
      nodes := [];
      minNode := NIL;
      size := 0;
      handles := map[];
      forest := Forest([], [], {}, [], 1);
    }

    /** Whether the heap has no node. */
    method IsEmpty() returns (empty: bool)
      requires Valid()
      ensures empty <==> Contents() == map[]
    {
      empty := minNode == NIL;
      RootsNonEmpty(nodes, forest);
      if !empty {
        assert forest.roots[0] in forest.roots;
        var v := nodes[minNode].value;
        assert v in handles && handles[v] == minNode;
        assert v in Contents();
      }
    }

    /**
     * Adds a node with the given key for vertex value, which must not be in
     * the heap, as a new root; it becomes the minimum when its key is smaller.
     */
    method Insert(key: int, value: Vertex) returns (handle: int)
      requires Valid() && value !in Contents()
      modifies this
      ensures Valid() && Contents() == old(Contents())[value := key]
      ensures handle == old(|nodes|) && handles == old(handles)[value := handle]
      ensures minNode == if old(minNode) == NIL || key < old(nodes[minNode].key) then handle else old(minNode)
      ensures forest.live == old(forest.live) + {handle} && size == old(size) + 1
    {
      var n', m', s', h';
      ghost var f';
      n', f', m', s', h', handle := HeapInsert(nodes, forest, minNode, size, handles, key, value);
      CatalogueDomain(n', f'.live, h');
      nodes, forest, minNode, size, handles := n', f', m', s', h';
    }

    /** Removes a node of least key and returns its vertex, or None when the heap is empty. */
    method ExtractMin() returns (result: Option<Vertex>)
      requires Valid()
      modifies this
      ensures Valid()
      ensures result.None? <==> old(Contents()) == map[]
      ensures result.None? ==> Contents() == old(Contents())
      ensures result.Some? ==>
        var v := result.value;
        v in old(Contents()) && (forall w :: w in old(Contents()) ==> old(Contents())[v] <= old(Contents())[w]) &&
        Contents() == old(Contents()) - {v} && handles == old(handles) - {v} && size == old(size) - 1
    {
      var n', m', s', h';
      ghost var f';
      n', f', m', s', h', result := HeapExtractMin(nodes, forest, minNode, size, handles);
      CatalogueDomain(n', f'.live, h');
      nodes, forest, minNode, size, handles := n', f', m', s', h';
    }

    /**
     * Lowers the key of node x (NIL: nothing happens) to k; fails, changing
     * nothing, when k exceeds its key. On success x's vertex has key k and x
     * is the new minimum when k is below the old minimum's key.
     */
    method DecreaseKey(x: int, k: int) returns (ok: bool)
      requires Valid() && (x == NIL || x in handles.Values)
      modifies this
      ensures Valid() && handles == old(handles) && size == old(size) && forest.live == old(forest.live)
      ensures x == NIL ==> ok && Contents() == old(Contents()) && minNode == old(minNode)
      ensures forall v :: v in handles && handles[v] == x ==>
        (ok <==> k <= old(Contents())[v]) &&
        (ok ==> Contents() == old(Contents())[v := k]) &&
        (!ok ==> Contents() == old(Contents()) && minNode == old(minNode))
      ensures x != NIL ==> 0 <= old(minNode) < old(|nodes|)
      ensures x != NIL && ok ==> minNode == if k < old(nodes[minNode].key) then x else old(minNode)
    {
      if x != NIL {
        ghost var v :| v in handles && handles[v] == x;
        assert x in forest.live;
        RootsNonEmpty(nodes, forest);
      }
      var n', m';
      ghost var f';
      n', f', m', ok := HeapDecreaseKey(nodes, forest, minNode, size, handles, x, k);
      CatalogueDomain(n', f'.live, handles);
      nodes, forest, minNode := n', f', m';
    }
  }
}
