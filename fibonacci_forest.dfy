// The forest of a Fibonacci heap, described over the node arena.
//
// A Forest is the ghost picture of the arena: the root ring, the child ring
// of each node, the set of live handles (nodes still in the heap) and a rank
// per node that strictly decreases from a parent to its children, bounding
// the depth of every tree. The predicates take the parts of the picture they
// depend on, so that changing one part leaves the facts about the others as
// they were.

module FibonacciForest {
  import opened Graphs
  import opened FibonacciArena

  datatype Forest = Forest(roots: seq<int>, kids: seq<seq<int>>, live: set<int>, rank: seq<int>, height: int)

  /** The live handles lie inside the arena. */
  ghost predicate Inside(nodes: seq<Node>, live: set<int>)
  {
    forall x :: x in live ==> 0 <= x < |nodes|
  }

  /** The roots form one ring (or there are none) of live, parentless nodes. */
  ghost predicate RootRing(nodes: seq<Node>, roots: seq<int>, live: set<int>)
  {
    (roots != [] ==> Ring(nodes, roots)) &&
    forall y {:trigger y in roots} :: y in roots ==> y in live && 0 <= y < |nodes| && nodes[y].parent == NIL
  }

  /**
   * The children of x form its child ring, entered at x.child, and number
   * x.degree; each is live, has x as parent, a smaller rank and (except the
   * child `cut`, which is about to be cut) a key no smaller than x's.
   */
  ghost predicate Tree(nodes: seq<Node>, kids: seq<seq<int>>, live: set<int>, rank: seq<int>, x: int, cut: int)
  {
    0 <= x < |nodes| && |kids| == |nodes| && |rank| == |nodes| &&
    var k := kids[x];
    (if k == [] then nodes[x].child == NIL else Ring(nodes, k) && nodes[x].child == k[0]) &&
    nodes[x].degree == |k| &&
    forall i :: 0 <= i < |k| ==>
      k[i] in live && nodes[k[i]].parent == x && rank[k[i]] < rank[x] &&
      (k[i] != cut ==> nodes[x].key <= nodes[k[i]].key)
  }

  /** Tree holds at every member of inner (instantiated only where a Tree term is mentioned). */
  ghost predicate Trees(nodes: seq<Node>, kids: seq<seq<int>>, live: set<int>, rank: seq<int>, inner: set<int>, cut: int)
  {
    forall x {:trigger Tree(nodes, kids, live, rank, x, cut)} :: x in inner ==> Tree(nodes, kids, live, rank, x, cut)
  }

  /** Every live node is a root or a child of its live parent. */
  ghost predicate Covered(nodes: seq<Node>, roots: seq<int>, kids: seq<seq<int>>, live: set<int>)
  {
    Inside(nodes, live) && |kids| == |nodes| &&
    forall y {:trigger nodes[y]} :: y in live ==> y in roots || (nodes[y].parent in live && y in kids[nodes[y].parent])
  }

  /** Ranks of live nodes lie in [0, height). */
  ghost predicate Ranked(live: set<int>, rank: seq<int>, height: int)
  {
    height >= 1 && forall x :: x in live ==> 0 <= x < |rank| && 0 <= rank[x] < height
  }

  /** A well-formed forest, heap-ordered except possibly between `cut` and its parent. */
  ghost predicate ShapeCut(nodes: seq<Node>, f: Forest, cut: int)
  {
    |f.kids| == |nodes| && |f.rank| == |nodes| &&
    RootRing(nodes, f.roots, f.live) && Trees(nodes, f.kids, f.live, f.rank, f.live, cut) &&
    Covered(nodes, f.roots, f.kids, f.live) && Ranked(f.live, f.rank, f.height)
  }

  /** A well-formed, heap-ordered forest. */
  ghost predicate Shape(nodes: seq<Node>, f: Forest)
  {
    ShapeCut(nodes, f, NIL)
  }

  /** Tree(x) depends only on x, its children and their entries. */
  lemma TreeFrame(n: seq<Node>, n': seq<Node>, kids: seq<seq<int>>, kids': seq<seq<int>>, live: set<int>, live': set<int>,
                  rank: seq<int>, rank': seq<int>, x: int, cut: int)
    requires Tree(n, kids, live, rank, x, cut) && |n| <= |n'| && |kids'| == |n'| && |rank'| == |n'|
    requires kids'[x] == kids[x] && rank'[x] == rank[x]
    requires n'[x].key == n[x].key && n'[x].child == n[x].child && n'[x].degree == n[x].degree
    requires forall i :: 0 <= i < |kids[x]| ==>
      kids[x][i] in live' && rank'[kids[x][i]] == rank[kids[x][i]] &&
      SameShape(n'[kids[x][i]], n[kids[x][i]]) && SameLinks(n'[kids[x][i]], n[kids[x][i]])
    ensures Tree(n', kids', live', rank', x, cut)
  {
    if kids[x] != [] {
      RingFrame(n, n', kids[x]);
    }
  }

  /**
   * The trees stay well formed when no node's shape changes, no child's links
   * change, and the per-handle tables only grow.
   */
  lemma TreesFrame(n: seq<Node>, n': seq<Node>, kids: seq<seq<int>>, kids': seq<seq<int>>, live: set<int>, live': set<int>,
                   rank: seq<int>, rank': seq<int>, inner: set<int>, cut: int)
    requires Trees(n, kids, live, rank, inner, cut) && Inside(n, inner)
    requires |kids| == |n| && |rank| == |n| && |n| <= |n'| && |kids'| == |n'| && |rank'| == |n'| && live <= live'
    requires forall z :: 0 <= z < |n| ==> kids'[z] == kids[z] && rank'[z] == rank[z] && SameShape(n'[z], n[z])
    requires forall z :: 0 <= z < |n| && n[z].parent != NIL ==> SameLinks(n'[z], n[z])
    ensures Trees(n', kids', live', rank', inner, cut)
  {
    forall x | x in inner ensures Tree(n', kids', live', rank', x, cut) {
      TreeFrame(n, n', kids, kids', live, live', rank, rank', x, cut);
    }
  }

  /** Every live node has a root above it whose key is no larger. */
  lemma {:induction false} RootBelow(nodes: seq<Node>, f: Forest, y: int)
    requires Shape(nodes, f) && y in f.live
    ensures exists i :: 0 <= i < |f.roots| && nodes[f.roots[i]].key <= nodes[y].key
    decreases f.height - f.rank[y]
  {
    if y in f.roots {
      var i :| 0 <= i < |f.roots| && f.roots[i] == y;
    } else {
      var p := nodes[y].parent;
      assert Tree(nodes, f.kids, f.live, f.rank, p, NIL);
      var i :| 0 <= i < |f.kids[p]| && f.kids[p][i] == y;
      RootBelow(nodes, f, p);
    }
  }

  /** A forest has a root exactly when it has a live node. */
  lemma RootsNonEmpty(nodes: seq<Node>, f: Forest)
    requires Shape(nodes, f)
    ensures f.roots == [] <==> f.live == {}
  {
    if f.roots == [] {
      forall y | y in f.live ensures false {
        RootBelow(nodes, f, y);
      }
    } else {
      assert f.roots[0] in f.roots;
    }
  }

  /** When the first root is the least root, it is the least live node. */
  lemma LeastRoot(nodes: seq<Node>, f: Forest)
    requires Shape(nodes, f) && f.roots != []
    requires forall i :: 0 <= i < |f.roots| ==> nodes[f.roots[0]].key <= nodes[f.roots[i]].key
    ensures forall z :: z in f.live ==> nodes[f.roots[0]].key <= nodes[z].key
  {
    forall z | z in f.live ensures nodes[f.roots[0]].key <= nodes[z].key {
      RootBelow(nodes, f, z);
    }
  }

  /** Coverage needs only the set of roots, not their order. */
  lemma CoveredByRoots(nodes: seq<Node>, roots: seq<int>, roots': seq<int>, kids: seq<seq<int>>, live: set<int>)
    requires Covered(nodes, roots, kids, live)
    requires forall y :: y in roots ==> y in roots'
    ensures Covered(nodes, roots', kids, live)
  {
  }

  /** The root ring may be listed from any of its members. */
  lemma RootRingRotate(nodes: seq<Node>, roots: seq<int>, live: set<int>, k: nat)
    requires RootRing(nodes, roots, live) && k <= |roots|
    ensures RootRing(nodes, roots[k..] + roots[..k], live)
    ensures forall y :: y in roots ==> y in roots[k..] + roots[..k]
  {
    if roots != [] {
      RingRotate(nodes, roots, k);
    }
    assert roots == roots[..k] + roots[k..];
    forall y | y in roots[k..] + roots[..k] ensures y in roots {
      assert y in roots[k..] || y in roots[..k];
    }
  }

  /** The root ring of a forest may be listed from any of its members. */
  lemma RootsRotate(nodes: seq<Node>, f: Forest, k: nat)
    requires Shape(nodes, f) && k <= |f.roots|
    ensures Shape(nodes, f.(roots := f.roots[k..] + f.roots[..k]))
  {
    RootRingRotate(nodes, f.roots, f.live, k);
    CoveredByRoots(nodes, f.roots, f.roots[k..] + f.roots[..k], f.kids, f.live);
  }

  /** The node the program's constructor makes: no parent, no child, alone in its own ring. */
  function Fresh(key: int, value: Vertex, x: int): Node
  {
    Node(key, value, NIL, NIL, x, x, 0, false)
  }

  /** The forest after handle x joins the arena as a live node of rank 0 with no children. */
  function Grown(f: Forest, x: int): Forest
  {
    f.(kids := f.kids + [[]], rank := f.rank + [0], live := f.live + {x})
  }

  /** A fresh node added to an empty forest is its only root. */
  lemma AddFirst(nodes: seq<Node>, f: Forest, key: int, value: Vertex)
    requires Shape(nodes, f) && f.roots == []
    ensures var x := |nodes|; Shape(nodes + [Fresh(key, value, x)], Grown(f, x).(roots := [x]))
  {
    var x := |nodes|;
    var n1 := nodes + [Fresh(key, value, x)];
    var g := Grown(f, x).(roots := [x]);
    assert forall z :: 0 <= z < |nodes| ==> n1[z] == nodes[z];
    TreesFrame(nodes, n1, f.kids, g.kids, f.live, g.live, f.rank, g.rank, f.live, NIL);
    assert Tree(n1, g.kids, g.live, g.rank, x, NIL);
  }

  /** Appending a parentless live node to a well-formed root ring. */
  lemma AddRootRing(nodes: seq<Node>, n': seq<Node>, roots: seq<int>, live: set<int>, x: int)
    requires RootRing(nodes, roots, live) && x == |nodes| && |n'| == x + 1 && n'[x].parent == NIL
    requires Ring(n', roots + [x])
    requires forall z :: 0 <= z < |nodes| ==> SameShape(n'[z], nodes[z])
    ensures RootRing(n', roots + [x], live + {x})
  {
  }

  /** Coverage survives adding a root when no node's parent changes. */
  lemma AddCovered(nodes: seq<Node>, n': seq<Node>, roots: seq<int>, kids: seq<seq<int>>, live: set<int>, x: int)
    requires Covered(nodes, roots, kids, live) && x == |nodes| && |n'| == x + 1
    requires forall z :: 0 <= z < |nodes| ==> SameShape(n'[z], nodes[z])
    ensures Covered(n', roots + [x], kids + [[]], live + {x})
  {
    var kids' := kids + [[]];
    assert forall z :: 0 <= z < |nodes| ==> kids'[z] == kids[z];
  }

  /** A new node of rank 0 keeps ranks in range. */
  lemma AddRanked(live: set<int>, rank: seq<int>, height: int)
    requires Ranked(live, rank, height) && forall z :: z in live ==> z < |rank|
    ensures Ranked(live + {|rank|}, rank + [0], height)
  {
    var rank' := rank + [0];
    assert forall z :: 0 <= z < |rank| ==> rank'[z] == rank[z];
  }

  /** A childless new node with unchanged trees above it. */
  lemma AddTrees(nodes: seq<Node>, n': seq<Node>, kids: seq<seq<int>>, live: set<int>, rank: seq<int>, x: int)
    requires Trees(nodes, kids, live, rank, live, NIL) && Inside(nodes, live)
    requires |kids| == |nodes| && |rank| == |nodes| && x == |nodes| && |n'| == x + 1
    requires n'[x].child == NIL && n'[x].degree == 0
    requires forall z :: 0 <= z < |nodes| ==> SameShape(n'[z], nodes[z])
    requires forall z :: 0 <= z < |nodes| && nodes[z].parent != NIL ==> SameLinks(n'[z], nodes[z])
    ensures Trees(n', kids + [[]], live + {x}, rank + [0], live + {x}, NIL)
  {
    var kids' := kids + [[]];
    var rank' := rank + [0];
    assert forall z :: 0 <= z < |nodes| ==> kids'[z] == kids[z] && rank'[z] == rank[z];
    TreesFrame(nodes, n', kids, kids', live, live + {x}, rank, rank', live, NIL);
    assert Tree(n', kids', live + {x}, rank', x, NIL);
  }

  /**
   * A fresh node x joins the root ring as its last member: any arena that
   * keeps every node's shape, lists the ring with x at the end and changes the
   * links of no other node than x, the first root and the last root.
   */
  lemma AddRoot(nodes: seq<Node>, n': seq<Node>, f: Forest, x: int)
    requires Shape(nodes, f) && f.roots != [] && x == |nodes| && |n'| == x + 1
    requires n'[x].parent == NIL && n'[x].child == NIL && n'[x].degree == 0
    requires Ring(n', f.roots + [x])
    requires forall z :: 0 <= z < |nodes| ==> SameShape(n'[z], nodes[z])
    requires forall z :: 0 <= z < |nodes| && z != f.roots[0] && z != f.roots[|f.roots| - 1] ==> SameLinks(n'[z], nodes[z])
    ensures Shape(n', Grown(f, x).(roots := f.roots + [x]))
  {
    assert f.roots[0] in f.roots && f.roots[|f.roots| - 1] in f.roots;
    AddRootRing(nodes, n', f.roots, f.live, x);
    AddCovered(nodes, n', f.roots, f.kids, f.live, x);
    AddRanked(f.live, f.rank, f.height);
    AddTrees(nodes, n', f.kids, f.live, f.rank, x);
  }
}
