// Linking one root of a Fibonacci heap under another (the program's _lier),
// and what it does to the forest.
//
// The root y leaves the root ring and joins the child ring of the root x,
// as its last child; x's degree grows by one. In the forest picture, y is
// taken out of the root list and appended to x's children, and x's rank is
// raised above y's so that ranks still decrease from parent to child.

module FibonacciLinking {
  import opened Graphs
  import opened FibonacciArena
  import opened FibonacciForest

  function Max(a: int, b: int): int
  {
    if a < b then b else a
  }

  /** The forest after the root f.roots[k] becomes the last child of the root x. */
  function Adopted(f: Forest, k: nat, x: int): Forest
    requires k < |f.roots| && 0 <= x < |f.kids| && 0 <= x < |f.rank| && 0 <= f.roots[k] < |f.rank|
  {
    var y := f.roots[k];
    f.(roots := f.roots[k + 1..] + f.roots[..k],
       kids := f.kids[x := f.kids[x] + [y]],
       rank := f.rank[x := Max(f.rank[x], f.rank[y] + 1)],
       height := Max(f.height, f.rank[y] + 2))
  }

  /** Removing the k-th of distinct handles keeps exactly the others. */
  lemma RemovedAt(r: seq<int>, k: nat)
    requires k < |r| && forall i, j :: 0 <= i < j < |r| ==> r[i] != r[j]
    ensures forall z :: z in r[k + 1..] + r[..k] <==> z in r && z != r[k]
  {
    assert r == r[..k] + [r[k]] + r[k + 1..];
    var s := r[k + 1..] + r[..k];
    forall i | 0 <= i < |s| ensures s[i] != r[k] {
      if i < |r| - k - 1 {
        assert s[i] == r[k + 1 + i];
      } else {
        assert s[i] == r[i - (|r| - k - 1)];
      }
    }
  }

  /** The root ring without the linked root. */
  lemma LinkRootRing(nodes: seq<Node>, n': seq<Node>, roots: seq<int>, live: set<int>, k: nat, x: int)
    requires RootRing(nodes, roots, live) && k < |roots| && x in roots && x != roots[k] && |n'| == |nodes|
    requires Ring(n', roots[k + 1..] + roots[..k])
    requires forall z :: 0 <= z < |nodes| && z != x && z != roots[k] ==> SameShape(n'[z], nodes[z])
    requires n'[x].parent == NIL
    ensures RootRing(n', roots[k + 1..] + roots[..k], live)
    ensures forall z :: z in roots[k + 1..] + roots[..k] <==> z in roots && z != roots[k]
  {
    RemovedAt(roots, k);
    var r' := roots[k + 1..] + roots[..k];
    forall z | z in r' ensures z in live && 0 <= z < |n'| && n'[z].parent == NIL {
      assert z in roots;
    }
  }

  /** x with its new last child is a well-formed, heap-ordered tree. */
  lemma LinkTreeAt(nodes: seq<Node>, n': seq<Node>, f: Forest, k: nat, x: int)
    requires Shape(nodes, f) && k < |f.roots| && x in f.roots && x != f.roots[k] && |n'| == |nodes|
    requires nodes[x].key <= nodes[f.roots[k]].key
    requires var kx := f.kids[x] + [f.roots[k]];
      Ring(n', kx) && n'[x].child == kx[0] && n'[x].degree == nodes[x].degree + 1 && n'[x].key == nodes[x].key &&
      n'[f.roots[k]].parent == x && n'[f.roots[k]].key == nodes[f.roots[k]].key
    requires forall z :: 0 <= z < |nodes| && z != x && z != f.roots[k] ==> SameShape(n'[z], nodes[z])
    ensures 0 <= x < |f.kids| && 0 <= x < |f.rank| && 0 <= f.roots[k] < |f.rank|
    ensures var g := Adopted(f, k, x); Tree(n', g.kids, g.live, g.rank, x, NIL)
  {
    var y := f.roots[k];
    var g := Adopted(f, k, x);
    assert Tree(nodes, f.kids, f.live, f.rank, x, NIL);
    var kx := f.kids[x] + [y];
    forall i | 0 <= i < |kx|
      ensures kx[i] in g.live && n'[kx[i]].parent == x && g.rank[kx[i]] < g.rank[x] && n'[x].key <= n'[kx[i]].key
    {
      if i < |f.kids[x]| {
        assert kx[i] == f.kids[x][i];
        assert nodes[kx[i]].parent == x;
        assert kx[i] != x && kx[i] != y;
      } else {
        assert kx[i] == y && y in f.roots;
      }
    }
  }

  /** Every other tree is untouched by the link. */
  lemma LinkTrees(nodes: seq<Node>, n': seq<Node>, f: Forest, k: nat, x: int)
    requires Shape(nodes, f) && k < |f.roots| && x in f.roots && x != f.roots[k] && |n'| == |nodes|
    requires 0 <= x < |f.kids| && 0 <= x < |f.rank| && 0 <= f.roots[k] < |f.rank|
    requires var y := f.roots[k];
      n'[y].key == nodes[y].key && n'[y].child == nodes[y].child && n'[y].degree == nodes[y].degree
    requires forall z :: 0 <= z < |nodes| && z != x && z != f.roots[k] ==> SameShape(n'[z], nodes[z])
    requires forall z :: 0 <= z < |nodes| && nodes[z].parent != NIL && nodes[z].parent != x ==> SameLinks(n'[z], nodes[z])
    requires var g := Adopted(f, k, x); Tree(n', g.kids, g.live, g.rank, x, NIL)
    ensures var g := Adopted(f, k, x); Trees(n', g.kids, g.live, g.rank, g.live, NIL)
  {
    var y := f.roots[k];
    var g := Adopted(f, k, x);
    assert y in f.roots;
    assert nodes[x].parent == NIL && nodes[y].parent == NIL;
    forall z | z in g.live ensures Tree(n', g.kids, g.live, g.rank, z, NIL) {
      if z != x {
        assert Tree(nodes, f.kids, f.live, f.rank, z, NIL);
        forall i | 0 <= i < |f.kids[z]|
          ensures f.kids[z][i] in g.live && g.rank[f.kids[z][i]] == f.rank[f.kids[z][i]] &&
            SameShape(n'[f.kids[z][i]], nodes[f.kids[z][i]]) && SameLinks(n'[f.kids[z][i]], nodes[f.kids[z][i]])
        {
          var c := f.kids[z][i];
          assert nodes[c].parent == z;
        }
        TreeFrame(nodes, n', f.kids, g.kids, f.live, g.live, f.rank, g.rank, z, NIL);
      }
    }
  }

  /** Every live node is still a root or a child of its parent. */
  lemma LinkCovered(nodes: seq<Node>, n': seq<Node>, f: Forest, k: nat, x: int)
    requires Shape(nodes, f) && k < |f.roots| && x in f.roots && x != f.roots[k] && |n'| == |nodes|
    requires 0 <= x < |f.kids| && 0 <= x < |f.rank| && 0 <= f.roots[k] < |f.rank|
    requires n'[f.roots[k]].parent == x
    requires forall z :: 0 <= z < |nodes| && z != x && z != f.roots[k] ==> SameShape(n'[z], nodes[z])
    requires forall z :: z in f.roots[k + 1..] + f.roots[..k] <==> z in f.roots && z != f.roots[k]
    ensures var g := Adopted(f, k, x); Covered(n', g.roots, g.kids, g.live)
  {
    var g := Adopted(f, k, x);
    forall z | z in g.live
      ensures z in g.roots || (n'[z].parent in g.live && z in g.kids[n'[z].parent])
    {
      if z != f.roots[k] && z !in f.roots {
        assert nodes[z].parent in f.live && z in f.kids[nodes[z].parent];
        assert z != x;
      }
    }
  }

  /** Raising x's rank above y's keeps every rank below the new height. */
  lemma LinkRanked(f: Forest, k: nat, x: int)
    requires Ranked(f.live, f.rank, f.height) && k < |f.roots| && f.roots[k] in f.live && x in f.live
    requires 0 <= x < |f.kids| && |f.rank| == |f.kids|
    ensures 0 <= f.roots[k] < |f.rank|
    ensures var g := Adopted(f, k, x); Ranked(g.live, g.rank, g.height)
  {
  }

  /** The forest facts that follow from the arena facts of a link. */
  lemma LinkForest(nodes: seq<Node>, n': seq<Node>, f: Forest, k: nat, x: int)
    requires Shape(nodes, f) && k < |f.roots| && x in f.roots && x != f.roots[k]
    requires nodes[x].key <= nodes[f.roots[k]].key
    requires var y := f.roots[k]; var K := f.kids[x];
      |n'| == |nodes| && Ring(n', f.roots[k + 1..] + f.roots[..k]) && Ring(n', K + [y]) &&
      n'[x].child == (K + [y])[0] && n'[x].degree == nodes[x].degree + 1 &&
      n'[x].key == nodes[x].key && n'[x].value == nodes[x].value && n'[x].parent == NIL &&
      n'[y].parent == x && n'[y].key == nodes[y].key && n'[y].value == nodes[y].value &&
      n'[y].child == nodes[y].child && n'[y].degree == nodes[y].degree &&
      (forall z :: 0 <= z < |nodes| && z != x && z != y ==> SameShape(n'[z], nodes[z])) &&
      (forall z :: 0 <= z < |nodes| && nodes[z].parent != NIL && nodes[z].parent != x ==> SameLinks(n'[z], nodes[z]))
    ensures 0 <= x < |f.kids| && 0 <= x < |f.rank| && 0 <= f.roots[k] < |f.rank|
    ensures var g := Adopted(f, k, x);
      Shape(n', g) && (forall z :: z in g.roots <==> z in f.roots && z != f.roots[k])
  {
    LinkRootRing(nodes, n', f.roots, f.live, k, x);
    LinkTreeAt(nodes, n', f, k, x);
    LinkTrees(nodes, n', f, k, x);
    LinkCovered(nodes, n', f, k, x);
    LinkRanked(f, k, x);
  }

  /**
   * The middle of the program's _lier(y, x), once y is out of its ring: y
   * becomes x's only child, in a ring of its own, when x has none, and is
   * otherwise spliced left of x's child; the children K of x with y appended
   * then form x's child ring.
   */
  method Enroll(nodes: seq<Node>, y: int, x: int, ghost K: seq<int>) returns (nodes': seq<Node>)
    requires 0 <= y < |nodes| && 0 <= x < |nodes| && x != y && y !in K && x !in K
    requires if K == [] then nodes[x].child == NIL else Ring(nodes, K) && nodes[x].child == K[0]
    ensures |nodes'| == |nodes| && Ring(nodes', K + [y]) && nodes'[x] == nodes[x].(child := (K + [y])[0])
    ensures forall z :: 0 <= z < |nodes| && z != x ==> Relinked(nodes'[z], nodes[z])
    ensures forall z :: 0 <= z < |nodes| && z != x && z != y && z !in K ==> nodes'[z] == nodes[z]
  {
    if nodes[x].child == NIL {
      nodes' := nodes[x := nodes[x].(child := y)];
      nodes' := nodes'[y := nodes'[y].(left := y, right := y)];
      assert Ring(nodes', [y]);
    } else {
      assert K[0] in K && K[|K| - 1] in K;
      nodes' := SpliceLeftOf(nodes, nodes[x].child, y, K);
    }
  }

  /** The end of the program's _lier(y, x): y.parent := x; x.degree += 1; y.mark := false. */
  method Adopt(nodes: seq<Node>, y: int, x: int) returns (nodes': seq<Node>)
    requires 0 <= y < |nodes| && 0 <= x < |nodes| && x != y
    ensures |nodes'| == |nodes| && nodes'[y] == nodes[y].(parent := x, mark := false)
    ensures nodes'[x] == nodes[x].(degree := nodes[x].degree + 1)
    ensures forall z :: 0 <= z < |nodes| && z != x && z != y ==> nodes'[z] == nodes[z]
  {
    nodes' := nodes[y := nodes[y].(parent := x)];
    nodes' := nodes'[x := nodes'[x].(degree := nodes'[x].degree + 1)];
    nodes' := nodes'[y := nodes'[y].(mark := false)];
  }

  /** The three steps of a link move no member of the ring r, to which neither y nor x's children belong. */
  lemma LinkKeepsRing(n0: seq<Node>, n1: seq<Node>, n2: seq<Node>, n': seq<Node>, r: seq<int>, K: seq<int>, y: int, x: int)
    requires Ring(n1, r) && |n0| == |n1| == |n2| == |n'| && 0 <= x < |n0| && 0 <= y < |n0| && x != y && y !in r
    requires forall z :: z in r ==> z !in K
    requires n2[x] == n1[x].(child := n2[x].child)
    requires forall z :: 0 <= z < |n1| && z != x && z != y && z !in K ==> n2[z] == n1[z]
    requires n'[y] == n2[y].(parent := x, mark := false) && n'[x] == n2[x].(degree := n2[x].degree + 1)
    requires forall z :: 0 <= z < |n2| && z != x && z != y ==> n'[z] == n2[z]
    ensures Ring(n', r)
  {
    forall i | 0 <= i < |r| ensures SameLinks(n'[r[i]], n1[r[i]]) {
      assert r[i] in r;
    }
    RingFrame(n1, n', r);
  }

  /** The child ring survives the last step of a link. */
  lemma AdoptKeepsRing(n2: seq<Node>, n': seq<Node>, K: seq<int>, y: int, x: int)
    requires Ring(n2, K) && |n2| == |n'| && 0 <= x < |n2| && 0 <= y < |n2| && x != y
    requires n'[y] == n2[y].(parent := x, mark := false) && n'[x] == n2[x].(degree := n2[x].degree + 1)
    requires forall z :: 0 <= z < |n2| && z != x && z != y ==> n'[z] == n2[z]
    ensures Ring(n', K)
  {
    assert forall z :: 0 <= z < |n2| ==> SameLinks(n'[z], n2[z]);
    RingFrame(n2, n', K);
  }

  /** What the three steps of a link change in each node. */
  lemma LinkPointwise(n0: seq<Node>, n1: seq<Node>, n2: seq<Node>, n': seq<Node>, r: seq<int>, K: seq<int>, y: int, x: int)
    requires |n0| == |n1| == |n2| == |n'| && 0 <= x < |n0| && 0 <= y < |n0| && x != y && y in r
    requires forall z :: 0 <= z < |n0| ==> Relinked(n1[z], n0[z])
    requires forall z :: 0 <= z < |n0| && z !in r ==> n1[z] == n0[z]
    requires forall z :: 0 <= z < |n0| && z in r ==> n0[z].parent == NIL
    requires forall z :: 0 <= z < |n0| && z in K ==> n0[z].parent == x
    requires n2[x] == n1[x].(child := n2[x].child)
    requires forall z :: 0 <= z < |n1| && z != x ==> Relinked(n2[z], n1[z])
    requires forall z :: 0 <= z < |n1| && z != x && z != y && z !in K ==> n2[z] == n1[z]
    requires n'[y] == n2[y].(parent := x, mark := false) && n'[x] == n2[x].(degree := n2[x].degree + 1)
    requires forall z :: 0 <= z < |n2| && z != x && z != y ==> n'[z] == n2[z]
    ensures forall z :: 0 <= z < |n0| && z != x && z != y ==> SameShape(n'[z], n0[z])
    ensures forall z :: 0 <= z < |n0| && n0[z].parent != NIL && n0[z].parent != x ==> SameLinks(n'[z], n0[z])
  {
    forall z | 0 <= z < |n0| && n0[z].parent != NIL && n0[z].parent != x ensures SameLinks(n'[z], n0[z]) {
      assert z !in r && z !in K && z != y;
    }
  }

  /**
   * The program's _lier(y, x): y, the k-th member of the root ring r, leaves
   * it and becomes the last child of the root x, whose child ring is K; x's
   * degree grows by one and y's mark is cleared.
   */
  method Link(nodes: seq<Node>, y: int, x: int, ghost r: seq<int>, ghost live: set<int>, ghost K: seq<int>, ghost k: nat)
    returns (nodes': seq<Node>)
    requires RootRing(nodes, r, live) && k < |r| && y == r[k] && x in r && x != y
    requires if K == [] then nodes[x].child == NIL else Ring(nodes, K) && nodes[x].child == K[0]
    requires forall i :: 0 <= i < |K| ==> nodes[K[i]].parent == x
    ensures |nodes'| == |nodes| && Ring(nodes', r[k + 1..] + r[..k]) && Ring(nodes', K + [y])
    ensures nodes'[x].child == (K + [y])[0] && nodes'[x].degree == nodes[x].degree + 1
    ensures nodes'[x].key == nodes[x].key && nodes'[x].value == nodes[x].value && nodes'[x].parent == NIL
    ensures nodes'[y].parent == x && nodes'[y].key == nodes[y].key && nodes'[y].value == nodes[y].value
    ensures nodes'[y].child == nodes[y].child && nodes'[y].degree == nodes[y].degree && !nodes'[y].mark
    ensures forall z :: 0 <= z < |nodes| && z != x && z != y ==> SameShape(nodes'[z], nodes[z])
    ensures forall z :: 0 <= z < |nodes| && nodes[z].parent != NIL && nodes[z].parent != x ==> SameLinks(nodes'[z], nodes[z])
  {
    assert y in r && 2 <= |r|;
    assert nodes[x].parent == NIL && nodes[y].parent == NIL;
    ghost var R' := r[k + 1..] + r[..k];
    RemovedAt(r, k);
    forall z | z in R' ensures z !in K {
      assert z in r;
    }
    var n1 := Unlink(nodes, y, r, k);
    assert forall i :: 0 <= i < |K| ==> K[i] !in r && n1[K[i]] == nodes[K[i]];
    if K != [] {
      RingFrame(nodes, n1, K);
    }
    assert x !in K;
    var n2 := Enroll(n1, y, x, K);
    nodes' := Adopt(n2, y, x);
    LinkKeepsRing(nodes, n1, n2, nodes', R', K, y, x);
    AdoptKeepsRing(n2, nodes', K + [y], y, x);
    LinkPointwise(nodes, n1, n2, nodes', r, K, y, x);
  }
}
