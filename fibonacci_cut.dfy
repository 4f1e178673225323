// Cutting a node out of its parent's child ring into the root ring, the
// cascade of cuts up through marked ancestors, and lowering a key: the three
// steps of the Fibonacci heap's decrease-key.

module FibonacciCutting {
  import opened Graphs
  import opened FibonacciArena
  import opened FibonacciForest

  /** The parent's half of _couper when x is p's only child: p has no child left. */
  method DetachAlone(nodes: seq<Node>, p: int, x: int, ghost K: seq<int>) returns (nodes': seq<Node>)
    requires 0 <= p < |nodes| && K == [x]
    ensures |nodes'| == |nodes| && nodes'[p] == nodes[p].(degree := nodes[p].degree - 1, child := NIL)
    ensures forall z :: 0 <= z < |nodes| && z != p ==> nodes'[z] == nodes[z]
  {
    nodes' := nodes[p := nodes[p].(degree := nodes[p].degree - 1)];
    nodes' := nodes'[p := nodes'[p].(child := NIL)];
  }

  /** The parent's half of _couper when p has other children: p's child becomes x's right neighbour and x leaves the ring. */
  method DetachFrom(nodes: seq<Node>, p: int, x: int, ghost K: seq<int>, ghost k: nat) returns (nodes': seq<Node>)
    requires Ring(nodes, K) && |K| >= 2 && k < |K| && K[k] == x && 0 <= p < |nodes| && p !in K
    ensures |nodes'| == |nodes| && Ring(nodes', K[k + 1..] + K[..k])
    ensures nodes'[p] == nodes[p].(degree := nodes[p].degree - 1, child := (K[k + 1..] + K[..k])[0])
    ensures forall z :: 0 <= z < |nodes| && z != p ==> Relinked(nodes'[z], nodes[z])
    ensures forall z :: 0 <= z < |nodes| && z != p && (z !in K || z == x) ==> nodes'[z] == nodes[z]
  {
    ghost var K' := K[k + 1..] + K[..k];
    assert nodes[x].right == K'[0] by {
      if k + 1 < |K| {
        assert K'[0] == K[k + 1];
      } else {
        assert K'[0] == K[0];
      }
    }
    nodes' := nodes[p := nodes[p].(degree := nodes[p].degree - 1)];
    nodes' := nodes'[p := nodes'[p].(child := nodes'[x].right)];
    var n1 := nodes';
    RingFrame(nodes, n1, K);
    nodes' := Unlink(n1, x, K, k);
  }

  /**
   * The parent's half of the program's _couper: p loses one degree, its child
   * becomes x's right neighbour (or none when x was alone), and x leaves the
   * child ring K = the children of p, which is then listed from x's right
   * neighbour.
   */
  method Detach(nodes: seq<Node>, p: int, x: int, ghost K: seq<int>, ghost k: nat) returns (nodes': seq<Node>)
    requires Ring(nodes, K) && k < |K| && K[k] == x && 0 <= p < |nodes| && p !in K
    ensures |nodes'| == |nodes|
    ensures var K' := K[k + 1..] + K[..k];
      (K' == [] ==> nodes'[p] == nodes[p].(degree := nodes[p].degree - 1, child := NIL)) &&
      (K' != [] ==> Ring(nodes', K') && nodes'[p] == nodes[p].(degree := nodes[p].degree - 1, child := K'[0]))
    ensures forall z :: 0 <= z < |nodes| && z != p ==> Relinked(nodes'[z], nodes[z])
    ensures forall z :: 0 <= z < |nodes| && z != p && (z !in K || z == x) ==> nodes'[z] == nodes[z]
  {
    ghost var next := if k + 1 < |K| then k + 1 else 0;
    assert nodes[x].right == K[next];
    assert |K| >= 2 ==> next != k;
    if x == nodes[x].right {
      assert K == [x];
      nodes' := DetachAlone(nodes, p, x, K);
    } else {
      nodes' := DetachFrom(nodes, p, x, K, k);
    }
  }

  /** The node's half of _couper before it joins the root ring: no parent, no mark. */
  method Uproot(nodes: seq<Node>, x: int) returns (nodes': seq<Node>)
    requires 0 <= x < |nodes|
    ensures |nodes'| == |nodes| && nodes'[x] == nodes[x].(parent := NIL, mark := false)
    ensures forall z :: 0 <= z < |nodes| && z != x ==> nodes'[z] == nodes[z]
  {
    nodes' := nodes[x := nodes[x].(parent := NIL)];
    nodes' := nodes'[x := nodes'[x].(mark := false)];
  }

  /** The child ring of p without its member K[k], listed from K[k]'s right neighbour. */
  function Without(K: seq<int>, k: nat): seq<int>
    requires k < |K|
  {
    K[k + 1..] + K[..k]
  }

  /** What is left of the child ring holds the other children, and only they. */
  lemma WithoutMembers(K: seq<int>, k: nat)
    requires k < |K| && forall i, j :: 0 <= i < j < |K| ==> K[i] != K[j]
    ensures |Without(K, k)| == |K| - 1
    ensures forall i :: 0 <= i < |Without(K, k)| ==> Without(K, k)[i] in K && Without(K, k)[i] != K[k]
    ensures forall y :: y in K && y != K[k] ==> y in Without(K, k)
  {
    var W := Without(K, k);
    forall i | 0 <= i < |W| ensures W[i] in K && W[i] != K[k] {
      if i < |K| - k - 1 {
        assert W[i] == K[k + 1 + i];
      } else {
        assert W[i] == K[i - (|K| - k - 1)];
      }
    }
    forall y | y in K && y != K[k] ensures y in W {
      var j :| 0 <= j < |K| && K[j] == y;
      if j < k {
        assert W[|K| - k - 1 + j] == y;
      } else {
        assert W[j - k - 1] == y;
      }
    }
  }

  /** The facts about an arena n' after x, the k-th child of p, has been cut into the root ring. */
  ghost predicate CutArena(nodes: seq<Node>, n': seq<Node>, f: Forest, x: int, p: int, k: nat)
  {
    |n'| == |nodes| && |f.kids| == |nodes| && 0 <= x < |nodes| && 0 <= p < |nodes| && p != x &&
    k < |f.kids[p]| && f.kids[p][k] == x && Ring(n', f.roots + [x]) &&
    var K' := Without(f.kids[p], k);
    (K' == [] ==> n'[p].child == NIL) && (K' != [] ==> Ring(n', K') && n'[p].child == K'[0]) &&
    n'[p] == nodes[p].(degree := nodes[p].degree - 1, child := n'[p].child, left := n'[p].left, right := n'[p].right) &&
    (nodes[p].parent != NIL ==> SameLinks(n'[p], nodes[p])) &&
    n'[x] == nodes[x].(parent := NIL, mark := false, left := n'[x].left, right := n'[x].right) &&
    (forall z :: 0 <= z < |nodes| && z != p && z != x ==> Relinked(n'[z], nodes[z])) &&
    (forall z :: 0 <= z < |nodes| && z != p && nodes[z].parent != NIL && nodes[z].parent != p ==> n'[z] == nodes[z])
  }

  /** x joins the root ring, whose other members are unchanged but for their links. */
  lemma CutRootRing(nodes: seq<Node>, n': seq<Node>, f: Forest, x: int, p: int, k: nat)
    requires RootRing(nodes, f.roots, f.live) && x in f.live && CutArena(nodes, n', f, x, p, k)
    ensures RootRing(n', f.roots + [x], f.live)
  {
    forall y | y in f.roots + [x] ensures y in f.live && 0 <= y < |n'| && n'[y].parent == NIL {
      if y != x {
        assert y in f.roots;
      }
    }
  }

  /** Every live node is still a root or a child of its live parent. */
  lemma CutCovered(nodes: seq<Node>, n': seq<Node>, f: Forest, x: int, p: int, k: nat)
    requires Covered(nodes, f.roots, f.kids, f.live) && CutArena(nodes, n', f, x, p, k)
    requires forall i :: 0 <= i < |f.kids[p]| ==> 0 <= f.kids[p][i] < |nodes| && nodes[f.kids[p][i]].parent == p
    requires forall i, j :: 0 <= i < j < |f.kids[p]| ==> f.kids[p][i] != f.kids[p][j]
    requires p !in f.kids[p]
    ensures Covered(n', f.roots + [x], f.kids[p := Without(f.kids[p], k)], f.live)
  {
    var K := f.kids[p];
    var kids' := f.kids[p := Without(K, k)];
    WithoutMembers(K, k);
    forall y | y in f.live ensures y in f.roots + [x] || (n'[y].parent in f.live && y in kids'[n'[y].parent]) {
      if y != x && y !in f.roots {
        var q := nodes[y].parent;
        if q == p {
          assert y in K;
          assert n'[y].parent == p;
        } else {
          assert n'[y].parent == q;
        }
      }
    }
  }

  /** p keeps the tree of its other children, now heap-ordered. */
  lemma CutTreeAtParent(nodes: seq<Node>, n': seq<Node>, f: Forest, x: int, p: int, k: nat)
    requires Tree(nodes, f.kids, f.live, f.rank, p, x) && CutArena(nodes, n', f, x, p, k) && p !in f.kids[p]
    ensures Tree(n', f.kids[p := Without(f.kids[p], k)], f.live, f.rank, p, NIL)
  {
    var K := f.kids[p];
    var W := Without(K, k);
    WithoutMembers(K, k);
    forall i | 0 <= i < |W| ensures W[i] in f.live && n'[W[i]].parent == p && f.rank[W[i]] < f.rank[p] && n'[p].key <= n'[W[i]].key {
      var j :| 0 <= j < |K| && K[j] == W[i];
      assert W[i] != p && W[i] != x;
      assert Relinked(n'[W[i]], nodes[W[i]]);
    }
  }

  /** A node other than p keeps its tree, which no longer has an exception. */
  lemma CutTreeElsewhere(nodes: seq<Node>, n': seq<Node>, f: Forest, x: int, p: int, k: nat, z: int)
    requires Tree(nodes, f.kids, f.live, f.rank, z, x) && CutArena(nodes, n', f, x, p, k) && z != p && nodes[x].parent == p
    ensures Tree(n', f.kids[p := Without(f.kids[p], k)], f.live, f.rank, z, NIL)
  {
    var K := f.kids[z];
    forall i | 0 <= i < |K|
      ensures K[i] != x && SameLinks(n'[K[i]], nodes[K[i]]) && n'[K[i]].parent == z && n'[K[i]].key == nodes[K[i]].key
    {
      assert nodes[K[i]].parent == z;
    }
    if K != [] {
      RingFrame(nodes, n', K);
    }
  }

  /** Ordered trees but between x and its parent p: after the cut, every tree is ordered. */
  lemma CutTrees(nodes: seq<Node>, n': seq<Node>, f: Forest, x: int, p: int, k: nat)
    requires ShapeCut(nodes, f, x) && p in f.live && CutArena(nodes, n', f, x, p, k) && nodes[x].parent == p && p !in f.kids[p]
    ensures Trees(n', f.kids[p := Without(f.kids[p], k)], f.live, f.rank, f.live, NIL)
  {
    var kids' := f.kids[p := Without(f.kids[p], k)];
    forall z | z in f.live ensures Tree(n', kids', f.live, f.rank, z, NIL) {
      assert Tree(nodes, f.kids, f.live, f.rank, z, x);
      if z == p {
        CutTreeAtParent(nodes, n', f, x, p, k);
      } else {
        CutTreeElsewhere(nodes, n', f, x, p, k, z);
      }
    }
  }

  /** In a well-formed forest, a node is not among its own children, which are distinct and have it as parent. */
  lemma ChildRing(nodes: seq<Node>, f: Forest, p: int, cut: int)
    requires ShapeCut(nodes, f, cut) && p in f.live
    ensures p !in f.kids[p]
    ensures forall i :: 0 <= i < |f.kids[p]| ==> 0 <= f.kids[p][i] < |nodes| && nodes[f.kids[p][i]].parent == p
    ensures forall i, j :: 0 <= i < j < |f.kids[p]| ==> f.kids[p][i] != f.kids[p][j]
  {
    assert Tree(nodes, f.kids, f.live, f.rank, p, cut);
    forall i | 0 <= i < |f.kids[p]| ensures f.kids[p][i] != p {
      assert f.rank[f.kids[p][i]] < f.rank[p];
    }
  }

  /** After the cut of x from p, the forest is well formed and heap-ordered. */
  lemma CutShape(nodes: seq<Node>, n': seq<Node>, f: Forest, x: int, p: int, k: nat)
    requires ShapeCut(nodes, f, x) && x in f.live && p in f.live && nodes[x].parent == p && CutArena(nodes, n', f, x, p, k)
    ensures Shape(n', f.(roots := f.roots + [x], kids := f.kids[p := Without(f.kids[p], k)]))
  {
    ChildRing(nodes, f, p, x);
    CutRootRing(nodes, n', f, x, p, k);
    CutCovered(nodes, n', f, x, p, k);
    CutTrees(nodes, n', f, x, p, k);
  }

  /** The facts the three steps of the cut leave about each node, composed. */
  ghost predicate CutStepsDone(nodes: seq<Node>, n1: seq<Node>, n2: seq<Node>, n3: seq<Node>, f: Forest, x: int, p: int, k: nat)
  {
    |f.kids| == |nodes| && 0 <= p < |nodes| && k < |f.kids[p]| && f.kids[p][k] == x && p != x &&
    f.roots != [] && (forall i :: 0 <= i < |f.roots| ==> 0 <= f.roots[i] < |nodes| && nodes[f.roots[i]].parent == NIL) &&
    (forall i :: 0 <= i < |f.kids[p]| ==> 0 <= f.kids[p][i] < |nodes| && nodes[f.kids[p][i]].parent == p) &&
    p !in f.kids[p] && (forall i, j :: 0 <= i < j < |f.kids[p]| ==> f.kids[p][i] != f.kids[p][j]) &&
    var K := f.kids[p]; var K' := K[k + 1..] + K[..k];
    |n1| == |nodes| &&
    (K' == [] ==> n1[p] == nodes[p].(degree := nodes[p].degree - 1, child := NIL)) &&
    (K' != [] ==> Ring(n1, K') && n1[p] == nodes[p].(degree := nodes[p].degree - 1, child := K'[0])) &&
    (forall z :: 0 <= z < |nodes| && z != p ==> Relinked(n1[z], nodes[z])) &&
    (forall z :: 0 <= z < |nodes| && z != p && (z !in K || z == x) ==> n1[z] == nodes[z]) &&
    |n2| == |n1| && 0 <= x < |n1| && n2[x] == n1[x].(parent := NIL, mark := false) &&
    (forall z :: 0 <= z < |n1| && z != x ==> n2[z] == n1[z]) &&
    var r := f.roots;
    |n3| == |n2| && Ring(n3, r + [x]) && n3[x] == n2[x].(left := r[|r| - 1], right := r[0]) &&
    (forall z :: 0 <= z < |n2| ==> Relinked(n3[z], n2[z])) &&
    (forall z :: 0 <= z < |n2| && z != x && z != r[0] && z != r[|r| - 1] ==> n3[z] == n2[z])
  }

  /** p's remaining child ring is untouched by the last two steps. */
  lemma CutStepsRing(nodes: seq<Node>, n1: seq<Node>, n2: seq<Node>, n3: seq<Node>, f: Forest, x: int, p: int, k: nat)
    requires CutStepsDone(nodes, n1, n2, n3, f, x, p, k)
    ensures var W := Without(f.kids[p], k);
      (W == [] ==> n3[p].child == NIL) && (W != [] ==> Ring(n3, W) && n3[p].child == W[0]) &&
      n3[p] == nodes[p].(degree := nodes[p].degree - 1, child := n3[p].child, left := n3[p].left, right := n3[p].right)
  {
    var K := f.kids[p];
    var W := Without(K, k);
    var r := f.roots;
    WithoutMembers(K, k);
    assert r[0] in r && r[|r| - 1] in r;
    if W != [] {
      forall i | 0 <= i < |W| ensures SameLinks(n3[W[i]], n1[W[i]]) {
        var j :| 0 <= j < |K| && K[j] == W[i];
        assert W[i] != r[0] && W[i] != r[|r| - 1] && W[i] != x;
      }
      RingFrame(n1, n3, W);
    }
    assert Relinked(n3[p], n2[p]);
  }

  /** Every node but p and x keeps all but its links, and its links too unless it is a root. */
  lemma CutStepsPointwise(nodes: seq<Node>, n1: seq<Node>, n2: seq<Node>, n3: seq<Node>, f: Forest, x: int, p: int, k: nat)
    requires CutStepsDone(nodes, n1, n2, n3, f, x, p, k)
    ensures n3[x] == nodes[x].(parent := NIL, mark := false, left := n3[x].left, right := n3[x].right)
    ensures nodes[p].parent != NIL ==> SameLinks(n3[p], nodes[p])
    ensures forall z :: 0 <= z < |nodes| && z != p && z != x ==> Relinked(n3[z], nodes[z])
    ensures forall z :: 0 <= z < |nodes| && z != p && nodes[z].parent != NIL && nodes[z].parent != p ==> n3[z] == nodes[z]
  {
    var K := f.kids[p];
    var r := f.roots;
    assert r[0] in r && r[|r| - 1] in r;
    assert forall y :: y in r ==> nodes[y].parent == NIL;
    forall z | 0 <= z < |nodes| && z != p && z != x ensures Relinked(n3[z], nodes[z]) {
      assert Relinked(n3[z], n2[z]) && Relinked(n1[z], nodes[z]);
    }
    forall z | 0 <= z < |nodes| && z != p && nodes[z].parent != NIL && nodes[z].parent != p ensures n3[z] == nodes[z] {
      assert z !in K;
      assert z != r[0] && z != r[|r| - 1];
    }
  }

  /** Where x sits: a live child of the live p, at position k of p's child ring, and not a root. */
  lemma CutSetup(nodes: seq<Node>, f: Forest, x: int, p: int) returns (k: nat)
    requires ShapeCut(nodes, f, x) && x in f.live && nodes[x].parent == p && p != NIL && f.roots != []
    ensures p in f.live && k < |f.kids[p]| && f.kids[p][k] == x && p != x && x !in f.roots
    ensures p !in f.kids[p]
    ensures forall i :: 0 <= i < |f.kids[p]| ==> 0 <= f.kids[p][i] < |nodes| && nodes[f.kids[p][i]].parent == p
    ensures forall i, j :: 0 <= i < j < |f.kids[p]| ==> f.kids[p][i] != f.kids[p][j]
    ensures forall i :: 0 <= i < |f.roots| ==> 0 <= f.roots[i] < |nodes| && nodes[f.roots[i]].parent == NIL
    ensures Ring(nodes, f.roots) && f.kids[p] != [] && Ring(nodes, f.kids[p])
  {
    assert x !in f.roots;
    assert p in f.live && x in f.kids[p];
    k :| 0 <= k < |f.kids[p]| && f.kids[p][k] == x;
    assert Tree(nodes, f.kids, f.live, f.rank, p, x);
    ChildRing(nodes, f, p, x);
    forall i | 0 <= i < |f.roots| ensures 0 <= f.roots[i] < |nodes| && nodes[f.roots[i]].parent == NIL {
      assert f.roots[i] in f.roots;
    }
  }

  /** Detaching x from p and uprooting x leave the links of every root as they were. */
  lemma CutRootsKept(nodes: seq<Node>, n1: seq<Node>, n2: seq<Node>, f: Forest, x: int, p: int, k: nat)
    requires Ring(nodes, f.roots) && 0 <= p < |nodes| && |f.kids| == |nodes| && k < |f.kids[p]| && f.kids[p][k] == x
    requires forall i :: 0 <= i < |f.roots| ==> 0 <= f.roots[i] < |nodes| && nodes[f.roots[i]].parent == NIL
    requires forall i :: 0 <= i < |f.kids[p]| ==> 0 <= f.kids[p][i] < |nodes| && nodes[f.kids[p][i]].parent == p
    requires |n1| == |nodes| && SameLinks(n1[p], nodes[p])
    requires forall z :: 0 <= z < |nodes| && z != p && (z !in f.kids[p] || z == x) ==> n1[z] == nodes[z]
    requires |n2| == |n1| && 0 <= x < |n1| && forall z :: 0 <= z < |n1| && z != x ==> n2[z] == n1[z]
    ensures Ring(n2, f.roots)
  {
    assert 0 <= x < |nodes| && nodes[x].parent == p;
    forall i | 0 <= i < |f.roots| ensures SameLinks(n2[f.roots[i]], nodes[f.roots[i]]) {
      assert f.roots[i] !in f.kids[p] && f.roots[i] != x;
    }
    RingFrame(nodes, n2, f.roots);
  }

  /** What CutArena says of entries, parents and marks. */
  lemma CutArenaEntries(nodes: seq<Node>, n': seq<Node>, f: Forest, x: int, p: int, k: nat)
    requires CutArena(nodes, n', f, x, p, k)
    ensures forall z :: 0 <= z < |nodes| ==> SameEntry(n'[z], nodes[z])
    ensures n'[x].parent == NIL && !n'[x].mark && n'[p].degree == nodes[p].degree - 1
    ensures forall z :: 0 <= z < |nodes| && z != x ==> n'[z].parent == nodes[z].parent && n'[z].mark == nodes[z].mark
  {
    forall z | 0 <= z < |nodes| && z != x && z != p ensures SameEntry(n'[z], nodes[z]) && n'[z].parent == nodes[z].parent && n'[z].mark == nodes[z].mark {
      assert Relinked(n'[z], nodes[z]);
    }
  }

  /**
   * The program's _couper: x, a child of p whose key may be below p's, leaves
   * p's child ring (p losing one degree) and joins the root ring left of the
   * minimum, with no parent and no mark. The forest is then heap-ordered.
   */
  method Cut(nodes: seq<Node>, ghost f: Forest, x: int, p: int, minNode: int) returns (nodes': seq<Node>, ghost f': Forest)
    requires ShapeCut(nodes, f, x) && x in f.live && nodes[x].parent == p && p != NIL && f.roots != [] && minNode == f.roots[0]
    ensures Shape(nodes', f') && |nodes'| == |nodes|
    ensures f'.roots == f.roots + [x] && f'.live == f.live && f'.rank == f.rank && f'.height == f.height
    ensures forall z :: 0 <= z < |nodes| ==> SameEntry(nodes'[z], nodes[z])
    ensures nodes'[x].parent == NIL && !nodes'[x].mark && nodes'[p].degree == nodes[p].degree - 1
    ensures forall z :: 0 <= z < |nodes| && z != x ==> nodes'[z].parent == nodes[z].parent && nodes'[z].mark == nodes[z].mark
  {
    ghost var k := CutSetup(nodes, f, x, p);
    ghost var K := f.kids[p];
    var n1 := Detach(nodes, p, x, K, k);
    var n2 := Uproot(n1, x);
    CutRootsKept(nodes, n1, n2, f, x, p, k);
    nodes' := SpliceLeftOf(n2, minNode, x, f.roots);
    assert CutStepsDone(nodes, n1, n2, nodes', f, x, p, k);
    CutStepsRing(nodes, n1, n2, nodes', f, x, p, k);
    CutStepsPointwise(nodes, n1, n2, nodes', f, x, p, k);
    CutShape(nodes, nodes', f, x, p, k);
    CutArenaEntries(nodes, nodes', f, x, p, k);
    f' := f.(roots := f.roots + [x], kids := f.kids[p := Without(K, k)]);
  }

  /** A heap-ordered forest is ordered but between any node and its parent. */
  lemma ShapeCutWeaken(nodes: seq<Node>, f: Forest, cut: int)
    requires Shape(nodes, f)
    ensures ShapeCut(nodes, f, cut)
  {
    forall x | x in f.live ensures Tree(nodes, f.kids, f.live, f.rank, x, cut) {
      assert Tree(nodes, f.kids, f.live, f.rank, x, NIL);
    }
  }

  /** Marks play no part in the forest's shape. */
  lemma MarkFrame(nodes: seq<Node>, n': seq<Node>, f: Forest)
    requires Shape(nodes, f) && |n'| == |nodes|
    requires forall z :: 0 <= z < |nodes| ==> n'[z] == nodes[z].(mark := n'[z].mark)
    ensures Shape(n', f)
  {
    if f.roots != [] {
      RingFrame(nodes, n', f.roots);
    }
    TreesFrame(nodes, n', f.kids, f.kids, f.live, f.live, f.rank, f.rank, f.live, NIL);
  }

  /** A live node with a parent is below a live parent of higher rank. */
  lemma ParentAbove(nodes: seq<Node>, f: Forest, y: int)
    requires Shape(nodes, f) && y in f.live && nodes[y].parent != NIL
    ensures nodes[y].parent in f.live && 0 <= f.rank[y] < f.rank[nodes[y].parent] < f.height
  {
    var p := nodes[y].parent;
    assert y !in f.roots;
    assert p in f.live && y in f.kids[p];
    assert Tree(nodes, f.kids, f.live, f.rank, p, NIL);
  }

  /**
   * The program's _couper_en_cascade from y: nothing for no node or a root;
   * an unmarked y gets marked; a marked y is cut from its parent, and the
   * cascade goes on from that parent. The forest stays heap-ordered, and
   * its first root is still the minimum.
   */
  method CascadingCut(nodes: seq<Node>, ghost f: Forest, minNode: int, y: int) returns (nodes': seq<Node>, ghost f': Forest)
    requires Shape(nodes, f) && f.roots != [] && minNode == f.roots[0] && (y == NIL || y in f.live)
    ensures Shape(nodes', f') && |nodes'| == |nodes| && f'.live == f.live && f'.rank == f.rank && f'.height == f.height
    ensures |f'.roots| >= |f.roots| && forall i :: 0 <= i < |f.roots| ==> f'.roots[i] == f.roots[i]
    ensures forall z :: 0 <= z < |nodes| ==> SameEntry(nodes'[z], nodes[z])
    ensures forall z :: 0 <= z < |nodes| && nodes[z].parent == NIL ==> nodes'[z].parent == NIL && nodes'[z].mark == nodes[z].mark
    ensures y == NIL || nodes[y].parent == NIL ==> nodes' == nodes && f' == f
    ensures y != NIL && nodes[y].parent != NIL && !nodes[y].mark ==> nodes' == nodes[y := nodes[y].(mark := true)] && f' == f
    ensures y != NIL && nodes[y].parent != NIL && nodes[y].mark ==>
      y in f'.roots && nodes'[y].parent == NIL && !nodes'[y].mark
    decreases if y in f.live then f.height - f.rank[y] else 0
  {
    if y == NIL || nodes[y].parent == NIL {
      return nodes, f;
    }
    var parent := nodes[y].parent;
    ParentAbove(nodes, f, y);
    if !nodes[y].mark {
      nodes' := nodes[y := nodes[y].(mark := true)];
      MarkFrame(nodes, nodes', f);
      f' := f;
    } else {
      ShapeCutWeaken(nodes, f, y);
      var n1;
      ghost var f1;
      n1, f1 := Cut(nodes, f, y, parent, minNode);
      nodes', f' := CascadingCut(n1, f1, minNode, parent);
      assert forall i :: 0 <= i < |f.roots| ==> f1.roots[i] == f.roots[i];
      assert f'.roots[|f.roots|] == y;
      forall z | 0 <= z < |nodes| ensures SameEntry(nodes'[z], nodes[z]) {
        assert SameEntry(nodes'[z], n1[z]) && SameEntry(n1[z], nodes[z]);
      }
    }
  }

  /** Lowering x's key keeps every tree ordered, except possibly between x and its parent. */
  lemma LoweredTree(nodes: seq<Node>, n': seq<Node>, kids: seq<seq<int>>, live: set<int>, rank: seq<int>, x: int, k: int, z: int)
    requires Tree(nodes, kids, live, rank, z, NIL) && 0 <= x < |nodes| && k <= nodes[x].key
    requires n' == nodes[x := nodes[x].(key := k)]
    ensures Tree(n', kids, live, rank, z, x)
    ensures (z == nodes[x].parent ==> nodes[z].key <= k) ==> Tree(n', kids, live, rank, z, NIL)
  {
    var K := kids[z];
    if K != [] {
      RingFrame(nodes, n', K);
    }
    forall i | 0 <= i < |K| ensures K[i] != z && (K[i] == x ==> z == nodes[x].parent) {
      assert rank[K[i]] < rank[z];
    }
  }

  /** A change of one key leaves the root ring and coverage as they were. */
  lemma KeyFrame(nodes: seq<Node>, n': seq<Node>, f: Forest, x: int, k: int)
    requires Shape(nodes, f) && 0 <= x < |nodes| && n' == nodes[x := nodes[x].(key := k)]
    ensures RootRing(n', f.roots, f.live) && Covered(n', f.roots, f.kids, f.live) && Ranked(f.live, f.rank, f.height)
  {
    if f.roots != [] {
      RingFrame(nodes, n', f.roots);
    }
  }

  /** With x's key lowered, every tree is ordered except possibly between x and its parent. */
  lemma LoweredTreesCut(nodes: seq<Node>, n': seq<Node>, f: Forest, x: int, k: int)
    requires Shape(nodes, f) && 0 <= x < |nodes| && k <= nodes[x].key && n' == nodes[x := nodes[x].(key := k)]
    ensures Trees(n', f.kids, f.live, f.rank, f.live, x)
  {
    forall z | z in f.live ensures Tree(n', f.kids, f.live, f.rank, z, x) {
      assert Tree(nodes, f.kids, f.live, f.rank, z, NIL);
      LoweredTree(nodes, n', f.kids, f.live, f.rank, x, k, z);
    }
  }

  /** With x's key lowered to no less than its parent's, every tree is ordered. */
  lemma LoweredTreesOrdered(nodes: seq<Node>, n': seq<Node>, f: Forest, x: int, k: int)
    requires Shape(nodes, f) && 0 <= x < |nodes| && k <= nodes[x].key && n' == nodes[x := nodes[x].(key := k)]
    requires nodes[x].parent == NIL || (0 <= nodes[x].parent < |nodes| && nodes[nodes[x].parent].key <= k)
    ensures Trees(n', f.kids, f.live, f.rank, f.live, NIL)
  {
    forall z | z in f.live ensures Tree(n', f.kids, f.live, f.rank, z, NIL) {
      assert Tree(nodes, f.kids, f.live, f.rank, z, NIL);
      LoweredTree(nodes, n', f.kids, f.live, f.rank, x, k, z);
    }
  }

  /**
   * The first step of the program's diminuer_clef: x takes the key k, no
   * larger than its own. The forest is ordered but between x and its parent,
   * and fully ordered when x has no parent or a parent of key at most k.
   */
  lemma KeyLowered(nodes: seq<Node>, n': seq<Node>, f: Forest, x: int, k: int)
    requires Shape(nodes, f) && x in f.live && k <= nodes[x].key && n' == nodes[x := nodes[x].(key := k)]
    ensures ShapeCut(n', f, x)
    ensures nodes[x].parent == NIL || (0 <= nodes[x].parent < |nodes| && nodes[nodes[x].parent].key <= k) ==> Shape(n', f)
  {
    KeyFrame(nodes, n', f, x, k);
    LoweredTreesCut(nodes, n', f, x, k);
    if nodes[x].parent == NIL || (0 <= nodes[x].parent < |nodes| && nodes[nodes[x].parent].key <= k) {
      LoweredTreesOrdered(nodes, n', f, x, k);
    }
  }
}
