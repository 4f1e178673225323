// Removing the minimum root of the Fibonacci heap: its children join the
// root ring one by one, left of the minimum, and the minimum then leaves the
// ring. What remains is a well-formed forest without the old minimum.

module FibonacciExtraction {
  import opened Graphs
  import opened FibonacciArena
  import opened FibonacciForest
  import opened FibonacciConsolidation

  /** a is b moved to the root ring: b with no parent and, at most, other links. */
  predicate Promoted(a: Node, b: Node)
  {
    a == b.(parent := NIL, left := a.left, right := a.right)
  }

  /** m is the first root of the root ring R and K is its child ring, entered at m.child. */
  ghost predicate Children(n0: seq<Node>, m: int, R: seq<int>, K: seq<int>)
  {
    Ring(n0, R) && R[0] == m && Ring(n0, K) && n0[m].child == K[0] &&
    (forall i :: 0 <= i < |R| ==> n0[R[i]].parent == NIL) &&
    (forall i :: 0 <= i < |K| ==> n0[K[i]].parent == m)
  }

  /**
   * n is n0 after the first j children of m have moved to the root ring:
   * the ring R + K[..j] is well formed, the moved children have lost their
   * parent, the others are untouched, and every node not a child of m has
   * kept all but its links, and its links too unless it is a root.
   */
  ghost predicate Promoting(n0: seq<Node>, n: seq<Node>, m: int, R: seq<int>, K: seq<int>, j: int)
  {
    Children(n0, m, R, K) && |n| == |n0| && 0 <= j <= |K| &&
    Ring(n, R + K[..j]) &&
    (forall i :: 0 <= i < j ==> Promoted(n[K[i]], n0[K[i]])) &&
    (forall i :: j <= i < |K| ==> n[K[i]] == n0[K[i]]) &&
    (forall z :: 0 <= z < |n0| ==> SameEntry(n[z], n0[z])) &&
    (forall z :: 0 <= z < |n0| && n0[z].parent != m ==> Relinked(n[z], n0[z])) &&
    (forall z :: 0 <= z < |n0| && n0[z].parent != m && n0[z].parent != NIL ==> n[z] == n0[z])
  }

  /** Before the first child moves, the ring is R alone. */
  lemma PromoteStart(n0: seq<Node>, m: int, R: seq<int>, K: seq<int>)
    requires Children(n0, m, R, K)
    ensures Promoting(n0, n0, m, R, K, 0)
  {
    assert R + K[..0] == R;
  }

  /** What one turn reads before it changes anything. */
  lemma PromoteFacts(n0: seq<Node>, n: seq<Node>, m: int, R: seq<int>, K: seq<int>, j: int)
    requires Promoting(n0, n, m, R, K, j) && j < |K|
    ensures 0 <= K[j] < |n| && K[j] !in R + K[..j] && 0 <= m < |n|
    ensures n[K[j]].right == (if j + 1 < |K| then K[j + 1] else K[0])
    ensures n[K[j]].right == K[0] <==> j + 1 == |K|
  {
    var r := R + K[..j];
    assert n0[m].parent == NIL;
    forall y | y in r ensures y != K[j] {
      if y in R {
        var i :| 0 <= i < |R| && R[i] == y;
      } else {
        var i :| 0 <= i < j && K[i] == y;
      }
    }
  }

  /** The bookkeeping of one turn: after clearing K[j]'s parent and splicing it in, j + 1 children have moved. */
  lemma PromoteStep(n0: seq<Node>, n: seq<Node>, n1: seq<Node>, n2: seq<Node>, m: int, R: seq<int>, K: seq<int>, j: int)
    requires Promoting(n0, n, m, R, K, j) && j < |K|
    requires |n1| == |n| && 0 <= K[j] < |n| && n1[K[j]] == n[K[j]].(parent := NIL)
    requires forall z :: 0 <= z < |n| && z != K[j] ==> n1[z] == n[z]
    requires var r := R + K[..j];
      |n2| == |n1| && Ring(n2, r + [K[j]]) &&
      n2[K[j]] == n1[K[j]].(left := r[|r| - 1], right := m) &&
      (forall z :: 0 <= z < |n1| ==> Relinked(n2[z], n1[z])) &&
      (forall z :: 0 <= z < |n1| && z != K[j] && z != r[0] && z != r[|r| - 1] ==> n2[z] == n1[z])
    ensures Promoting(n0, n2, m, R, K, j + 1)
  {
    var r := R + K[..j];
    var last := r[|r| - 1];
    assert 0 <= m && n0[m].parent == NIL;
    assert last == (if j == 0 then R[|R| - 1] else K[j - 1]);
    assert n0[last].parent == NIL || n0[last].parent == m;
    assert r + [K[j]] == R + K[..j + 1];
    forall i | 0 <= i < j + 1 ensures Promoted(n2[K[i]], n0[K[i]]) {
      assert Relinked(n2[K[i]], n1[K[i]]);
    }
    forall z | 0 <= z < |n0| ensures SameEntry(n2[z], n0[z]) {
      assert Relinked(n2[z], n1[z]) && SameEntry(n[z], n0[z]);
    }
    forall z | 0 <= z < |n0| && n0[z].parent != m ensures Relinked(n2[z], n0[z]) {
      assert z != K[j] && Relinked(n2[z], n1[z]) && Relinked(n[z], n0[z]);
    }
    forall i | j + 1 <= i < |K| ensures n2[K[i]] == n0[K[i]] {
      assert K[i] != K[j] && K[i] != last && K[i] != m;
    }
    forall z | 0 <= z < |n0| && n0[z].parent != m && n0[z].parent != NIL ensures n2[z] == n0[z] {
      assert z != m && z != last && z != K[j];
    }
  }

  /**
   * One turn of the program's loop over the children: read the next child,
   * clear the parent of this one and splice it left of the minimum.
   */
  method PromoteOne(ghost n0: seq<Node>, nodes: seq<Node>, m: int, ghost R: seq<int>, ghost K: seq<int>, ghost j: int, enfant: int)
    returns (nodes': seq<Node>, prochain: int)
    requires Promoting(n0, nodes, m, R, K, j) && j < |K| && enfant == K[j]
    ensures Promoting(n0, nodes', m, R, K, j + 1)
    ensures prochain == (if j + 1 < |K| then K[j + 1] else K[0])
    ensures prochain == K[0] <==> j + 1 == |K|
  {
    PromoteFacts(n0, nodes, m, R, K, j);
    ghost var r := R + K[..j];
    prochain := nodes[enfant].right;
    var n1 := ClearParent(nodes, enfant);
    RingFrame(nodes, n1, r);
    nodes' := SpliceLeftOf(n1, m, enfant, r);
    PromoteStep(n0, nodes, n1, nodes', m, R, K, j);
  }

  /**
   * The program's loop over the children of the minimum m: every child of m,
   * in ring order, loses its parent and joins the root ring left of m.
   */
  method PromoteChildren(nodes: seq<Node>, m: int, ghost R: seq<int>, ghost K: seq<int>) returns (nodes': seq<Node>)
    requires Children(nodes, m, R, K)
    ensures Promoting(nodes, nodes', m, R, K, |K|)
  {
    var enfant := nodes[m].child;
    var stop := enfant;
    nodes' := nodes;
    ghost var j := 0;
    PromoteStart(nodes, m, R, K);
    while true
      invariant 0 <= j < |K| && enfant == K[j] && Promoting(nodes, nodes', m, R, K, j)
      decreases |K| - j
    {
      var prochain;
      nodes', prochain := PromoteOne(nodes, nodes', m, R, K, j, enfant);
      enfant := prochain;
      j := j + 1;
      if enfant == stop {
        return;
      }
    }
  }

  /** The roots after the extraction are the roots but the first, and then the first root's children. */
  lemma ExtractedRootRing(n0: seq<Node>, n: seq<Node>, f: Forest, roots': seq<int>)
    requires |f.kids| == |n0| && |f.rank| == |n0| && RootRing(n0, f.roots, f.live) && f.roots != [] && |n| == |n0|
    requires var m := f.roots[0]; var K := f.kids[m];
      roots' == (f.roots + K)[1..] && (roots' != [] ==> Ring(n, roots')) &&
      Tree(n0, f.kids, f.live, f.rank, m, NIL) &&
      (forall i :: 0 <= i < |K| ==> 0 <= K[i] < |n0| && Promoted(n[K[i]], n0[K[i]])) &&
      (forall z :: 0 <= z < |n0| && n0[z].parent != m ==> Relinked(n[z], n0[z]))
    ensures RootRing(n, roots', f.live - {f.roots[0]})
  {
    var m := f.roots[0];
    var K := f.kids[m];
    assert m in f.roots;
    assert roots' == f.roots[1..] + K;
    forall y | y in roots' ensures y in f.live - {m} && 0 <= y < |n| && n[y].parent == NIL {
      if y in f.roots[1..] {
        var i :| 1 <= i < |f.roots| && f.roots[i] == y;
        assert f.roots[i] in f.roots;
      } else {
        var i :| 0 <= i < |K| && K[i] == y;
      }
    }
  }

  /** Every live node other than m keeps its tree. */
  lemma ExtractedTrees(n0: seq<Node>, n: seq<Node>, f: Forest, m: int)
    requires Shape(n0, f) && m in f.roots && |n| == |n0|
    requires var K := f.kids[m];
      (forall i :: 0 <= i < |K| ==> 0 <= K[i] < |n0| && Promoted(n[K[i]], n0[K[i]])) &&
      (forall z :: 0 <= z < |n0| && n0[z].parent != m ==> Relinked(n[z], n0[z])) &&
      (forall z :: 0 <= z < |n0| && n0[z].parent != m && n0[z].parent != NIL ==> n[z] == n0[z])
    ensures Trees(n, f.kids, f.live - {m}, f.rank, f.live - {m}, NIL)
  {
    var K := f.kids[m];
    assert Tree(n0, f.kids, f.live, f.rank, m, NIL);
    forall x | x in f.live - {m} ensures Tree(n, f.kids, f.live - {m}, f.rank, x, NIL) {
      assert Tree(n0, f.kids, f.live, f.rank, x, NIL);
      if n0[x].parent == m {
        assert x !in f.roots;
        var i :| 0 <= i < |K| && K[i] == x;
      }
      forall i | 0 <= i < |f.kids[x]| ensures f.kids[x][i] != m && n[f.kids[x][i]] == n0[f.kids[x][i]] {
        assert n0[f.kids[x][i]].parent == x;
      }
      TreeFrame(n0, n, f.kids, f.kids, f.live, f.live - {m}, f.rank, f.rank, x, NIL);
    }
  }

  /** Every live node other than m is a new root or still under its live parent. */
  lemma ExtractedCovered(n0: seq<Node>, n: seq<Node>, f: Forest, roots': seq<int>)
    requires Shape(n0, f) && f.roots != [] && |n| == |n0|
    requires var m := f.roots[0]; var K := f.kids[m];
      roots' == (f.roots + K)[1..] &&
      (forall z :: 0 <= z < |n0| && n0[z].parent != m && n0[z].parent != NIL ==> n[z] == n0[z])
    ensures Covered(n, roots', f.kids, f.live - {f.roots[0]})
  {
    var m := f.roots[0];
    var K := f.kids[m];
    assert roots' == f.roots[1..] + K;
    forall y | y in f.live - {m} ensures y in roots' || (n[y].parent in f.live - {m} && y in f.kids[n[y].parent]) {
      if y in f.roots {
        var i :| 0 <= i < |f.roots| && f.roots[i] == y;
        assert y in f.roots[1..];
      } else if n0[y].parent == m {
        assert y in K;
      } else {
        assert n[y] == n0[y];
      }
    }
  }

  /**
   * The forest without its first root m: the other roots followed by m's
   * children form the root ring, and every other node keeps its tree.
   */
  lemma ExtractedShape(n0: seq<Node>, n: seq<Node>, f: Forest, roots': seq<int>)
    requires Shape(n0, f) && f.roots != [] && |n| == |n0|
    requires var m := f.roots[0]; var K := f.kids[m];
      roots' == (f.roots + K)[1..] && (roots' != [] ==> Ring(n, roots')) &&
      (forall i :: 0 <= i < |K| ==> 0 <= K[i] < |n0| && Promoted(n[K[i]], n0[K[i]])) &&
      (forall z :: 0 <= z < |n0| && n0[z].parent != m ==> Relinked(n[z], n0[z])) &&
      (forall z :: 0 <= z < |n0| && n0[z].parent != m && n0[z].parent != NIL ==> n[z] == n0[z])
    ensures Shape(n, f.(roots := roots', live := f.live - {f.roots[0]}))
  {
    var m := f.roots[0];
    assert m in f.roots;
    assert Tree(n0, f.kids, f.live, f.rank, m, NIL);
    ExtractedRootRing(n0, n, f, roots');
    ExtractedTrees(n0, n, f, m);
    ExtractedCovered(n0, n, f, roots');
  }

  /** All children of m have moved: the ring R + K is well formed and nothing else has changed more than Promoting allows. */
  ghost predicate Moved(n0: seq<Node>, n: seq<Node>, m: int, R: seq<int>, K: seq<int>)
  {
    |n| == |n0| && Ring(n, R + K) &&
    (forall i :: 0 <= i < |K| ==> 0 <= K[i] < |n0| && Promoted(n[K[i]], n0[K[i]])) &&
    (forall z :: 0 <= z < |n0| ==> SameEntry(n[z], n0[z])) &&
    (forall z :: 0 <= z < |n0| && n0[z].parent != m ==> Relinked(n[z], n0[z])) &&
    (forall z :: 0 <= z < |n0| && n0[z].parent != m && n0[z].parent != NIL ==> n[z] == n0[z])
  }

  lemma PromotedAll(n0: seq<Node>, n: seq<Node>, m: int, R: seq<int>, K: seq<int>)
    requires Promoting(n0, n, m, R, K, |K|)
    ensures Moved(n0, n, m, R, K)
  {
    assert K[..|K|] == K;
  }

  /** In a heap-ordered forest, the first root's children form its child ring. */
  lemma ChildrenOf(nodes: seq<Node>, f: Forest)
    requires Shape(nodes, f) && f.roots != [] && f.kids[f.roots[0]] != []
    ensures Children(nodes, f.roots[0], f.roots, f.kids[f.roots[0]])
  {
    var m := f.roots[0];
    assert m in f.roots;
    assert Tree(nodes, f.kids, f.live, f.rank, m, NIL);
    forall i | 0 <= i < |f.roots| ensures nodes[f.roots[i]].parent == NIL {
      assert f.roots[i] in f.roots;
    }
  }

  /** The program's loop over the children of the first root m, run only when m has a child. */
  method MoveChildren(nodes: seq<Node>, ghost f: Forest, m: int) returns (nodes': seq<Node>)
    requires Shape(nodes, f) && f.roots != [] && m == f.roots[0]
    ensures Moved(nodes, nodes', m, f.roots, f.kids[m])
  {
    ghost var R := f.roots;
    ghost var K := f.kids[m];
    assert m in f.roots;
    assert Tree(nodes, f.kids, f.live, f.rank, m, NIL);
    if nodes[m].child != NIL {
      ChildrenOf(nodes, f);
      nodes' := PromoteChildren(nodes, m, R, K);
      PromotedAll(nodes, nodes', m, R, K);
    } else {
      nodes' := nodes;
      assert R + K == R;
    }
  }

  /** Taking m, the first member, out of the ring R + K leaves the ring of the others, starting at m's right neighbour. */
  lemma UnlinkedFirst(n1: seq<Node>, n2: seq<Node>, m: int, r: seq<int>)
    requires Ring(n1, r) && r[0] == m
    requires |n2| == |n1| && (|r| >= 2 ==> Ring(n2, r[1..] + r[..0])) && (|r| == 1 ==> n2 == n1)
    requires forall z :: 0 <= z < |n1| && (z !in r || z == m) ==> n2[z] == n1[z]
    ensures r[1..] != [] ==> Ring(n2, r[1..])
    ensures n2[m].right == (if |r| >= 2 then r[1] else m) && (|r| >= 2 ==> r[1] != m)
  {
    assert r[1..] + r[..0] == r[1..];
    assert r[0] in r;
    if |r| >= 2 {
      assert r[0] != r[1];
    }
  }

  /** The pointwise facts of Moved survive any relinking. */
  lemma MovedRelinked(n0: seq<Node>, n1: seq<Node>, n2: seq<Node>, m: int, R: seq<int>, K: seq<int>)
    requires Moved(n0, n1, m, R, K)
    requires |n2| == |n1| && forall z :: 0 <= z < |n1| ==> Relinked(n2[z], n1[z])
    ensures forall i :: 0 <= i < |K| ==> 0 <= K[i] < |n0| && Promoted(n2[K[i]], n0[K[i]])
    ensures forall z :: 0 <= z < |n0| ==> SameEntry(n2[z], n0[z])
    ensures forall z :: 0 <= z < |n0| && n0[z].parent != m ==> Relinked(n2[z], n0[z])
  {
    forall i | 0 <= i < |K| ensures Promoted(n2[K[i]], n0[K[i]]) {
      assert Relinked(n2[K[i]], n1[K[i]]) && Promoted(n1[K[i]], n0[K[i]]);
    }
    forall z | 0 <= z < |n0| ensures SameEntry(n2[z], n0[z]) {
      assert Relinked(n2[z], n1[z]) && SameEntry(n1[z], n0[z]);
    }
    forall z | 0 <= z < |n0| && n0[z].parent != m ensures Relinked(n2[z], n0[z]) {
      assert Relinked(n2[z], n1[z]) && Relinked(n1[z], n0[z]);
    }
  }

  /** The roots have no parent and the first root's children have it as parent. */
  lemma RootParents(nodes: seq<Node>, f: Forest)
    requires Shape(nodes, f) && f.roots != []
    ensures var m := f.roots[0]; var K := f.kids[m];
      (forall i :: 0 <= i < |f.roots| ==> 0 <= f.roots[i] < |nodes| && nodes[f.roots[i]].parent == NIL) &&
      (forall i :: 0 <= i < |K| ==> 0 <= K[i] < |nodes| && nodes[K[i]].parent == m)
  {
    var m := f.roots[0];
    assert m in f.roots;
    assert Tree(nodes, f.kids, f.live, f.rank, m, NIL);
    forall i | 0 <= i < |f.roots| ensures 0 <= f.roots[i] < |nodes| && nodes[f.roots[i]].parent == NIL {
      assert f.roots[i] in f.roots;
    }
  }

  /** A node that is neither a root nor a child of m is not touched when m leaves the ring. */
  lemma MovedThenUnlinked(n0: seq<Node>, n1: seq<Node>, n2: seq<Node>, m: int, R: seq<int>, K: seq<int>)
    requires Moved(n0, n1, m, R, K)
    requires forall i :: 0 <= i < |R| ==> 0 <= R[i] < |n0| && n0[R[i]].parent == NIL
    requires forall i :: 0 <= i < |K| ==> 0 <= K[i] < |n0| && n0[K[i]].parent == m
    requires |n2| == |n1| && forall z :: 0 <= z < |n1| && (z !in R + K || z == m) ==> n2[z] == n1[z]
    ensures forall z :: 0 <= z < |n0| && n0[z].parent != m && n0[z].parent != NIL ==> n2[z] == n0[z]
  {
    var r := R + K;
    forall z | 0 <= z < |n0| && n0[z].parent != m && n0[z].parent != NIL ensures n2[z] == n0[z] {
      forall i | 0 <= i < |r| ensures r[i] != z {
        if i < |R| {
          assert r[i] == R[i];
        } else {
          assert r[i] == K[i - |R|];
        }
      }
    }
  }

  /**
   * The first half of the program's extraire_min on a non-empty heap whose
   * first root m is the minimum: m's children, if any, join the root ring,
   * m leaves it, and right is m's right neighbour, which is m itself exactly
   * when no node is left in the ring.
   */
  method RemoveMin(nodes: seq<Node>, ghost f: Forest, m: int) returns (nodes': seq<Node>, ghost g: Forest, right: int)
    requires Shape(nodes, f) && f.roots != [] && m == f.roots[0]
    ensures |nodes'| == |nodes| && g == f.(roots := (f.roots + f.kids[m])[1..], live := f.live - {m})
    ensures Shape(nodes', g)
    ensures forall z :: 0 <= z < |nodes| ==> SameEntry(nodes'[z], nodes[z])
    ensures right == m <==> g.roots == []
    ensures g.roots != [] ==> right == g.roots[0]
  {
    ghost var r := f.roots + f.kids[m];
    var n1 := MoveChildren(nodes, f, m);
    nodes' := Unlink(n1, m, r, 0);
    UnlinkedFirst(n1, nodes', m, r);
    MovedRelinked(nodes, n1, nodes', m, f.roots, f.kids[m]);
    RootParents(nodes, f);
    MovedThenUnlinked(nodes, n1, nodes', m, f.roots, f.kids[m]);
    g := f.(roots := r[1..], live := f.live - {m});
    ExtractedShape(nodes, nodes', f, g.roots);
    right := nodes'[m].right;
  }
}
