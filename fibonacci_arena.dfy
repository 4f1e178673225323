// The node arena of the Fibonacci heap and its circular doubly-linked rings.
//
// A node is a record in a sequence and is named by its index (a handle); the
// "pointers" parent, child, left and right are handles, with NIL for None. A
// ring is described by the sequence of its handles in right-going order,
// starting anywhere: the right neighbour of each is the next one, and the
// left neighbour of each is the previous one, wrapping around.

module FibonacciArena {
  import opened Graphs

  const NIL: int := -1

  /** A heap node: key, vertex, and the four links, degree and mark of the program's node. */
  datatype Node = Node(key: int, value: Vertex, parent: int, child: int, left: int, right: int,
                       degree: int, mark: bool)

  /** The two nodes agree on key, value, parent, child and degree (their links and marks may differ). */
  predicate SameShape(a: Node, b: Node)
  {
    a.key == b.key && a.value == b.value && a.parent == b.parent && a.child == b.child && a.degree == b.degree
  }

  /** The two nodes hold the same key for the same vertex. */
  predicate SameEntry(a: Node, b: Node)
  {
    a.key == b.key && a.value == b.value
  }

  /** The two nodes have the same left and right links. */
  predicate SameLinks(a: Node, b: Node)
  {
    a.left == b.left && a.right == b.right
  }

  /** r lists, in right-going order, the distinct handles of one well-formed ring. */
  ghost predicate Ring(nodes: seq<Node>, r: seq<int>)
  {
    |r| > 0 &&
    (forall i :: 0 <= i < |r| ==> 0 <= r[i] < |nodes|) &&
    (forall i, j :: 0 <= i < j < |r| ==> r[i] != r[j]) &&
    (forall i :: 0 <= i < |r| - 1 ==> nodes[r[i]].right == r[i + 1] && nodes[r[i + 1]].left == r[i]) &&
    nodes[r[|r| - 1]].right == r[0] && nodes[r[0]].left == r[|r| - 1]
  }

  /** a is b with, at most, other left and right links. */
  predicate Relinked(a: Node, b: Node)
  {
    a == b.(left := a.left, right := a.right)
  }

  /** A ring may be listed from any of its members. */
  lemma RingRotate(nodes: seq<Node>, r: seq<int>, k: nat)
    requires Ring(nodes, r) && k <= |r|
    ensures Ring(nodes, r[k..] + r[..k])
  {
    var n := |r|;
    var s := r[k..] + r[..k];
    if k == 0 || k == n {
      assert s == r;
    } else {
      forall i | 0 <= i < n ensures s[i] == r[if i < n - k then i + k else i + k - n] {
      }
      forall i, j | 0 <= i < j < n ensures s[i] != s[j] {
        assert s[i] == r[if i < n - k then i + k else i + k - n];
        assert s[j] == r[if j < n - k then j + k else j + k - n];
      }
      forall i | 0 <= i < n - 1 ensures nodes[s[i]].right == s[i + 1] && nodes[s[i + 1]].left == s[i] {
        if i == n - k - 1 {
          assert s[i] == r[n - 1] && s[i + 1] == r[0];
        } else if i < n - k - 1 {
          assert s[i] == r[i + k] && s[i + 1] == r[i + k + 1];
        } else {
          assert s[i] == r[i + k - n] && s[i + 1] == r[i + k + 1 - n];
        }
      }
      assert s[n - 1] == r[k - 1] && s[0] == r[k];
    }
  }

  /** A ring stays well formed when the left and right links of its members do not change. */
  lemma RingFrame(nodes: seq<Node>, nodes': seq<Node>, r: seq<int>)
    requires Ring(nodes, r) && |nodes'| >= |nodes|
    requires forall i :: 0 <= i < |r| ==> SameLinks(nodes'[r[i]], nodes[r[i]])
    ensures Ring(nodes', r)
  {
    assert nodes'[r[|r| - 1]].right == nodes[r[|r| - 1]].right;
    assert nodes'[r[0]].left == nodes[r[0]].left;
  }

  /**
   * Splicing x into the ring r just left of its first member a makes x the
   * last member; only x, a and a's left neighbour l change, and only in their
   * links.
   */
  lemma SplicedRing(nodes: seq<Node>, n': seq<Node>, r: seq<int>, x: int)
    requires Ring(nodes, r) && 0 <= x < |nodes| && x !in r && |n'| == |nodes|
    requires var a := r[0]; var l := r[|r| - 1];
      n'[x] == nodes[x].(left := l, right := a) &&
      (if l == a then n'[a] == nodes[a].(left := x, right := x)
       else n'[a] == nodes[a].(left := x) && n'[l] == nodes[l].(right := x)) &&
      forall z :: 0 <= z < |nodes| && z != x && z != a && z != l ==> n'[z] == nodes[z]
    ensures Ring(n', r + [x])
  {
    var a := r[0];
    var l := r[|r| - 1];
    var s := r + [x];
    forall i | 0 <= i < |s| - 1 ensures n'[s[i]].right == s[i + 1] && n'[s[i + 1]].left == s[i] {
      if i == |r| - 1 {
        assert s[i] == l && s[i + 1] == x;
      } else {
        assert s[i] == r[i] && s[i + 1] == r[i + 1];
        assert r[i] != l && r[i + 1] != a;
      }
    }
    assert s[|s| - 1] == x && s[0] == a;
  }

  /**
   * Taking the last member y out of a ring of two or more, by linking its
   * left neighbour l and its right neighbour a (the first member) to each
   * other, leaves the ring of the others.
   */
  lemma UnlinkedLast(nodes: seq<Node>, n': seq<Node>, r: seq<int>)
    requires Ring(nodes, r) && |r| >= 2 && |n'| == |nodes|
    requires var a := r[0]; var l := r[|r| - 2];
      (if l == a then n'[a] == nodes[a].(left := a, right := a)
       else n'[a] == nodes[a].(left := l) && n'[l] == nodes[l].(right := a)) &&
      forall z :: 0 <= z < |nodes| && z != a && z != l ==> n'[z] == nodes[z]
    ensures Ring(n', r[..|r| - 1])
  {
    var l := r[|r| - 2];
    var a := r[0];
    var s := r[..|r| - 1];
    forall i | 0 <= i < |s| - 1 ensures n'[s[i]].right == s[i + 1] && n'[s[i + 1]].left == s[i] {
      assert s[i] == r[i] && s[i + 1] == r[i + 1];
      assert r[i] != l && r[i + 1] != a;
    }
    assert s[|s| - 1] == l && s[0] == a;
  }

  /** Taking r[k] out of a ring of two or more leaves the others, listed from r[k]'s right neighbour. */
  lemma UnlinkedRing(nodes: seq<Node>, n': seq<Node>, r: seq<int>, k: nat)
    requires Ring(nodes, r) && |r| >= 2 && k < |r| && |n'| == |nodes|
    requires var l := nodes[r[k]].left; var a := nodes[r[k]].right;
      0 <= l < |nodes| && 0 <= a < |nodes| &&
      (if l == a then n'[a] == nodes[a].(left := a, right := a)
       else n'[a] == nodes[a].(left := l) && n'[l] == nodes[l].(right := a)) &&
      forall z :: 0 <= z < |nodes| && z != a && z != l ==> n'[z] == nodes[z]
    ensures Ring(n', r[k + 1..] + r[..k])
  {
    RingRotate(nodes, r, k + 1);
    var t := r[k + 1..] + r[..k + 1];
    assert t == (r[k + 1..] + r[..k]) + [r[k]];
    assert t[..|t| - 1] == r[k + 1..] + r[..k];
    assert t[|t| - 1] == r[k];
    assert nodes[r[k]].right == t[0] && nodes[r[k]].left == t[|t| - 2];
    UnlinkedLast(nodes, n', t);
  }

  /**
   * The program's four-step splice of x into the ring r just left of its
   * first member a: x.right := a; x.left := a.left; a.left.right := x;
   * a.left := x. Afterwards x is the last member of the ring.
   */
  method SpliceLeftOf(nodes: seq<Node>, a: int, x: int, ghost r: seq<int>) returns (nodes': seq<Node>)
    requires Ring(nodes, r) && a == r[0] && 0 <= x < |nodes| && x !in r
    ensures |nodes'| == |nodes| && Ring(nodes', r + [x])
    ensures nodes'[x] == nodes[x].(left := r[|r| - 1], right := a)
    ensures forall z :: 0 <= z < |nodes| ==> Relinked(nodes'[z], nodes[z])
    ensures forall z :: 0 <= z < |nodes| && z != x && z != r[0] && z != r[|r| - 1] ==> nodes'[z] == nodes[z]
  {
    ghost var l := r[|r| - 1];
    assert nodes[a].left == l;
    nodes' := nodes[x := nodes[x].(right := a)];
    nodes' := nodes'[x := nodes'[x].(left := nodes'[a].left)];
    var left := nodes'[a].left;
    nodes' := nodes'[left := nodes'[left].(right := x)];
    nodes' := nodes'[a := nodes'[a].(left := x)];
    SplicedRing(nodes, nodes', r, x);
  }

  /**
   * The program's two-step removal of y = r[k] from its ring:
   * y.left.right := y.right; y.right.left := y.left. The others keep a ring;
   * y itself, alone in its ring, is left as it is, and so are y's own links.
   */
  method Unlink(nodes: seq<Node>, y: int, ghost r: seq<int>, ghost k: nat) returns (nodes': seq<Node>)
    requires Ring(nodes, r) && k < |r| && y == r[k]
    ensures |nodes'| == |nodes| && (|r| >= 2 ==> Ring(nodes', r[k + 1..] + r[..k])) && (|r| == 1 ==> nodes' == nodes)
    ensures forall z :: 0 <= z < |nodes| ==> Relinked(nodes'[z], nodes[z])
    ensures forall z :: 0 <= z < |nodes| && (z !in r || z == y) ==> nodes'[z] == nodes[z]
  {
    ghost var ln := nodes[y].left;
    ghost var rn := nodes[y].right;
    assert ln in r && rn in r by {
      if k == 0 {
        assert ln == r[|r| - 1];
      } else {
        assert ln == r[k - 1];
      }
      if k == |r| - 1 {
        assert rn == r[0];
      } else {
        assert rn == r[k + 1];
      }
    }
    var left := nodes[y].left;
    nodes' := nodes[left := nodes[left].(right := nodes[y].right)];
    var right := nodes'[y].right;
    nodes' := nodes'[right := nodes'[right].(left := nodes'[y].left)];
    if |r| == 1 {
      assert ln == y && rn == y;
    } else {
      assert ln != y && rn != y by {
        if k == 0 {
          assert ln == r[|r| - 1];
        } else {
          assert ln == r[k - 1];
        }
        if k == |r| - 1 {
          assert rn == r[0];
        } else {
          assert rn == r[k + 1];
        }
      }
      UnlinkedRing(nodes, nodes', r, k);
    }
  }
}
