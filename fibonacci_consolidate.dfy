// Consolidation of the root ring of a Fibonacci heap (the program's
// _consolider), in its three loops: list the roots from the minimum; link
// roots of equal degree through a table indexed by degree until every
// degree occurs once; rebuild the root ring from the table, tracking the
// minimum.

module FibonacciConsolidation {
  import opened Graphs
  import opened FibonacciArena
  import opened FibonacciForest
  import opened FibonacciLinking

  /** z is the entry of the degree table under its own degree. */
  ghost predicate InTable(nodes: seq<Node>, table: map<int, int>, z: int)
  {
    0 <= z < |nodes| && nodes[z].degree in table && table[nodes[z].degree] == z
  }

  /** Every entry of the degree table is a root whose degree is its index. */
  ghost predicate Tabled(nodes: seq<Node>, roots: seq<int>, table: map<int, int>)
  {
    forall d :: d in table ==> table[d] in roots && 0 <= table[d] < |nodes| && nodes[table[d]].degree == d
  }

  /** The roots list[from..] still to be visited: roots, neither in the table nor the one in hand. */
  ghost predicate Unvisited(nodes: seq<Node>, roots: seq<int>, table: map<int, int>, list: seq<int>, from: int, hand: int)
  {
    forall j :: 0 <= j < |list| && from <= j ==> list[j] in roots && list[j] != hand && !InTable(nodes, table, list[j])
  }

  /** Every root is in the table, still to be visited, or in hand. */
  ghost predicate Gathered(nodes: seq<Node>, roots: seq<int>, table: map<int, int>, list: seq<int>, from: int, hand: int)
  {
    0 <= from <= |list| &&
    forall z {:trigger z in roots} :: z in roots ==> InTable(nodes, table, z) || z in list[from..] || z == hand
  }

  /** The handles of r are pairwise distinct. */
  ghost predicate Distinct(r: seq<int>)
  {
    forall i, j :: 0 <= i < j < |r| ==> r[i] != r[j]
  }

  /** The first loop of the program's _consolider: the roots, listed rightwards from the minimum. */
  method RootList(nodes: seq<Node>, ghost roots: seq<int>, minNode: int) returns (list: seq<int>)
    requires roots != [] && Ring(nodes, roots) && minNode == roots[0]
    ensures list == roots
  {
    list := [];
    var current := minNode;
    while true
      invariant |list| < |roots| && list == roots[..|list|] && current == roots[|list|]
      decreases |roots| - |list|
    {
      list := list + [current];
      current := nodes[current].right;
      if |list| < |roots| {
        assert current == roots[|list|];
      } else {
        assert current == roots[0];
      }
      if current == minNode {
        assert |list| == |roots|;
        return;
      }
    }
  }

  /** Taking the next listed root in hand. */
  lemma Visit(nodes: seq<Node>, roots: seq<int>, table: map<int, int>, list: seq<int>, i: int)
    requires 0 <= i < |list| && Distinct(list) && NIL !in roots
    requires Unvisited(nodes, roots, table, list, i, NIL) && Gathered(nodes, roots, table, list, i, NIL)
    ensures list[i] in roots && !InTable(nodes, table, list[i])
    ensures Unvisited(nodes, roots, table, list, i + 1, list[i]) && Gathered(nodes, roots, table, list, i + 1, list[i])
  {
    assert list[i..] == [list[i]] + list[i + 1..];
    forall z | z in roots ensures InTable(nodes, table, z) || z in list[i + 1..] || z == list[i] {
      if z in list[i..] && z != list[i] {
        assert z in list[i + 1..];
      }
    }
  }

  /** Filing the root in hand under its degree, which is free. */
  lemma File(nodes: seq<Node>, roots: seq<int>, table: map<int, int>, list: seq<int>, i: int, hand: int, degree: int)
    requires 0 <= i < |list| && hand in roots && 0 <= hand < |nodes| && nodes[hand].degree == degree && degree !in table
    requires Tabled(nodes, roots, table) && NIL !in roots
    requires Unvisited(nodes, roots, table, list, i + 1, hand) && Gathered(nodes, roots, table, list, i + 1, hand)
    ensures Tabled(nodes, roots, table[degree := hand])
    ensures Unvisited(nodes, roots, table[degree := hand], list, i + 1, NIL)
    ensures Gathered(nodes, roots, table[degree := hand], list, i + 1, NIL)
  {
    var t := table[degree := hand];
    forall j | i + 1 <= j < |list| ensures !InTable(nodes, t, list[j]) {
      assert !InTable(nodes, table, list[j]) && list[j] != hand;
    }
    forall z | z in roots ensures InTable(nodes, t, z) || z in list[i + 1..] || z == NIL {
      if InTable(nodes, table, z) {
        assert nodes[z].degree != degree;
      }
    }
  }

  /**
   * After the root y is linked under the root x (one of them the root in
   * hand, the other the table's entry under the same degree), x is in hand
   * with a degree one higher and that entry is gone.
   */
  lemma Merged(n: seq<Node>, n': seq<Node>, roots: seq<int>, roots': seq<int>, table: map<int, int>,
               list: seq<int>, from: int, hand: int, degree: int, x: int, y: int)
    requires Tabled(n, roots, table) && degree in table && hand in roots && 0 <= hand < |n|
    requires n[hand].degree == degree && !InTable(n, table, hand)
    requires (x == hand && y == table[degree]) || (x == table[degree] && y == hand)
    requires Unvisited(n, roots, table, list, from, hand) && Gathered(n, roots, table, list, from, hand)
    requires forall z :: z in roots' <==> z in roots && z != y
    requires |n'| == |n| && n'[x].degree == n[x].degree + 1
    requires forall z :: 0 <= z < |n| && z != x ==> n'[z].degree == n[z].degree
    ensures Tabled(n', roots', table - {degree}) && x in roots' && 0 <= x < |n'| && n'[x].degree == degree + 1
    ensures !InTable(n', table - {degree}, x)
    ensures Unvisited(n', roots', table - {degree}, list, from, x) && Gathered(n', roots', table - {degree}, list, from, x)
  {
    var t := table - {degree};
    assert x != y;
    forall d | d in t ensures t[d] in roots' && 0 <= t[d] < |n'| && n'[t[d]].degree == d {
      assert table[d] != y && table[d] != x;
    }
    forall j | from <= j < |list| ensures list[j] in roots' && list[j] != x && !InTable(n', t, list[j]) {
      assert list[j] != y && list[j] != x;
      assert !InTable(n, table, list[j]);
    }
    forall z | z in roots' ensures InTable(n', t, z) || z in list[from..] || z == x {
      assert z in roots && z != y;
      if z != x && InTable(n, table, z) {
        assert n[z].degree != degree;
      }
    }
  }

  /**
   * One step of the program's inner loop, after Link(y, x): the forest with y
   * under x is well formed, x is in hand with a degree one higher, and the
   * table has lost the entry under the old degree.
   */
  lemma MergeStep(n0: seq<Node>, n: seq<Node>, n': seq<Node>, g: Forest, k: nat, x: int, y: int,
                  table: map<int, int>, list: seq<int>, from: int, hand: int, degree: int)
    requires Shape(n, g) && |n| == |n0| && forall z :: 0 <= z < |n0| ==> SameEntry(n[z], n0[z])
    requires Tabled(n, g.roots, table) && degree in table && hand in g.roots && 0 <= hand < |n|
    requires n[hand].degree == degree && !InTable(n, table, hand)
    requires (x == hand && y == table[degree]) || (x == table[degree] && y == hand)
    requires Unvisited(n, g.roots, table, list, from, hand) && Gathered(n, g.roots, table, list, from, hand)
    requires k < |g.roots| && y == g.roots[k] && n[x].key <= n[y].key
    requires var K := g.kids[x];
      |n'| == |n| && Ring(n', g.roots[k + 1..] + g.roots[..k]) && Ring(n', K + [y]) &&
      n'[x].child == (K + [y])[0] && n'[x].degree == n[x].degree + 1 &&
      n'[x].key == n[x].key && n'[x].value == n[x].value && n'[x].parent == NIL &&
      n'[y].parent == x && n'[y].key == n[y].key && n'[y].value == n[y].value &&
      n'[y].child == n[y].child && n'[y].degree == n[y].degree &&
      (forall z :: 0 <= z < |n| && z != x && z != y ==> SameShape(n'[z], n[z])) &&
      (forall z :: 0 <= z < |n| && n[z].parent != NIL && n[z].parent != x ==> SameLinks(n'[z], n[z]))
    ensures x in g.roots && 0 <= x < |g.kids| && 0 <= x < |g.rank| && 0 <= y < |g.rank|
    ensures var g' := Adopted(g, k, x);
      Shape(n', g') && g'.live == g.live && |g'.roots| < |g.roots| && |n'| == |n0| &&
      (forall z :: 0 <= z < |n0| ==> SameEntry(n'[z], n0[z])) &&
      Tabled(n', g'.roots, table - {degree}) &&
      x in g'.roots && 0 <= x < |n'| && n'[x].degree == degree + 1 && !InTable(n', table - {degree}, x) &&
      Unvisited(n', g'.roots, table - {degree}, list, from, x) && Gathered(n', g'.roots, table - {degree}, list, from, x)
  {
    assert x in g.roots;
    LinkForest(n, n', g, k, x);
    var g' := Adopted(g, k, x);
    forall z | 0 <= z < |n| && z != x ensures n'[z].degree == n[z].degree {
      if z != y {
        assert SameShape(n'[z], n[z]);
      }
    }
    Merged(n, n', g.roots, g'.roots, table, list, from, hand, degree, x, y);
    forall z | 0 <= z < |n0| ensures SameEntry(n'[z], n0[z]) {
      assert SameEntry(n[z], n0[z]);
      if z != x && z != y {
        assert SameShape(n'[z], n[z]);
      }
    }
  }

  /**
   * The inner loop of the program's second loop: while the table holds a root
   * of the same degree as the root in hand, the one of the two with the
   * larger key is linked under the other, which is then in hand, and the
   * table entry is removed; the degree in hand is then free in the table.
   */
  method Absorb(ghost n0: seq<Node>, nodes: seq<Node>, ghost g: Forest, table: map<int, int>,
                ghost list: seq<int>, ghost from: int, noeud: int)
    returns (nodes': seq<Node>, ghost g': Forest, table': map<int, int>, noeud': int, degre: int)
    requires Shape(nodes, g) && |nodes| == |n0| && forall z :: 0 <= z < |n0| ==> SameEntry(nodes[z], n0[z])
    requires Tabled(nodes, g.roots, table)
    requires noeud in g.roots && 0 <= noeud < |nodes| && !InTable(nodes, table, noeud)
    requires Unvisited(nodes, g.roots, table, list, from, noeud) && Gathered(nodes, g.roots, table, list, from, noeud)
    ensures Shape(nodes', g') && g'.live == g.live && |nodes'| == |n0|
    ensures forall z :: 0 <= z < |n0| ==> SameEntry(nodes'[z], n0[z])
    ensures Tabled(nodes', g'.roots, table') && degre !in table'
    ensures noeud' in g'.roots && 0 <= noeud' < |nodes'| && degre == nodes'[noeud'].degree
    ensures Unvisited(nodes', g'.roots, table', list, from, noeud') && Gathered(nodes', g'.roots, table', list, from, noeud')
  {
    nodes', g', table', noeud' := nodes, g, table, noeud;
    degre := nodes'[noeud'].degree;
    while degre in table'
      invariant Shape(nodes', g') && g'.live == g.live && |nodes'| == |n0|
      invariant forall z :: 0 <= z < |n0| ==> SameEntry(nodes'[z], n0[z])
      invariant Tabled(nodes', g'.roots, table')
      invariant noeud' in g'.roots && 0 <= noeud' < |nodes'| && degre == nodes'[noeud'].degree && !InTable(nodes', table', noeud')
      invariant Unvisited(nodes', g'.roots, table', list, from, noeud') && Gathered(nodes', g'.roots, table', list, from, noeud')
      decreases |g'.roots|
    {
      var autre := table'[degre];
      ghost var hand := noeud';
      if nodes'[noeud'].key > nodes'[autre].key {
        noeud', autre := autre, noeud';
      }
      ghost var k :| 0 <= k < |g'.roots| && g'.roots[k] == autre;
      assert Tree(nodes', g'.kids, g'.live, g'.rank, noeud', NIL);
      var n := Link(nodes', autre, noeud', g'.roots, g'.live, g'.kids[noeud'], k);
      MergeStep(n0, nodes', n, g', k, noeud', autre, table', list, from, hand, degre);
      nodes', g' := n, Adopted(g', k, noeud');
      table' := table' - {degre};
      degre := degre + 1;
    }
  }

  /**
   * The second loop of the program's _consolider: each listed root in turn is
   * taken in hand, merged with the roots of equal degree (Absorb) and filed
   * under its degree. Afterwards the roots are exactly the table's entries.
   */
  method MergeRoots(nodes: seq<Node>, ghost f: Forest, list: seq<int>) returns (nodes': seq<Node>, ghost g: Forest, table: map<int, int>)
    requires Shape(nodes, f) && list == f.roots
    ensures Shape(nodes', g) && g.live == f.live && |nodes'| == |nodes|
    ensures forall z :: 0 <= z < |nodes| ==> SameEntry(nodes'[z], nodes[z])
    ensures Tabled(nodes', g.roots, table) && forall z {:trigger z in g.roots} :: z in g.roots ==> InTable(nodes', table, z)
  {
    assert Distinct(list) by {
      if list != [] {
        assert Ring(nodes, list);
      }
    }
    nodes', g, table := nodes, f, map[];
    var i := 0;
    while i < |list|
      invariant 0 <= i <= |list| && Shape(nodes', g) && g.live == f.live && |nodes'| == |nodes|
      invariant forall z :: 0 <= z < |nodes| ==> SameEntry(nodes'[z], nodes[z])
      invariant Tabled(nodes', g.roots, table)
      invariant Unvisited(nodes', g.roots, table, list, i, NIL) && Gathered(nodes', g.roots, table, list, i, NIL)
    {
      assert NIL !in g.roots;
      Visit(nodes', g.roots, table, list, i);
      var noeud, degre;
      nodes', g, table, noeud, degre := Absorb(nodes, nodes', g, table, list, i + 1, list[i]);
      assert NIL !in g.roots;
      File(nodes', g.roots, table, list, i, noeud, degre);
      table := table[degre := noeud];
      i := i + 1;
    }
    assert NIL !in g.roots;
  }

  /** n is n0 with other left and right links only, and only on nodes without a parent. */
  ghost predicate Relinks(n0: seq<Node>, n: seq<Node>)
  {
    |n| == |n0| &&
    (forall z :: 0 <= z < |n0| ==> Relinked(n[z], n0[z])) &&
    (forall z :: 0 <= z < |n0| && n0[z].parent != NIL ==> n[z] == n0[z])
  }

  /** Relinking roots only, into a new ring of the same roots, keeps the forest well formed. */
  lemma RelinkedRoots(nodes: seq<Node>, n': seq<Node>, f: Forest, roots': seq<int>)
    requires Shape(nodes, f) && Relinks(nodes, n')
    requires roots' != [] ==> Ring(n', roots')
    requires forall z :: z in roots' <==> z in f.roots
    ensures Shape(n', f.(roots := roots'))
  {
    forall y | y in roots' ensures y in f.live && 0 <= y < |n'| && n'[y].parent == NIL {
      assert y in f.roots;
    }
    TreesFrame(nodes, n', f.kids, f.kids, f.live, f.live, f.rank, f.rank, f.live, NIL);
    CoveredByRoots(nodes, f.roots, roots', f.kids, f.live);
    assert Covered(n', roots', f.kids, f.live) by {
      forall y | y in f.live ensures y in roots' || (n'[y].parent in f.live && y in f.kids[n'[y].parent]) {
        assert Relinked(n'[y], nodes[y]);
      }
    }
  }

  /** Relinking twice is relinking. */
  lemma RelinkedTwice(n0: seq<Node>, n1: seq<Node>, n2: seq<Node>)
    requires Relinks(n0, n1)
    requires |n2| == |n1| && forall z :: 0 <= z < |n1| ==> Relinked(n2[z], n1[z])
    requires forall z :: 0 <= z < |n1| && n1[z].parent != NIL ==> n2[z] == n1[z]
    ensures Relinks(n0, n2)
  {
    forall z | 0 <= z < |n0| ensures Relinked(n2[z], n0[z]) {
      assert Relinked(n1[z], n0[z]) && Relinked(n2[z], n1[z]);
    }
  }

  /** The program's two writes that make x a ring of its own: x.left := x; x.right := x. */
  method SelfLoop(nodes: seq<Node>, x: int) returns (nodes': seq<Node>)
    requires 0 <= x < |nodes|
    ensures |nodes'| == |nodes| && Ring(nodes', [x])
    ensures forall z :: 0 <= z < |nodes| ==> Relinked(nodes'[z], nodes[z])
    ensures forall z :: 0 <= z < |nodes| && z != x ==> nodes'[z] == nodes[z]
  {
    nodes' := nodes[x := nodes[x].(left := x)];
    nodes' := nodes'[x := nodes'[x].(right := x)];
  }

  /** The program's write x.parent := None, which changes nothing on a root. */
  method ClearParent(nodes: seq<Node>, x: int) returns (nodes': seq<Node>)
    requires 0 <= x < |nodes|
    ensures |nodes'| == |nodes| && nodes'[x] == nodes[x].(parent := NIL)
    ensures forall z :: 0 <= z < |nodes| && z != x ==> nodes'[z] == nodes[z]
    ensures nodes[x].parent == NIL ==> nodes' == nodes
  {
    nodes' := nodes[x := nodes[x].(parent := NIL)];
  }

  /** The ring being built has the minimum so far first; there is none before the first entry. */
  ghost predicate Building(nodes: seq<Node>, built: seq<int>, minNode: int)
  {
    (minNode == NIL <==> built == []) && (built != [] ==> Ring(nodes, built) && minNode == built[0])
  }

  /**
   * One step of the program's third loop: the root x joins the ring being
   * built (alone when there is no minimum yet, otherwise left of the
   * minimum), becomes the minimum when its key is smaller, and loses its
   * parent link, which it does not have.
   */
  method Place(ghost n0: seq<Node>, nodes: seq<Node>, ghost built: seq<int>, minNode: int, x: int)
    returns (nodes': seq<Node>, ghost built': seq<int>, minNode': int)
    requires Relinks(n0, nodes) && Building(nodes, built, minNode)
    requires 0 <= x < |n0| && n0[x].parent == NIL && x !in built
    requires forall i :: 0 <= i < |built| ==> 0 <= built[i] < |n0| && n0[built[i]].parent == NIL
    ensures Relinks(n0, nodes') && Building(nodes', built', minNode') && built' != []
    ensures if built != [] && n0[x].key < n0[built[0]].key then built' == [x] + built
            else built' == built + [x]
  {
    if minNode == NIL {
      nodes' := SelfLoop(nodes, x);
      minNode' := x;
      built' := [x];
    } else {
      nodes' := SpliceLeftOf(nodes, minNode, x, built);
      assert built[0] in built && built[|built| - 1] in built;
      assert Relinked(nodes'[x], nodes[x]) && Relinked(nodes'[minNode], nodes[minNode]);
      if nodes'[x].key < nodes'[minNode].key {
        RingRotate(nodes', built + [x], |built|);
        assert (built + [x])[|built|..] + (built + [x])[..|built|] == [x] + built;
        minNode' := x;
        built' := [x] + built;
      } else {
        minNode' := minNode;
        built' := built + [x];
      }
    }
    RelinkedTwice(n0, nodes, nodes');
    assert nodes'[x].parent == NIL;
    nodes' := ClearParent(nodes', x);
  }

  /**
   * The entries of the table still to be placed are those not in the ring
   * being built; the ring holds table entries, all roots, the first with the
   * least key.
   */
  ghost predicate Filing(nodes: seq<Node>, table: map<int, int>, rest: set<(int, int)>, built: seq<int>)
  {
    rest <= table.Items &&
    (forall d :: d in table ==> ((d, table[d]) in rest <==> table[d] !in built)) &&
    (forall i :: 0 <= i < |built| ==> 0 <= built[i] < |nodes| && nodes[built[i]].parent == NIL && InTable(nodes, table, built[i])) &&
    (forall i :: 0 <= i < |built| ==> nodes[built[0]].key <= nodes[built[i]].key)
  }

  /** An entry still to be placed is a parentless root in the arena, not yet in the ring. */
  lemma NextEntry(nodes: seq<Node>, roots: seq<int>, table: map<int, int>, rest: set<(int, int)>, built: seq<int>, entry: (int, int))
    requires Tabled(nodes, roots, table) && Filing(nodes, table, rest, built) && entry in rest
    requires forall e :: e in table ==> nodes[table[e]].parent == NIL
    ensures entry.0 in table && table[entry.0] == entry.1 && 0 <= entry.1 < |nodes| && nodes[entry.1].parent == NIL
    ensures entry.1 !in built
    ensures forall i :: 0 <= i < |built| ==> 0 <= built[i] < |nodes| && nodes[built[i]].parent == NIL
  {
    var (d, x) := entry;
    assert entry in table.Items;
    assert d in table && table[d] == x;
    assert table[d] in roots;
  }

  /** After placing the entry under degree d, it is built and no longer to be placed. */
  lemma Placed(nodes: seq<Node>, roots: seq<int>, table: map<int, int>, rest: set<(int, int)>, d: int,
               built: seq<int>, built': seq<int>)
    requires Tabled(nodes, roots, table) && d in table && (d, table[d]) in rest
    requires Filing(nodes, table, rest, built) && forall e :: e in table ==> nodes[table[e]].parent == NIL
    requires 0 <= table[d] < |nodes|
    requires var x := table[d];
      if built != [] && nodes[x].key < nodes[built[0]].key then built' == [x] + built else built' == built + [x]
    ensures Filing(nodes, table, rest - {(d, table[d])}, built')
  {
    var x := table[d];
    assert InTable(nodes, table, x);
    forall e | e in table ensures (e, table[e]) in rest - {(d, x)} <==> table[e] !in built' {
      if e != d {
        assert table[e] != x;
      }
    }
  }

  /** Once every table entry is placed, the new ring holds the roots, with distinct degrees. */
  lemma Rebuilt(nodes: seq<Node>, n': seq<Node>, g: Forest, table: map<int, int>, built: seq<int>, minNode: int)
    requires Shape(nodes, g) && Tabled(nodes, g.roots, table)
    requires forall z {:trigger z in g.roots} :: z in g.roots ==> InTable(nodes, table, z)
    requires Relinks(nodes, n') && Building(n', built, minNode) && Filing(nodes, table, {}, built)
    ensures Shape(n', g.(roots := built))
    ensures forall z :: z in built <==> z in g.roots
    ensures (minNode == NIL <==> built == []) && (built != [] ==> minNode == built[0])
    ensures forall i :: 0 <= i < |built| ==> n'[minNode].key <= n'[built[i]].key
    ensures forall i, j :: 0 <= i < j < |built| ==> n'[built[i]].degree != n'[built[j]].degree
  {
    forall z ensures z in built <==> z in g.roots {
      if z in g.roots {
        assert InTable(nodes, table, z);
      }
    }
    RelinkedRoots(nodes, n', g, built);
    forall i | 0 <= i < |built| ensures n'[minNode].key <= n'[built[i]].key {
      assert Relinked(n'[built[i]], nodes[built[i]]) && Relinked(n'[built[0]], nodes[built[0]]);
    }
    forall i, j | 0 <= i < j < |built| ensures n'[built[i]].degree != n'[built[j]].degree {
      assert InTable(nodes, table, built[i]) && InTable(nodes, table, built[j]);
      assert Relinked(n'[built[i]], nodes[built[i]]) && Relinked(n'[built[j]], nodes[built[j]]);
    }
  }

  /**
   * The third loop of the program's _consolider: the table's entries, in any
   * order, are made into a new root ring, the first alone in its own ring
   * and the others spliced left of the minimum so far; each becomes the
   * minimum when its key is smaller, and loses its parent link. Afterwards
   * the roots are the same, no two have the same degree, and the minimum
   * comes first.
   */
  method Rebuild(nodes: seq<Node>, ghost g: Forest, table: map<int, int>) returns (nodes': seq<Node>, ghost f: Forest, minNode: int)
    requires Shape(nodes, g) && Tabled(nodes, g.roots, table)
    requires forall z {:trigger z in g.roots} :: z in g.roots ==> InTable(nodes, table, z)
    ensures Shape(nodes', f) && f == g.(roots := f.roots) && Relinks(nodes, nodes')
    ensures forall z :: z in f.roots <==> z in g.roots
    ensures (minNode == NIL <==> f.roots == []) && (f.roots != [] ==> minNode == f.roots[0])
    ensures forall i :: 0 <= i < |f.roots| ==> nodes'[minNode].key <= nodes'[f.roots[i]].key
    ensures forall i, j :: 0 <= i < j < |f.roots| ==> nodes'[f.roots[i]].degree != nodes'[f.roots[j]].degree
  {
    nodes', minNode := nodes, NIL;
    ghost var built: seq<int> := [];
    assert forall e :: e in table ==> nodes[table[e]].parent == NIL;
    var rest := table.Items;
    while rest != {}
      invariant Relinks(nodes, nodes') && Building(nodes', built, minNode) && Filing(nodes, table, rest, built)
      decreases rest
    {
      var entry :| entry in rest;
      var (d, noeud) := entry;
      NextEntry(nodes, g.roots, table, rest, built, entry);
      ghost var before := built;
      nodes', built, minNode := Place(nodes, nodes', built, minNode, noeud);
      Placed(nodes, g.roots, table, rest, d, before, built);
      rest := rest - {entry};
    }
    f := g.(roots := built);
    Rebuilt(nodes, nodes', g, table, built, minNode);
  }

  /**
   * The program's _consolider: nothing to do without a minimum; otherwise the
   * roots, listed from the minimum, are merged until no two have the same
   * degree and put back in a ring headed by a least live node. The live
   * nodes and their entries are unchanged.
   */
  method Consolidate(nodes: seq<Node>, ghost f: Forest, minNode: int) returns (nodes': seq<Node>, ghost f': Forest, minNode': int)
    requires Shape(nodes, f) && (minNode == NIL <==> f.roots == []) && (f.roots != [] ==> minNode == f.roots[0])
    ensures Shape(nodes', f') && f'.live == f.live && |nodes'| == |nodes|
    ensures forall z :: 0 <= z < |nodes| ==> SameEntry(nodes'[z], nodes[z])
    ensures minNode == NIL ==> nodes' == nodes && f' == f && minNode' == NIL
    ensures (minNode' == NIL <==> f'.roots == []) && (f'.roots != [] ==> minNode' == f'.roots[0])
    ensures forall z :: z in f'.live ==> 0 <= minNode' < |nodes'| && nodes'[minNode'].key <= nodes'[z].key
    ensures forall i, j :: 0 <= i < j < |f'.roots| ==> nodes'[f'.roots[i]].degree != nodes'[f'.roots[j]].degree
  {
    if minNode == NIL {
      RootsNonEmpty(nodes, f);
      return nodes, f, NIL;
    }
    var list := RootList(nodes, f.roots, minNode);
    var table;
    ghost var g;
    var merged;
    merged, g, table := MergeRoots(nodes, f, list);
    nodes', f', minNode' := Rebuild(merged, g, table);
    RootsNonEmpty(nodes', f');
    if f'.roots != [] {
      LeastRoot(nodes', f');
      assert f'.roots[0] in f'.roots;
    }
    forall z | 0 <= z < |nodes| ensures SameEntry(nodes'[z], nodes[z]) {
      assert SameEntry(merged[z], nodes[z]) && Relinked(nodes'[z], merged[z]);
    }
  }
}
