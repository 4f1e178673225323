// The indexed binary min-heap used by the first variant of Dijkstra's
// algorithm.
//
// Entries are (priority, vertex) pairs kept in a list laid out as a binary
// tree (the parent of index i > 0 is (i - 1) / 2). Beside the list the heap
// keeps `positions`, the index of each vertex's entry, so that a vertex's
// priority can be lowered in place. Every vertex has at most one entry; the
// abstract value of the heap is the map from each vertex in it to its priority.

module BinaryHeap {
  import opened Graphs


  type Entry = (int, Vertex)

  function Parent(i: nat): nat
    requires i > 0
  {
    (i - 1) / 2
  }

  /** Heap order everywhere except possibly between index k and its parent. */
  ghost predicate OrderedExceptUp(t: seq<Entry>, k: nat)
  {
    forall j :: 0 < j < |t| && j != k ==> t[Parent(j)].0 <= t[j].0
  }

  /** Heap order everywhere except possibly between index k and its children. */
  ghost predicate OrderedExceptDown(t: seq<Entry>, k: nat)
  {
    forall j :: 0 < j < |t| && Parent(j) != k ==> t[Parent(j)].0 <= t[j].0
  }

  /** The parent of k is no greater than the children of k. */
  ghost predicate Bridged(t: seq<Entry>, k: nat)
  {
    0 < k < |t| ==> forall j :: 0 < j < |t| && Parent(j) == k ==> t[Parent(k)].0 <= t[j].0
  }

  /** Every entry's priority is at least its parent's. */
  ghost predicate HeapOrdered(t: seq<Entry>)
  {
    forall j :: 0 < j < |t| ==> t[Parent(j)].0 <= t[j].0
  }

  /** positions[v] == i exactly when the entry at index i is v's. */
  ghost predicate Indexed(t: seq<Entry>, pos: map<Vertex, nat>)
  {
    (forall i :: 0 <= i < |t| ==> t[i].1 in pos && pos[t[i].1] == i) &&
    (forall v :: v in pos ==> pos[v] < |t| && t[pos[v]].1 == v)
  }

  /** The priority of every vertex that has an entry. */
  ghost function ContentsOf(t: seq<Entry>, pos: map<Vertex, nat>): map<Vertex, int>
  {
    map v | v in pos && pos[v] < |t| :: t[pos[v]].0
  }

  /** The root of a heap-ordered list holds a minimum priority. */
  lemma {:induction false} RootIsMinimum(t: seq<Entry>, i: nat)
    requires HeapOrdered(t) && i < |t|
    ensures t[0].0 <= t[i].0
    decreases i
  {
    if i > 0 { RootIsMinimum(t, Parent(i)); }
  }

  /** Exchanging two entries and their indices keeps the index exact and the contents. */
  lemma SwapKeepsContents(t: seq<Entry>, pos: map<Vertex, nat>, i: nat, j: nat)
    requires Indexed(t, pos) && i < |t| && j < |t|
    ensures var t' := t[i := t[j]][j := t[i]];
      var pos' := pos[t'[i].1 := i][t'[j].1 := j];
      Indexed(t', pos') && ContentsOf(t', pos') == ContentsOf(t, pos) && pos'.Keys == pos.Keys
  {
    var t' := t[i := t[j]][j := t[i]];
    var pos' := pos[t'[i].1 := i][t'[j].1 := j];
    assert pos'.Keys == pos.Keys;
    if i != j {
      assert t[i].1 != t[j].1;
    }
  }

  /** One step of sifting up keeps the single possible violation one level higher. */
  lemma SiftUpStep(t: seq<Entry>, i: nat)
    requires 0 < i < |t| && OrderedExceptUp(t, i) && Bridged(t, i)
    requires t[i].0 < t[Parent(i)].0
    ensures var p := Parent(i);
      var t' := t[i := t[p]][p := t[i]];
      OrderedExceptUp(t', p) && Bridged(t', p)
  {
    var p := Parent(i);
    var t' := t[i := t[p]][p := t[i]];
    forall j | 0 < j < |t'| && j != p ensures t'[Parent(j)].0 <= t'[j].0 {
      if Parent(j) == i {
        assert t'[j] == t[j];
      } else if Parent(j) == p && j != i {
        assert t'[j] == t[j];
      }
    }
    if 0 < p {
      forall j | 0 < j < |t'| && Parent(j) == p ensures t'[Parent(p)].0 <= t'[j].0 {
        assert Parent(p) != i && Parent(p) != p;
        if j != i { assert t'[j] == t[j]; }
      }
    }
  }

  /** One step of sifting down keeps the single possible violation one level lower. */
  lemma SiftDownStep(t: seq<Entry>, i: nat, m: nat)
    requires i < m < |t| && Parent(m) == i
    requires OrderedExceptDown(t, i) && Bridged(t, i)
    requires t[m].0 < t[i].0
    requires forall c :: 0 < c < |t| && Parent(c) == i ==> t[m].0 <= t[c].0
    ensures var t' := t[i := t[m]][m := t[i]];
      OrderedExceptDown(t', m) && Bridged(t', m)
  {
    var t' := t[i := t[m]][m := t[i]];
    forall j | 0 < j < |t'| && Parent(j) != m ensures t'[Parent(j)].0 <= t'[j].0 {
      if j == i {
        assert t'[Parent(j)] == t[Parent(i)];
      } else if Parent(j) == i && j != m {
        assert t'[j] == t[j];
      } else if j != m {
        assert t'[j] == t[j];
        assert Parent(j) != m && Parent(j) != i;
        assert t'[Parent(j)] == t[Parent(j)];
      }
    }
    forall j | 0 < j < |t'| && Parent(j) == m ensures t'[Parent(m)].0 <= t'[j].0 {
      assert j != i && j != m;
      assert t'[j] == t[j];
    }
  }

  /** Moving the last entry to the root removes the root's vertex and nothing else. */
  lemma RemoveRoot(t: seq<Entry>, pos: map<Vertex, nat>)
    requires HeapOrdered(t) && Indexed(t, pos) && |t| >= 2
    ensures var n := |t| - 1;
      var t' := t[..n][0 := t[n]];
      var pos' := (pos - {t[0].1})[t[n].1 := 0];
      Indexed(t', pos') && ContentsOf(t', pos') == ContentsOf(t, pos) - {t[0].1} &&
      OrderedExceptDown(t', 0) && Bridged(t', 0)
  {
    var n := |t| - 1;
    var t' := t[..n][0 := t[n]];
    var pos' := (pos - {t[0].1})[t[n].1 := 0];
    assert t[0].1 != t[n].1;
    assert pos'.Keys == pos.Keys - {t[0].1};
    forall i | 0 <= i < |t'| ensures t'[i].1 in pos' && pos'[t'[i].1] == i {
      if i > 0 { assert t'[i] == t[i]; assert t[i].1 != t[0].1 && t[i].1 != t[n].1; }
    }
    forall j | 0 < j < |t'| && Parent(j) != 0 ensures t'[Parent(j)].0 <= t'[j].0 {
      assert t'[j] == t[j] && t'[Parent(j)] == t[Parent(j)];
    }
  }

  /** Lowering the priority at index i changes that vertex's priority and leaves one possible violation above i. */
  lemma LowerAt(t: seq<Entry>, pos: map<Vertex, nat>, i: nat, priority: int)
    requires HeapOrdered(t) && Indexed(t, pos) && i < |t| && priority < t[i].0
    ensures var t' := t[i := (priority, t[i].1)];
      Indexed(t', pos) && ContentsOf(t', pos) == ContentsOf(t, pos)[t[i].1 := priority] &&
      OrderedExceptUp(t', i) && Bridged(t', i)
  {
    var t' := t[i := (priority, t[i].1)];
    forall v | v in pos ensures t'[pos[v]].1 == v {
      if pos[v] != i { assert t'[pos[v]] == t[pos[v]]; }
    }
    assert ContentsOf(t', pos) == ContentsOf(t, pos)[t[i].1 := priority];
    if 0 < i {
      forall j | 0 < j < |t'| && Parent(j) == i ensures t'[Parent(i)].0 <= t'[j].0 {
        assert t[Parent(i)].0 <= t[i].0 <= t[j].0;
      }
    }
  }

  /** Appending an entry for a new vertex indexes it last and leaves one possible violation above it. */
  lemma AppendEntry(t: seq<Entry>, pos: map<Vertex, nat>, e: Entry)
    requires HeapOrdered(t) && Indexed(t, pos) && e.1 !in ContentsOf(t, pos)
    ensures var t' := t + [e];
      var pos' := pos[e.1 := |t|];
      Indexed(t', pos') && ContentsOf(t', pos') == ContentsOf(t, pos)[e.1 := e.0] &&
      OrderedExceptUp(t', |t|) && Bridged(t', |t|)
  {
    var t' := t + [e];
    var pos' := pos[e.1 := |t|];
    assert forall i :: 0 <= i < |t| ==> t'[i] == t[i];
    assert e.1 !in pos;
    assert ContentsOf(t', pos') == ContentsOf(t, pos)[e.1 := e.0];
  }

  /** Removing the only entry leaves the heap empty. */
  lemma RemoveOnly(t: seq<Entry>, pos: map<Vertex, nat>)
    requires Indexed(t, pos) && |t| == 1
    ensures pos - {t[0].1} == map[] && ContentsOf(t, pos) - {t[0].1} == map[]
  {
    assert pos.Keys == {t[0].1};
  }

  class Tas {
    var tas: seq<Entry>
    var positions: map<Vertex, nat>

    ghost predicate Valid()
      reads this
    {
      HeapOrdered(tas) && Indexed(tas, positions)
    }

    /** The priority of each vertex that has an entry. */
    ghost function Contents(): map<Vertex, int>
      reads this
    {
      ContentsOf(tas, positions)
    }

    constructor ()
      ensures Valid() && Contents() == map[]
    {
      tas := [];
      positions := map[];
    }

    method IsEmpty() returns (empty: bool)
      requires Valid()
      ensures empty <==> Contents() == map[]
    {
      empty := |tas| == 0;
      if !empty {
        assert tas[0].1 in Contents();
      }
    }

    /** Exchanges the entries at i and j, keeping positions exact. */
    method Swap(i: nat, j: nat)
      requires Indexed(tas, positions) && i < |tas| && j < |tas|
      modifies this
      ensures tas == old(tas)[i := old(tas)[j]][j := old(tas)[i]]
      ensures Indexed(tas, positions) && Contents() == old(Contents())
      ensures positions.Keys == old(positions).Keys
    {
      SwapKeepsContents(tas, positions, i, j);
      tas := tas[i := tas[j]][j := tas[i]];
      if tas[i].1 in positions {
        positions := positions[tas[i].1 := i];
      }
      if tas[j].1 in positions {
        positions := positions[tas[j].1 := j];
      }
    }

    /** Moves the entry at i up while it is smaller than its parent. */
    method SiftUp(i: nat)
      requires Indexed(tas, positions) && i < |tas|
      requires OrderedExceptUp(tas, i) && Bridged(tas, i)
      modifies this
      ensures Valid() && Contents() == old(Contents()) && |tas| == old(|tas|)
      ensures positions.Keys == old(positions).Keys
    {
      var k: nat := i;
      while k > 0
        invariant k < |tas| == old(|tas|)
        invariant Indexed(tas, positions) && Contents() == old(Contents())
        invariant positions.Keys == old(positions).Keys
        invariant OrderedExceptUp(tas, k) && Bridged(tas, k)
      {
        var parent := Parent(k);
        if tas[k].0 < tas[parent].0 {
          SiftUpStep(tas, k);
          Swap(k, parent);
          k := parent;
        } else {
          break;
        }
      }
    }

    /** Moves the entry at i down while a child is smaller. */
    method SiftDown(i: nat)
      requires Indexed(tas, positions) && i < |tas|
      requires OrderedExceptDown(tas, i) && Bridged(tas, i)
      modifies this
      ensures Valid() && Contents() == old(Contents()) && |tas| == old(|tas|)
      ensures positions.Keys == old(positions).Keys
    {
      var size := |tas|;
      var k: nat := i;
      while true
        invariant k < |tas| == size == old(|tas|)
        invariant Indexed(tas, positions) && Contents() == old(Contents())
        invariant positions.Keys == old(positions).Keys
        invariant OrderedExceptDown(tas, k) && Bridged(tas, k)
        decreases size - k
      {
        var minIdx := k;
        var left := 2 * k + 1;
        var right := 2 * k + 2;
        if left < size && tas[left].0 < tas[minIdx].0 {
          minIdx := left;
        }
        if right < size && tas[right].0 < tas[minIdx].0 {
          minIdx := right;
        }
        if minIdx != k {
          assert Parent(minIdx) == k;
          forall c | 0 < c < |tas| && Parent(c) == k ensures tas[minIdx].0 <= tas[c].0 {
            assert c == left || c == right;
          }
          SiftDownStep(tas, k, minIdx);
          Swap(k, minIdx);
          k := minIdx;
        } else {
          forall c | 0 < c < |tas| && Parent(c) == k ensures tas[k].0 <= tas[c].0 {
            assert c == left || c == right;
          }
          break;
        }
      }
    }

    /** Appends (priority, vertex) and sifts it up; the vertex must have no entry yet. */
    method Insert(priority: int, vertex: Vertex) returns (element: Entry)
      requires Valid() && vertex !in Contents()
      modifies this
      ensures Valid() && Contents() == old(Contents())[vertex := priority]
      ensures element == (priority, vertex)
    {
      element := (priority, vertex);
      AppendEntry(tas, positions, element);
      tas := tas + [element];
      var position := |tas| - 1;
      positions := positions[vertex := position];
      SiftUp(position);
    }

    /**
     * Lowers the priority of a vertex, or inserts it when it has no entry. A
     * priority that is not lower leaves the heap unchanged. The returned entry
     * is the one found at the vertex's former index after sifting up.
     */
    method DecreaseKey(vertex: Vertex, priority: int) returns (element: Entry)
      requires Valid()
      modifies this
      ensures Valid()
      ensures vertex !in old(Contents()) ==>
        Contents() == old(Contents())[vertex := priority] && element == (priority, vertex)
      ensures vertex in old(Contents()) && priority < old(Contents())[vertex] ==>
        Contents() == old(Contents())[vertex := priority]
      ensures vertex in old(Contents()) && priority >= old(Contents())[vertex] ==>
        tas == old(tas) && positions == old(positions) && element == (old(Contents())[vertex], vertex)
      ensures element.1 in Contents() && Contents()[element.1] == element.0
      ensures vertex in old(positions) ==>
        old(positions[vertex]) < |tas| && element == tas[old(positions[vertex])]
    {
      if vertex !in positions {
        element := Insert(priority, vertex);
        return;
      }
      var i := positions[vertex];
      if priority < tas[i].0 {
        LowerAt(tas, positions, i, priority);
        tas := tas[i := (priority, vertex)];
        SiftUp(i);
      }
      element := tas[i];
    }

    /**
     * Removes and returns an entry of minimum priority, or None when the heap is
     * empty: the last entry takes the root's place and is sifted down.
     */
    method ExtractMin() returns (r: Option<Entry>)
      requires Valid()
      modifies this
      ensures Valid()
      ensures r.None? <==> old(Contents()) == map[]
      ensures r.None? ==> Contents() == old(Contents())
      ensures r.Some? ==>
        var (p, v) := r.value;
        v in old(Contents()) && old(Contents())[v] == p &&
        (forall w :: w in old(Contents()) ==> p <= old(Contents())[w]) &&
        Contents() == old(Contents()) - {v}
    {
      if |tas| == 0 {
        assert positions == map[];
        return None;
      }
      ghost var before := Contents();
      var minElement := tas[0];
      forall w | w in before ensures minElement.0 <= before[w] {
        RootIsMinimum(tas, positions[w]);
      }
      if |tas| >= 2 { RemoveRoot(tas, positions); } else { RemoveOnly(tas, positions); }
      var lastElement := tas[|tas| - 1];
      tas := tas[..|tas| - 1];
      assert minElement.1 in positions;
      if minElement.1 in positions {
        positions := positions - {minElement.1};
      }
      if |tas| > 0 {
        tas := tas[0 := lastElement];
        assert lastElement.1 in positions;
        if lastElement.1 in positions {
          positions := positions[lastElement.1 := 0];
        }
        assert Contents() == before - {minElement.1};
        SiftDown(0);
      } else {
        assert Contents() == before - {minElement.1};
      }
      r := Some(minElement);
    }
  }
}
