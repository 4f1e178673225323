// Weighted directed graphs, paths and shortest-path distances.
//
// A graph maps each stop to the map of its successors and the travel time of
// the edge. A vertex may appear only as a successor; the vertex set is the
// union of the keys and of all successors. "Infinite" distance is the explicit
// variant Unreached.

module Graphs {

  type Vertex = string
  type Graph = map<Vertex, map<Vertex, int>>

  datatype Distance = Unreached | Finite(value: int)

  datatype Option<T> = None | Some(value: T)

  /** The vertex set: every key and every successor of a key. */
  function Vertices(g: Graph): (vs: set<Vertex>)
    ensures forall u :: u in g ==> u in vs
    ensures forall u, v :: u in g && v in g[u] ==> v in vs
    ensures forall x :: x in vs ==> x in g || exists u :: u in g && x in g[u]
  {
    g.Keys + set u, v | u in g && v in g[u] :: v
  }

  predicate IsEdge(g: Graph, u: Vertex, v: Vertex)
  {
    u in g && v in g[u]
  }

  predicate NonNegative(g: Graph)
  {
    forall u, v :: u in g && v in g[u] ==> g[u][v] >= 0
  }

  /** d + w, where Unreached absorbs the addition. */
  function Add(d: Distance, w: int): Distance
  {
    if d.Finite? then Finite(d.value + w) else Unreached
  }

  /** a < b, with Unreached above every finite value. */
  predicate Less(a: Distance, b: Distance)
  {
    a.Finite? && (b.Unreached? || a.value < b.value)
  }

  /** a <= b, with Unreached above every finite value. */
  predicate LessEq(a: Distance, b: Distance)
  {
    b.Unreached? || (a.Finite? && a.value <= b.value)
  }

  /** A path is a non-empty sequence of vertices joined by edges. */
  ghost predicate IsPath(g: Graph, p: seq<Vertex>)
  {
    |p| >= 1 && forall i :: 0 <= i < |p| - 1 ==> IsEdge(g, p[i], p[i + 1])
  }

  ghost predicate PathFromTo(g: Graph, p: seq<Vertex>, s: Vertex, v: Vertex)
  {
    IsPath(g, p) && p[0] == s && p[|p| - 1] == v
  }

  /** The sum of the weights of a path's edges. */
  ghost function Weight(g: Graph, p: seq<Vertex>): int
    requires IsPath(g, p)
    decreases |p|
  {
    if |p| == 1 then 0
    else
      assert IsEdge(g, p[0], p[1]);
      g[p[0]][p[1]] + Weight(g, p[1..])
  }

  /**
   * d is the shortest-path distance from s to v: Unreached when no path joins
   * them, otherwise the weight of some path and at most the weight of every path.
   */
  ghost predicate IsShortest(g: Graph, s: Vertex, v: Vertex, d: Distance)
  {
    match d
    case Unreached => forall p :: !PathFromTo(g, p, s, v)
    case Finite(x) =>
      (exists p :: PathFromTo(g, p, s, v) && Weight(g, p) == x) &&
      (forall p :: PathFromTo(g, p, s, v) ==> x <= Weight(g, p))
  }

  /** The shortest-path distance is unique, so two algorithms that compute it agree. */
  lemma ShortestUnique(g: Graph, s: Vertex, v: Vertex, a: Distance, b: Distance)
    requires IsShortest(g, s, v, a) && IsShortest(g, s, v, b)
    ensures a == b
  {
    if a.Finite? {
      var p :| PathFromTo(g, p, s, v) && Weight(g, p) == a.value;
      assert PathFromTo(g, p, s, v);
    }
    if b.Finite? {
      var q :| PathFromTo(g, q, s, v) && Weight(g, q) == b.value;
      assert PathFromTo(g, q, s, v);
    }
  }

  /** A path splits at any of its vertices into two paths whose weights add up. */
  lemma {:induction false} WeightSplit(g: Graph, p: seq<Vertex>, k: nat)
    requires IsPath(g, p) && k < |p|
    ensures IsPath(g, p[..k + 1]) && IsPath(g, p[k..])
    ensures Weight(g, p) == Weight(g, p[..k + 1]) + Weight(g, p[k..])
    decreases k
  {
    if k > 0 {
      WeightSplit(g, p[1..], k - 1);
      assert p[1..][..k] == p[..k + 1][1..];
      assert p[1..][k - 1..] == p[k..];
    } else {
      assert p[0..] == p;
    }
  }

  /** Extending a path by one edge adds that edge's weight. */
  lemma PathExtend(g: Graph, p: seq<Vertex>, v: Vertex)
    requires IsPath(g, p) && IsEdge(g, p[|p| - 1], v)
    ensures IsPath(g, p + [v])
    ensures Weight(g, p + [v]) == Weight(g, p) + g[p[|p| - 1]][v]
  {
    var q := p + [v];
    assert IsPath(g, q) by {
      forall i | 0 <= i < |q| - 1 ensures IsEdge(g, q[i], q[i + 1]) {
        if i < |p| - 1 { assert q[i] == p[i] && q[i + 1] == p[i + 1]; }
      }
    }
    WeightSplit(g, q, |p| - 1);
    assert q[..|p|] == p;
    assert q[|p| - 1..] == [p[|p| - 1], v];
    assert [p[|p| - 1], v][1..] == [v];
  }

  /** With non-negative weights every path weighs at least 0. */
  lemma {:induction false} WeightNonNegative(g: Graph, p: seq<Vertex>)
    requires NonNegative(g) && IsPath(g, p)
    ensures Weight(g, p) >= 0
    decreases |p|
  {
    if |p| > 1 {
      assert IsEdge(g, p[0], p[1]);
      assert IsPath(g, p[1..]) by {
        forall i | 0 <= i < |p| - 2 ensures IsEdge(g, p[1..][i], p[1..][i + 1]) {
          assert IsEdge(g, p[i + 1], p[i + 2]);
        }
      }
      WeightNonNegative(g, p[1..]);
    }
  }

  /** With non-negative weights a prefix of a path weighs no more than the path. */
  lemma PrefixLighter(g: Graph, p: seq<Vertex>, k: nat)
    requires NonNegative(g) && IsPath(g, p) && k < |p|
    ensures IsPath(g, p[..k + 1]) && Weight(g, p[..k + 1]) <= Weight(g, p)
  {
    WeightSplit(g, p, k);
    WeightNonNegative(g, p[k..]);
  }

  /** Every vertex of a path with at least one edge is in the vertex set. */
  lemma PathInVertices(g: Graph, p: seq<Vertex>)
    requires IsPath(g, p) && |p| >= 2
    ensures forall i :: 0 <= i < |p| ==> p[i] in Vertices(g)
  {
    forall i | 0 <= i < |p| ensures p[i] in Vertices(g) {
      if i < |p| - 1 { assert IsEdge(g, p[i], p[i + 1]); } else { assert IsEdge(g, p[i - 1], p[i]); }
    }
  }

  predicate Distinct(p: seq<Vertex>)
  {
    forall i, j :: 0 <= i < j < |p| ==> p[i] != p[j]
  }

  lemma {:induction false} DistinctCard(p: seq<Vertex>)
    requires Distinct(p)
    ensures |set x | x in p| == |p|
    decreases |p|
  {
    if |p| > 0 {
      DistinctCard(p[1..]);
      assert (set x | x in p) == {p[0]} + (set x | x in p[1..]);
      assert p[0] !in (set x | x in p[1..]);
    }
  }

  lemma SubsetCard(a: set<Vertex>, b: set<Vertex>)
    requires a <= b
    ensures |a| <= |b|
  {
    assert b == a + (b - a);
  }

  /** A cycle of negative weight that a path from s reaches. */
  ghost predicate NegativeCycleReachable(g: Graph, s: Vertex)
  {
    exists p, c :: IsPath(g, c) && c[|c| - 1] == c[0] && PathFromTo(g, p, s, c[0]) && Weight(g, c) < 0
  }

  /** Without negative weights there is no negative cycle. */
  lemma NonNegativeNoNegativeCycle(g: Graph, s: Vertex)
    requires NonNegative(g)
    ensures !NegativeCycleReachable(g, s)
  {
    forall p, c | IsPath(g, c) && c[|c| - 1] == c[0] && PathFromTo(g, p, s, c[0]) ensures Weight(g, c) >= 0 {
      WeightNonNegative(g, c);
    }
  }

  /**
   * Cutting the cycles out of a path: a path with no repeated vertex between the
   * same endpoints, no longer than it and, when no negative cycle is reachable
   * from its start, no heavier.
   */
  lemma {:induction false} Shorten(g: Graph, p: seq<Vertex>) returns (q: seq<Vertex>)
    requires IsPath(g, p)
    ensures PathFromTo(g, q, p[0], p[|p| - 1]) && Distinct(q) && |q| <= |p|
    ensures !NegativeCycleReachable(g, p[0]) ==> Weight(g, q) <= Weight(g, p)
    decreases |p|
  {
    if Distinct(p) {
      q := p;
    } else {
      var i, j :| 0 <= i < j < |p| && p[i] == p[j];
      var r := CutCycle(g, p, i, j);
      q := Shorten(g, r);
    }
  }

  /** Removing the cycle between two visits of the same vertex. */
  lemma CutCycle(g: Graph, p: seq<Vertex>, i: nat, j: nat) returns (r: seq<Vertex>)
    requires IsPath(g, p) && i < j < |p| && p[i] == p[j]
    ensures PathFromTo(g, r, p[0], p[|p| - 1]) && |r| < |p|
    ensures !NegativeCycleReachable(g, p[0]) ==> Weight(g, r) <= Weight(g, p)
  {
    r := p[..i] + p[j..];
    SpliceIsPath(g, p, i, j);
    assert r[0] == p[0] by { if i == 0 { assert r[0] == p[j]; } }
    assert r[|r| - 1] == p[|p| - 1];
    WeightSplit(g, r, i);
    assert r[..i + 1] == p[..i + 1];
    assert r[i..] == p[j..];
    WeightThreeParts(g, p, i, j);
    if !NegativeCycleReachable(g, p[0]) { CycleNonNegative(g, p, i, j); }
  }

  /** The cycle between two visits of the same vertex is reached from the path's start, so it weighs at least 0. */
  lemma CycleNonNegative(g: Graph, p: seq<Vertex>, i: nat, j: nat)
    requires IsPath(g, p) && i <= j < |p| && p[i] == p[j] && !NegativeCycleReachable(g, p[0])
    ensures IsPath(g, p[i..j + 1]) && Weight(g, p[i..j + 1]) >= 0
  {
    WeightThreeParts(g, p, i, j);
    var c := p[i..j + 1];
    assert PathFromTo(g, p[..i + 1], p[0], c[0]) && c[|c| - 1] == c[0];
  }

  /** A path cut at two of its vertices: the weights of the three pieces add up. */
  lemma WeightThreeParts(g: Graph, p: seq<Vertex>, i: nat, j: nat)
    requires IsPath(g, p) && i <= j < |p|
    ensures IsPath(g, p[..i + 1]) && IsPath(g, p[i..j + 1]) && IsPath(g, p[j..])
    ensures Weight(g, p) == Weight(g, p[..i + 1]) + Weight(g, p[i..j + 1]) + Weight(g, p[j..])
  {
    WeightSplit(g, p, j);
    var front := p[..j + 1];
    WeightSplit(g, front, i);
    assert front[..i + 1] == p[..i + 1];
    assert front[i..] == p[i..j + 1];
  }

  lemma SpliceIsPath(g: Graph, p: seq<Vertex>, i: nat, j: nat)
    requires IsPath(g, p) && i < j < |p| && p[i] == p[j]
    ensures IsPath(g, p[..i] + p[j..])
  {
    var r := p[..i] + p[j..];
    forall k | 0 <= k < |r| - 1 ensures IsEdge(g, r[k], r[k + 1]) {
      if k < i { assert r[k] == p[k] && r[k + 1] == p[k + 1]; }
      else { assert r[k] == p[k - i + j] && r[k + 1] == p[k - i + j + 1]; }
    }
  }

  /** A path with no repeated vertex visits at most every vertex once. */
  lemma SimplePathLength(g: Graph, q: seq<Vertex>)
    requires IsPath(g, q) && Distinct(q)
    ensures |q| == 1 || |q| <= |Vertices(g)|
  {
    if |q| >= 2 {
      PathInVertices(g, q);
      DistinctCard(q);
      SubsetCard((set x | x in q), Vertices(g));
    }
  }
}
