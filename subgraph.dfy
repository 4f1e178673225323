// Vertex-induced subgraphs of graded sizes, used by the benchmark.
//
// For each requested size the benchmark draws a sample of that many distinct
// keys of the graph (clamped to the number of keys) and keeps exactly the edges
// whose two endpoints are sampled. The random draw is not modelled: the sample
// drawn for each size is a parameter.

module Subgraphs {
  import opened Graphs

  function Elements(s: seq<Vertex>): set<Vertex>
  {
    set x | x in s
  }

  /** The subgraph induced by a set of vertices. */
  function Induced(g: Graph, sample: set<Vertex>): Graph
  {
    map u | u in g && u in sample :: map v | v in g[u] && v in sample :: g[u][v]
  }

  /** The requested size, clamped to the number of keys. */
  function ClampSize(size: int, available: nat): (k: int)
    ensures k <= size && k <= available
    ensures k == size || k == available
  {
    if size > available then available else size
  }

  /** A legal draw of `size` keys: distinct keys of g, as many as the clamped size. */
  predicate IsSample(g: Graph, size: int, sample: seq<Vertex>)
  {
    Distinct(sample) && (forall i :: 0 <= i < |sample| ==> sample[i] in g) &&
    |sample| == ClampSize(size, |g|)
  }

  /** The keys of the induced subgraph are exactly the sampled vertices that are keys. */
  lemma InducedKeys(g: Graph, sample: set<Vertex>)
    ensures Induced(g, sample).Keys == g.Keys * sample
  {
  }

  /** An edge survives in the induced subgraph exactly when both endpoints are sampled. */
  lemma InducedEdges(g: Graph, sample: set<Vertex>, u: Vertex, v: Vertex)
    ensures IsEdge(Induced(g, sample), u, v) <==> IsEdge(g, u, v) && u in sample && v in sample
    ensures IsEdge(Induced(g, sample), u, v) ==> Induced(g, sample)[u][v] == g[u][v]
  {
  }

  /** Every vertex of the induced subgraph is sampled. */
  lemma InducedVertices(g: Graph, sample: set<Vertex>)
    ensures Vertices(Induced(g, sample)) <= sample
  {
    var h := Induced(g, sample);
    forall x | x in Vertices(h) ensures x in sample {
      if x !in h {
        var u :| u in h && x in h[u];
      }
    }
  }

  /** Inducing twice on the same sample changes nothing. */
  lemma InducedIdempotent(g: Graph, sample: set<Vertex>)
    ensures Induced(Induced(g, sample), sample) == Induced(g, sample)
  {
    var h := Induced(g, sample);
    var hh := Induced(h, sample);
    assert hh.Keys == h.Keys;
    forall u | u in h ensures hh[u] == h[u] {
      assert hh[u].Keys == h[u].Keys;
    }
  }

  /**
   * Builds the subgraph on one sample: one entry per sampled key, holding the
   * edges of g towards sampled vertices, with their weights.
   */
  method BuildSubgraph(g: Graph, sample: seq<Vertex>) returns (sub: Graph)
    ensures sub == Induced(g, Elements(sample))
  {
    sub := map[];
    var i := 0;
    while i < |sample|
      invariant 0 <= i <= |sample|
      invariant sub.Keys == g.Keys * Elements(sample[..i])
      invariant forall u :: u in sub ==> sub[u] == Induced(g, Elements(sample))[u]
    {
      var u := sample[i];
      assert sample[..i + 1] == sample[..i] + [u];
      if u in g {
        var row: map<Vertex, int> := map[];
        var todo := g[u].Keys;
        while todo != {}
          invariant todo <= g[u].Keys
          invariant row.Keys == (g[u].Keys - todo) * Elements(sample)
          invariant forall v :: v in row ==> row[v] == g[u][v]
          decreases todo
        {
          var v :| v in todo;
          if v in sample {
            row := row[v := g[u][v]];
          }
          todo := todo - {v};
        }
        assert row == Induced(g, Elements(sample))[u];
        sub := sub[u := row];
      }
      i := i + 1;
    }
    assert sample[..i] == sample;
  }

  /**
   * The subgraphs for a list of sizes, in order: one entry per clamped size,
   * where a later size that clamps to the same value replaces the earlier one.
   */
  function SubgraphsOf(g: Graph, sizes: seq<int>, samples: seq<seq<Vertex>>): map<int, Graph>
    requires |samples| == |sizes|
    decreases |sizes|
  {
    if |sizes| == 0 then map[]
    else
      var n := |sizes| - 1;
      SubgraphsOf(g, sizes[..n], samples[..n])[ClampSize(sizes[n], |g|) := Induced(g, Elements(samples[n]))]
  }

  /** One entry per distinct clamped size. */
  lemma {:induction false} SubgraphsKeys(g: Graph, sizes: seq<int>, samples: seq<seq<Vertex>>, k: int)
    requires |samples| == |sizes|
    ensures k in SubgraphsOf(g, sizes, samples) <==> exists i :: 0 <= i < |sizes| && ClampSize(sizes[i], |g|) == k
    decreases |sizes|
  {
    if |sizes| > 0 {
      var n := |sizes| - 1;
      SubgraphsKeys(g, sizes[..n], samples[..n], k);
      if k in SubgraphsOf(g, sizes[..n], samples[..n]) {
        var i :| 0 <= i < n && ClampSize(sizes[..n][i], |g|) == k;
        assert ClampSize(sizes[i], |g|) == k;
      }
      if exists i :: 0 <= i < |sizes| && ClampSize(sizes[i], |g|) == k {
        var i :| 0 <= i < |sizes| && ClampSize(sizes[i], |g|) == k;
        if i < n { assert ClampSize(sizes[..n][i], |g|) == k; }
      }
    }
  }

  /** The entry of a size is the subgraph induced by the last sample drawn for that clamped size. */
  lemma {:induction false} SubgraphsLastWins(g: Graph, sizes: seq<int>, samples: seq<seq<Vertex>>, i: nat)
    requires |samples| == |sizes| && i < |sizes|
    requires forall j :: i < j < |sizes| ==> ClampSize(sizes[j], |g|) != ClampSize(sizes[i], |g|)
    ensures ClampSize(sizes[i], |g|) in SubgraphsOf(g, sizes, samples)
    ensures SubgraphsOf(g, sizes, samples)[ClampSize(sizes[i], |g|)] == Induced(g, Elements(samples[i]))
    decreases |sizes|
  {
    var n := |sizes| - 1;
    if i < n {
      SubgraphsLastWins(g, sizes[..n], samples[..n], i);
    }
  }

  /**
   * For a legal draw the subgraph's keys are exactly the sampled vertices, as
   * many as the clamped size, and its vertex set stays inside the sample.
   */
  lemma SampleSubgraph(g: Graph, size: int, sample: seq<Vertex>)
    requires IsSample(g, size, sample)
    ensures Induced(g, Elements(sample)).Keys == Elements(sample)
    ensures |Induced(g, Elements(sample)).Keys| == ClampSize(size, |g|)
    ensures Vertices(Induced(g, Elements(sample))) == Elements(sample)
  {
    DistinctCard(sample);
    InducedVertices(g, Elements(sample));
  }

  /** Builds one induced subgraph per requested size, from the samples drawn for them. */
  method CreateSubgraphs(g: Graph, sizes: seq<int>, samples: seq<seq<Vertex>>)
    returns (result: map<int, Graph>)
    requires |samples| == |sizes|
    requires forall i :: 0 <= i < |sizes| ==> sizes[i] >= 0 && IsSample(g, sizes[i], samples[i])
    ensures result == SubgraphsOf(g, sizes, samples)
  {
    result := map[];
    var i := 0;
    while i < |sizes|
      invariant 0 <= i <= |sizes|
      invariant result == SubgraphsOf(g, sizes[..i], samples[..i])
    {
      var size := ClampSize(sizes[i], |g|);
      var sub := BuildSubgraph(g, samples[i]);
      assert sizes[..i + 1][..i] == sizes[..i];
      assert samples[..i + 1][..i] == samples[..i];
      result := result[size := sub];
      i := i + 1;
    }
    assert sizes[..i] == sizes && samples[..i] == samples;
  }
}
