/** Saturating longest-path latencies over a topological order. */
module PathLatency {
  import opened Words
  import opened Graphs

  function Saturate(x: nat): nat { Min(x, USIZE_MAX) }

  function SaturatingAdd(x: nat, y: nat): nat { Saturate(x + y) }

  /** The sum of the node latencies along a path, without any bound. */
  function PathSum(latencies: seq<nat>, p: seq<nat>): nat
    requires Below(p, |latencies|)
  {
    if p == [] then 0 else PathSum(latencies, p[..|p| - 1]) + latencies[p[|p| - 1]]
  }

  /** The sum of a path is the sum of the latencies at its vertices, each as often as the path visits it. */
  lemma {:induction false} PathSumIsSum(latencies: seq<nat>, p: seq<nat>) returns (sums: seq<nat>)
    requires Below(p, |latencies|)
    ensures |sums| == |p| + 1 && sums[0] == 0 && sums[|p|] == PathSum(latencies, p)
    ensures forall i :: 0 <= i < |p| ==> sums[i + 1] == sums[i] + latencies[p[i]]
  {
    if p == [] {
      sums := [0];
    } else {
      var last := |p| - 1;
      var before := PathSumIsSum(latencies, p[..last]);
      sums := before + [before[last] + latencies[p[last]]];
    }
  }

  /** The largest of `values` at the given indices, or 0 when there is none. */
  function MaxAt(indices: seq<nat>, values: seq<nat>): nat
    requires Below(indices, |values|)
  {
    if indices == [] then 0
    else Max(MaxAt(indices[..|indices| - 1], values), values[indices[|indices| - 1]])
  }

  lemma {:induction false} MaxAtBounds(indices: seq<nat>, values: seq<nat>, i: nat)
    requires Below(indices, |values|) && i < |indices|
    ensures values[indices[i]] <= MaxAt(indices, values)
  {
    if i < |indices| - 1 {
      MaxAtBounds(indices[..|indices| - 1], values, i);
    }
  }

  lemma {:induction false} MaxAtReached(indices: seq<nat>, values: seq<nat>) returns (i: nat)
    requires Below(indices, |values|) && indices != []
    ensures i < |indices| && values[indices[i]] == MaxAt(indices, values)
  {
    i := |indices| - 1;
    if i > 0 && values[indices[i]] < MaxAt(indices[..i], values) {
      i := MaxAtReached(indices[..i], values);
    }
  }

  /** `best` is the saturated sum of the longest path that ends in `v`. */
  ghost predicate LongestTo(edges: seq<Edge>, latencies: seq<nat>, v: nat, best: nat) {
    && (forall p :: IsPath(edges, |latencies|, p) && p[|p| - 1] == v ==> Saturate(PathSum(latencies, p)) <= best)
    && exists p :: IsPath(edges, |latencies|, p) && p[|p| - 1] == v && Saturate(PathSum(latencies, p)) == best
  }

  /** `best` is the saturated sum of the longest path of the graph. */
  ghost predicate Longest(edges: seq<Edge>, latencies: seq<nat>, best: nat) {
    && (forall p :: IsPath(edges, |latencies|, p) ==> Saturate(PathSum(latencies, p)) <= best)
    && exists p :: IsPath(edges, |latencies|, p) && Saturate(PathSum(latencies, p)) == best
  }

  /** `best` is the largest latency sum over all paths, or the largest machine word if that is smaller. */
  ghost predicate LargestSum(edges: seq<Edge>, latencies: seq<nat>, best: nat) {
    && best <= USIZE_MAX
    && (best < USIZE_MAX ==> forall p :: IsPath(edges, |latencies|, p) ==> PathSum(latencies, p) <= best)
    && exists p :: IsPath(edges, |latencies|, p) && PathSum(latencies, p) >= best
  }

  lemma LongestIsLargest(edges: seq<Edge>, latencies: seq<nat>, best: nat)
    requires Longest(edges, latencies, best)
    ensures LargestSum(edges, latencies, best)
  {
    var p :| IsPath(edges, |latencies|, p) && Saturate(PathSum(latencies, p)) == best;
    assert PathSum(latencies, p) >= best;
    if best < USIZE_MAX {
      forall q | IsPath(edges, |latencies|, q) ensures PathSum(latencies, q) <= best {
        assert Saturate(PathSum(latencies, q)) <= best;
      }
    }
  }

  lemma PathSnoc(edges: seq<Edge>, latencies: seq<nat>, p: seq<nat>, v: nat)
    requires v < |latencies|
    requires IsPath(edges, |latencies|, p) && (p[|p| - 1], v) in edges
    ensures IsPath(edges, |latencies|, p + [v])
    ensures PathSum(latencies, p + [v]) == PathSum(latencies, p) + latencies[v]
  {
    var q := p + [v];
    assert q[..|q| - 1] == p;
    forall k | 0 <= k < |q| - 1 ensures (q[k], q[k + 1]) in edges {
      if k < |p| - 1 { assert (p[k], p[k + 1]) in edges; }
    }
  }

  lemma PathInit(edges: seq<Edge>, n: nat, p: seq<nat>)
    requires IsPath(edges, n, p) && |p| > 1
    ensures IsPath(edges, n, p[..|p| - 1])
    ensures (p[..|p| - 1][|p| - 2], p[|p| - 1]) in edges
  {
    SubPath(edges, n, p, 0, |p| - 1);
    assert p[0..|p| - 1] == p[..|p| - 1];
  }

  /** Saturation commutes with the addition along a path: from the longest paths to the
      predecessors the code obtains the longest path to the vertex. */
  lemma LongestStep(edges: seq<Edge>, latencies: seq<nat>, v: nat, best: seq<nat>)
    requires |best| == |latencies| && v < |latencies| && InRange(edges, |latencies|)
    requires Below(Predecessors(edges, v), |latencies|)
    requires forall u :: u in Predecessors(edges, v) ==> LongestTo(edges, latencies, u, best[u])
    ensures LongestTo(edges, latencies, v, SaturatingAdd(MaxAt(Predecessors(edges, v), best), latencies[v]))
  {
    var preds, n := Predecessors(edges, v), |latencies|;
    var result := SaturatingAdd(MaxAt(preds, best), latencies[v]);
    forall p | IsPath(edges, n, p) && p[|p| - 1] == v ensures Saturate(PathSum(latencies, p)) <= result {
      LongestBound(edges, latencies, v, best, p);
    }
    if preds == [] {
      var p := [v];
      assert p[..0] == [];
      assert IsPath(edges, n, p) && Saturate(PathSum(latencies, p)) == result;
    } else {
      var i := MaxAtReached(preds, best);
      LongestReached(edges, latencies, v, preds[i], best[preds[i]]);
    }
  }

  lemma BestBounds(edges: seq<Edge>, latencies: seq<nat>, v: nat, best: nat, p: seq<nat>)
    requires LongestTo(edges, latencies, v, best) && IsPath(edges, |latencies|, p) && p[|p| - 1] == v
    ensures Saturate(PathSum(latencies, p)) <= best
  {
  }

  lemma LongestBound(edges: seq<Edge>, latencies: seq<nat>, v: nat, best: seq<nat>, p: seq<nat>)
    requires |best| == |latencies| && v < |latencies|
    requires Below(Predecessors(edges, v), |latencies|)
    requires forall u :: u in Predecessors(edges, v) ==> LongestTo(edges, latencies, u, best[u])
    requires IsPath(edges, |latencies|, p) && p[|p| - 1] == v
    ensures Saturate(PathSum(latencies, p)) <= SaturatingAdd(MaxAt(Predecessors(edges, v), best), latencies[v])
  {
    hide LongestTo;
    if |p| == 1 {
      assert p[..0] == [];
    } else {
      var q := p[..|p| - 1];
      var u := q[|q| - 1];
      PathInit(edges, |latencies|, p);
      NeighboursAreEdges(edges, u, v);
      assert u in Predecessors(edges, v);
      hide Predecessors;
      BestBounds(edges, latencies, u, best[u], q);
      hide IsPath;
      var i :| 0 <= i < |Predecessors(edges, v)| && Predecessors(edges, v)[i] == u;
      MaxAtBounds(Predecessors(edges, v), best, i);
    }
  }

  lemma LongestReached(edges: seq<Edge>, latencies: seq<nat>, v: nat, u: nat, best: nat)
    requires v < |latencies| && u in Predecessors(edges, v) && LongestTo(edges, latencies, u, best)
    ensures exists p :: IsPath(edges, |latencies|, p) && p[|p| - 1] == v
                     && Saturate(PathSum(latencies, p)) == SaturatingAdd(best, latencies[v])
  {
    var q :| IsPath(edges, |latencies|, q) && q[|q| - 1] == u && Saturate(PathSum(latencies, q)) == best;
    NeighboursAreEdges(edges, u, v);
    PathSnoc(edges, latencies, q, v);
    var p := q + [v];
    assert IsPath(edges, |latencies|, p) && p[|p| - 1] == v;
  }

  /** Following edges from any vertex never lowers the latency and ends in a sink. */
  lemma {:induction false} SinkDominates(order: seq<nat>, edges: seq<Edge>, adjacency: seq<seq<nat>>, best: seq<nat>,
                                         i: nat)
    requires Topological(order, edges, |best|) && |adjacency| == |best| && InRange(edges, |best|)
    requires forall v :: 0 <= v < |best| ==> adjacency[v] == Successors(edges, v)
    requires forall u, v :: (u, v) in edges ==> best[u] <= best[v]
    requires i < |best|
    ensures best[order[i]] <= MaxAt(Sinks(adjacency), best)
    decreases |best| - i
  {
    var u := order[i];
    if adjacency[u] == [] {
      assert u in Sinks(adjacency);
      var k :| 0 <= k < |Sinks(adjacency)| && Sinks(adjacency)[k] == u;
      MaxAtBounds(Sinks(adjacency), best, k);
    } else {
      var v := adjacency[u][0];
      NeighboursAreEdges(edges, u, v);
      var j := IndexOf(order, |best|, v);
      SinkDominates(order, edges, adjacency, best, j);
    }
  }

  /** The maximum over the sinks alone is the longest path of the whole graph. */
  lemma SinksAreEnough(order: seq<nat>, edges: seq<Edge>, adjacency: seq<seq<nat>>, latencies: seq<nat>, best: seq<nat>)
    requires |best| == |latencies| > 0
    requires Topological(order, edges, |best|) && |adjacency| == |best| && InRange(edges, |best|)
    requires forall v :: 0 <= v < |best| ==> adjacency[v] == Successors(edges, v)
    requires forall v :: 0 <= v < |best| ==> LongestTo(edges, latencies, v, best[v])
    ensures Longest(edges, latencies, MaxAt(Sinks(adjacency), best))
  {
    var total := MaxAt(Sinks(adjacency), best);
    forall u, v | (u, v) in edges ensures best[u] <= best[v] {
      BestGrows(edges, latencies, u, v, best[u], best[v]);
    }
    forall p | IsPath(edges, |latencies|, p) ensures Saturate(PathSum(latencies, p)) <= total {
      var v := p[|p| - 1];
      assert LongestTo(edges, latencies, v, best[v]);
      var i := IndexOf(order, |best|, v);
      SinkDominates(order, edges, adjacency, best, i);
    }
    var sink := LastIsSink(order, edges, adjacency);
    var i := MaxAtReached(Sinks(adjacency), best);
    assert LongestTo(edges, latencies, Sinks(adjacency)[i], total);
  }

  lemma LastIsSink(order: seq<nat>, edges: seq<Edge>, adjacency: seq<seq<nat>>) returns (sink: nat)
    requires adjacency != [] && Topological(order, edges, |adjacency|) && InRange(edges, |adjacency|)
    requires forall v :: 0 <= v < |adjacency| ==> adjacency[v] == Successors(edges, v)
    ensures sink in Sinks(adjacency)
  {
    sink := order[|order| - 1];
    if adjacency[sink] != [] {
      NeighboursAreEdges(edges, sink, adjacency[sink][0]);
      var j := IndexOf(order, |adjacency|, adjacency[sink][0]);
    }
  }

  lemma BestGrows(edges: seq<Edge>, latencies: seq<nat>, u: nat, v: nat, bestU: nat, bestV: nat)
    requires (u, v) in edges && u < |latencies| && v < |latencies|
    requires LongestTo(edges, latencies, u, bestU) && LongestTo(edges, latencies, v, bestV)
    ensures bestU <= bestV
  {
    var q :| IsPath(edges, |latencies|, q) && q[|q| - 1] == u && Saturate(PathSum(latencies, q)) == bestU;
    PathSnoc(edges, latencies, q, v);
    var p := q + [v];
    assert p[|p| - 1] == v;
  }

}
