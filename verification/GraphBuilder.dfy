/** The graph builder: edits an edge list and compiles it to a schedule over flat buffers. */
module GraphBuilders {
  import opened Words
  import opened Wrappers
  import opened Graphs
  import opened Kahn
  import opened PathLatency
  import opened GraphMeaning
  import opened DspGraphs

  datatype GraphError = CycleDetected | InvalidNode(index: nat) | DuplicateEdge | Empty | BufferSizeOverflow

  /** The edges other than `e`, in their order. */
  function Without(edges: seq<Edge>, e: Edge): (rest: seq<Edge>)
    ensures forall x :: x in rest <==> x in edges && x != e
  {
    if edges == [] then []
    else
      var last := edges[|edges| - 1];
      assert edges == edges[..|edges| - 1] + [last];
      Without(edges[..|edges| - 1], e) + if last == e then [] else [last]
  }

  lemma {:induction false} WithoutAbsent(edges: seq<Edge>, e: Edge)
    requires e !in edges
    ensures Without(edges, e) == edges
  {
    if edges != [] {
      WithoutAbsent(edges[..|edges| - 1], e);
      assert edges == edges[..|edges| - 1] + [edges[|edges| - 1]];
    }
  }

  /** Disconnecting what was just connected restores the edge list, order included. */
  lemma DisconnectUndoesConnect(edges: seq<Edge>, e: Edge)
    requires e !in edges
    ensures Without(edges + [e], e) == edges
  {
    assert (edges + [e])[..|edges|] == edges;
    WithoutAbsent(edges, e);
  }

  lemma {:induction false} WithoutDistinct(edges: seq<Edge>, e: Edge)
    requires NoDuplicates(edges)
    ensures NoDuplicates(Without(edges, e))
  {
    if edges != [] {
      var last := |edges| - 1;
      assert forall i, j :: 0 <= i < j < last ==> edges[..last][i] != edges[..last][j];
      WithoutDistinct(edges[..last], e);
      assert edges[last] !in edges[..last];
    }
  }

  lemma KeepsLast(edges: seq<Edge>, k: nat)
    requires k < |edges| - 1
    ensures var front := edges[..|edges| - 1];
            front[..k] + front[k + 1..] + [edges[|edges| - 1]] == edges[..k] + edges[k + 1..]
  {
  }

  /** Without duplicates, exactly the one edge goes and the others keep their order. */
  lemma {:induction false} WithoutRemoves(edges: seq<Edge>, e: Edge) returns (k: nat)
    requires NoDuplicates(edges) && e in edges
    ensures k < |edges| && edges[k] == e && Without(edges, e) == edges[..k] + edges[k + 1..]
    decreases |edges|
  {
    var last := |edges| - 1;
    if edges[last] == e {
      k := last;
      assert e !in edges[..last];
      WithoutAbsent(edges[..last], e);
    } else {
      assert edges == edges[..last] + [edges[last]];
      assert NoDuplicates(edges[..last]);
      hide NoDuplicates;
      k := WithoutRemoves(edges[..last], e);
      KeepsLast(edges, k);
    }
  }

  predicate NoDuplicates(edges: seq<Edge>) {
    forall i, j :: 0 <= i < j < |edges| ==> edges[i] != edges[j]
  }

  class DynamicGraphBuilder<T> {
    const dsp: Dsp<T>
    const maxBlock: nat
    var nodes: seq<T>
    var connections: seq<Edge>

    ghost predicate Valid()
      reads this
    {
      maxBlock > 0 && InRange(connections, |nodes|) && NoDuplicates(connections)
    }

    constructor (dsp: Dsp<T>, maxBlock: nat)
      requires maxBlock > 0
      ensures Valid() && this.dsp == dsp && this.maxBlock == maxBlock && nodes == [] && connections == []
    {
      this.dsp, this.maxBlock, nodes, connections := dsp, maxBlock, [], [];
    }

    method AddNode(node: T) returns (id: nat)
      requires Valid()
      modifies this
      ensures Valid() && id == |old(nodes)| && nodes == old(nodes) + [node] && connections == old(connections)
    {
      nodes := nodes + [node];
      id := |nodes| - 1;
    }

    method Connect(from: nat, to: nat) returns (r: Result<(), GraphError>)
      requires Valid()
      modifies this`connections
      ensures Valid()
      ensures r == Ok(()) <==> from < |nodes| && to < |nodes| && (from, to) !in old(connections)
      ensures r == Err(InvalidNode(from)) <== from >= |nodes|
      ensures r == Err(InvalidNode(to)) <== from < |nodes| <= to
      ensures r == Err(DuplicateEdge) <==> (from, to) in old(connections)
      ensures connections == if r.Ok? then old(connections) + [(from, to)] else old(connections)
    {
      if from >= |nodes| {
        return Err(InvalidNode(from));
      }
      if to >= |nodes| {
        return Err(InvalidNode(to));
      }
      if (from, to) in connections {
        return Err(DuplicateEdge);
      }
      connections := connections + [(from, to)];
      r := Ok(());
    }

    method Disconnect(from: nat, to: nat)
      requires Valid()
      modifies this`connections
      ensures Valid() && connections == Without(old(connections), (from, to))
      ensures (from, to) !in old(connections) ==> connections == old(connections)
      ensures (from, to) in old(connections) ==>
                exists k :: 0 <= k < |old(connections)| && old(connections)[k] == (from, to)
                         && connections == old(connections)[..k] + old(connections)[k + 1..]
    {
      WithoutDistinct(connections, (from, to));
      if (from, to) in connections {
        var k := WithoutRemoves(connections, (from, to));
        assert connections[k] == (from, to);
      } else {
        WithoutAbsent(connections, (from, to));
      }
      connections := Without(connections, (from, to));
    }

    method Compile() returns (r: Result<DspGraphInner<T>, GraphError>)
      requires Valid()
      ensures r == Err(Empty) <==> nodes == []
      ensures r == Err(CycleDetected) <==> nodes != [] && HasCycle(connections, |nodes|)
      ensures r == Err(BufferSizeOverflow) <==>
        nodes != [] && !HasCycle(connections, |nodes|) && |nodes| * maxBlock > USIZE_MAX
      ensures r.Err? ==> r.error in {Empty, CycleDetected, BufferSizeOverflow}
      ensures r.Ok? ==>
        && r.value.Valid() && fresh(r.value) && fresh(r.value.nodeOutputs) && fresh(r.value.mixBuffer)
        && r.value.dsp == dsp && r.value.edges == connections && r.value.nodes == nodes && r.value.maxBlock == maxBlock
        && Longest(connections, Latencies(dsp, nodes), r.value.totalLatency)
        && LargestSum(connections, Latencies(dsp, nodes), r.value.totalLatency)
    {
      var n := |nodes|;
      if n == 0 {
        return Err(Empty);
      }
      var adjacency, predecessors, indegree := Neighbours(connections, n);
      var order := KahnOrder(connections, n, adjacency, indegree);
      if |order| != n {
        return Err(CycleDetected);
      }
      assert adjacency == SuccessorLists(connections, n);
      var sinks := Sinks(adjacency);
      var total := TotalLatency(connections, order, predecessors, adjacency, sinks, Latencies(dsp, nodes));
      if n * maxBlock > USIZE_MAX {
        return Err(BufferSizeOverflow);
      }
      var graph := new DspGraphInner(dsp, connections, nodes, order, predecessors, sinks, maxBlock, total);
      r := Ok(graph);
    }
  }

  /** The first `i` vertices of the order have the latency of the longest path to them. */
  ghost predicate Accumulated(edges: seq<Edge>, order: seq<nat>, latencies: seq<nat>, best: seq<nat>, i: nat)
    requires Topological(order, edges, |latencies|)
  {
    && |best| == |latencies| && i <= |latencies|
    && forall j :: 0 <= j < i ==> LongestTo(edges, latencies, order[j], best[order[j]])
  }

  lemma LongestAt(edges: seq<Edge>, order: seq<nat>, latencies: seq<nat>, best: seq<nat>, i: nat)
    requires InRange(edges, |latencies|) && Topological(order, edges, |latencies|) && i < |latencies|
    requires Accumulated(edges, order, latencies, best, i)
    requires Below(Predecessors(edges, order[i]), |latencies|)
    ensures LongestTo(edges, latencies, order[i],
                      SaturatingAdd(MaxAt(Predecessors(edges, order[i]), best), latencies[order[i]]))
  {
    forall u | u in Predecessors(edges, order[i]) ensures LongestTo(edges, latencies, u, best[u]) {
      var j := EarlierPredecessor(order, edges, |latencies|, i, u);
    }
    LongestStep(edges, latencies, order[i], best);
  }

  /** Entering the latency of the next vertex leaves those of the earlier ones alone. */
  lemma AccumulateNext(edges: seq<Edge>, order: seq<nat>, latencies: seq<nat>, best: seq<nat>, i: nat, latency: nat)
    requires Topological(order, edges, |latencies|) && i < |latencies|
    requires Accumulated(edges, order, latencies, best, i)
    requires LongestTo(edges, latencies, order[i], latency)
    ensures Accumulated(edges, order, latencies, best[order[i] := latency], i + 1)
  {
    hide LongestTo;
  }

  lemma AccumulatedAll(edges: seq<Edge>, order: seq<nat>, adjacency: seq<seq<nat>>, latencies: seq<nat>, best: seq<nat>)
    requires |latencies| > 0 && InRange(edges, |latencies|) && Topological(order, edges, |latencies|)
    requires |adjacency| == |latencies|
    requires forall v :: 0 <= v < |latencies| ==> adjacency[v] == Successors(edges, v)
    requires Accumulated(edges, order, latencies, best, |latencies|)
    ensures Longest(edges, latencies, MaxAt(Sinks(adjacency), best))
  {
    forall v | 0 <= v < |latencies| ensures LongestTo(edges, latencies, v, best[v]) {
      var j := IndexOf(order, |latencies|, v);
    }
    hide LongestTo, Longest, Topological, Accumulated, Successors;
    SinksAreEnough(order, edges, adjacency, latencies, best);
  }

  /** The latency accumulated along the order, and its maximum over the sinks. */
  method TotalLatency(ghost edges: seq<Edge>, order: seq<nat>, predecessors: seq<seq<nat>>,
                      ghost adjacency: seq<seq<nat>>, sinks: seq<nat>, latencies: seq<nat>)
    returns (total: nat)
    requires |latencies| > 0 && InRange(edges, |latencies|) && Topological(order, edges, |latencies|)
    requires |predecessors| == |adjacency| == |latencies| && sinks == Sinks(adjacency)
    requires forall v :: 0 <= v < |latencies| ==> predecessors[v] == Predecessors(edges, v)
    requires forall v :: 0 <= v < |latencies| ==> adjacency[v] == Successors(edges, v)
    ensures Longest(edges, latencies, total) && LargestSum(edges, latencies, total)
  {
    hide LargestSum;
    hide LongestTo, Longest, IsPath, Predecessors, Successors, Sinks, SaturatingAdd, InRange;
    var n := |latencies|;
    var pathLatency: seq<nat> := seq(n, _ => 0);
    for i := 0 to n
      invariant |pathLatency| == n
      invariant Accumulated(edges, order, latencies, pathLatency, i)
    {
      hide Accumulated;
      var index := order[i];
      PredecessorsBelow(edges, n, index);
      LongestAt(edges, order, latencies, pathLatency, i);
      var inputLatency := MaxAt(predecessors[index], pathLatency);
      var latency := SaturatingAdd(inputLatency, latencies[index]);
      AccumulateNext(edges, order, latencies, pathLatency, i, latency);
      pathLatency := pathLatency[index := latency];
    }
    AccumulatedAll(edges, order, adjacency, latencies, pathLatency);
    total := MaxAt(sinks, pathLatency);
    LongestIsLargest(edges, latencies, total);
  }
}
