/** The compiled graph: one flat sample array for all node outputs, executed in place. */
module DspGraphs {
  import opened Words
  import opened Samples
  import opened NumberTheory
  import opened Graphs
  import opened GraphMeaning

  // The flat buffer: node v owns the cell that starts at v * width

  lemma CellFits(v: nat, n: nat, width: nat)
    requires v < n
    ensures v * width + width <= n * width
  {
    MulAdd(v, 1, width);
    MulMonotone(v + 1, n, width);
  }

  lemma CellsApart(u: nat, v: nat, width: nat)
    requires u < v
    ensures u * width + width <= v * width
  {
    CellFits(u, v, width);
  }

  function Cell(buffer: seq<Sample>, v: nat, n: nat, width: nat, count: nat): (cell: seq<Sample>)
    requires |buffer| == n * width && v < n && count <= width
    ensures |cell| == count
  {
    CellFits(v, n, width);
    buffer[v * width..v * width + count]
  }

  function Cells(buffer: seq<Sample>, n: nat, width: nat, count: nat): (cells: seq<seq<Sample>>)
    requires |buffer| == n * width && count <= width
    ensures Shaped(cells, n, count)
  {
    seq(n, v requires 0 <= v < n => Cell(buffer, v, n, width, count))
  }

  lemma CellKept(before: seq<Sample>, after: seq<Sample>, n: nat, width: nat, count: nat, v: nat, u: nat)
    requires |before| == |after| == n * width && v < n && u < n && u != v && count <= width
    requires forall k :: 0 <= k < |before| && !(v * width <= k < v * width + count) ==> after[k] == before[k]
    ensures Cell(after, u, n, width, count) == Cell(before, u, n, width, count)
  {
    CellFits(u, n, width);
    if u < v { CellsApart(u, v, width); } else { CellsApart(v, u, width); }
  }

  /** Overwriting one cell changes that cell only. */
  lemma CellWrite(before: seq<Sample>, after: seq<Sample>, n: nat, width: nat, count: nat, v: nat)
    requires |before| == |after| == n * width && v < n && count <= width
    requires v * width + count <= |before|
    requires forall k :: 0 <= k < |before| && !(v * width <= k < v * width + count) ==> after[k] == before[k]
    ensures Cells(after, n, width, count) == Cells(before, n, width, count)[v := Cell(after, v, n, width, count)]
  {
    forall u | 0 <= u < n && u != v ensures Cell(after, u, n, width, count) == Cell(before, u, n, width, count) {
      CellKept(before, after, n, width, count, v, u);
    }
    hide Cell;
  }

  function SuccessorLists(edges: seq<Edge>, n: nat): (lists: seq<seq<nat>>)
    ensures |lists| == n
  {
    seq(n, v requires 0 <= v < n => Successors(edges, v))
  }

  function Latencies<T>(dsp: Dsp<T>, nodes: seq<T>): (latencies: seq<nat>)
    ensures |latencies| == |nodes|
    ensures forall v :: 0 <= v < |nodes| ==> latencies[v] == dsp.latency(nodes[v])
  {
    if nodes == [] then [] else Latencies(dsp, nodes[..|nodes| - 1]) + [dsp.latency(nodes[|nodes| - 1])]
  }

  /** The nodes without successors, in index order. */
  function SinkList(edges: seq<Edge>, n: nat): (sinks: seq<nat>)
    ensures Below(sinks, n)
  {
    Sinks(SuccessorLists(edges, n))
  }

  /** A mix followed by silence, sample by sample. */
  lemma MixMeans<T>(dsp: Dsp<T>, vals: seq<seq<Sample>>, sources: seq<nat>, count: nat, output: seq<Sample>)
    requires Shaped(vals, |vals|, count) && Below(sources, |vals|) && count <= |output|
    requires output == Mix(dsp, vals, sources, count) + Silence(|output| - count)
    ensures forall k :: 0 <= k < count ==> LeftSum(dsp, vals, sources, k, output[k])
    ensures forall k :: count <= k < |output| ==> output[k] == SILENCE
  {
    forall k | 0 <= k < count ensures LeftSum(dsp, vals, sources, k, output[k]) {
      MixIsLeftSum(dsp, vals, sources, count, k);
    }
  }

  class DspGraphInner<T> {
    const dsp: Dsp<T>
    ghost const edges: seq<Edge>
    var nodes: seq<T>
    const order: seq<nat>
    const predecessors: seq<seq<nat>>
    const sinks: seq<nat>
    const nodeOutputs: array<Sample>
    const mixBuffer: array<Sample>
    const maxBlock: nat
    const totalLatency: nat

    ghost predicate Valid()
      reads this
    {
      var n := |nodes|;
      && InRange(edges, n) && Topological(order, edges, n)
      && |predecessors| == n
      && (forall v :: 0 <= v < n ==> predecessors[v] == Predecessors(edges, v))
      && sinks == SinkList(edges, n)
      && nodeOutputs.Length == n * maxBlock
      && mixBuffer.Length == maxBlock > 0
      && mixBuffer != nodeOutputs
    }

    constructor (dsp: Dsp<T>, ghost edges: seq<Edge>, nodes: seq<T>, order: seq<nat>, predecessors: seq<seq<nat>>,
                 sinks: seq<nat>, maxBlock: nat, totalLatency: nat)
      requires InRange(edges, |nodes|) && Topological(order, edges, |nodes|) && maxBlock > 0
      requires |predecessors| == |nodes|
      requires forall v :: 0 <= v < |nodes| ==> predecessors[v] == Predecessors(edges, v)
      requires sinks == SinkList(edges, |nodes|)
      ensures Valid() && fresh(nodeOutputs) && fresh(mixBuffer)
      ensures this.dsp == dsp && this.edges == edges && this.nodes == nodes
      ensures this.maxBlock == maxBlock && this.totalLatency == totalLatency
    {
      this.dsp, this.edges, this.nodes, this.order := dsp, edges, nodes, order;
      this.predecessors, this.sinks, this.maxBlock, this.totalLatency := predecessors, sinks, maxBlock, totalLatency;
      nodeOutputs := new Sample[|nodes| * maxBlock](_ => SILENCE);
      mixBuffer := new Sample[maxBlock](_ => SILENCE);
    }

    /** Add the first `count` samples of a node's cell to the front of `target`. */
    method Accumulate(target: array<Sample>, node: nat, count: nat)
      requires Valid() && target != nodeOutputs && node < |nodes| && count <= maxBlock && count <= target.Length
      modifies target
      ensures target[..count]
              == dsp.AddSlices(old(target[..count]), Cell(nodeOutputs[..], node, |nodes|, maxBlock, count))
      ensures target[count..] == old(target[count..])
    {
      CellFits(node, |nodes|, maxBlock);
      var start := node * maxBlock;
      ghost var cell := Cell(nodeOutputs[..], node, |nodes|, maxBlock, count);
      assert nodeOutputs[start..start + count] == cell;
      hide Topological, InRange, Cell;
      for k := 0 to count
        invariant nodeOutputs[start..start + count] == cell
        invariant forall j :: 0 <= j < k ==> target[j] == dsp.add(old(target[j]), cell[j])
        invariant forall j :: k <= j < target.Length ==> target[j] == old(target[j])
      {
        target[k] := dsp.add(target[k], nodeOutputs[start + k]);
      }
    }

    /** Mix the cells of `sources` in list order, starting from silence, into the front of `target`. */
    method MixCells(target: array<Sample>, sources: seq<nat>, count: nat)
      requires Valid() && target != nodeOutputs && Below(sources, |nodes|)
      requires count <= maxBlock && count <= target.Length
      requires target[..count] == Silence(count)
      modifies target
      ensures target[..count] == Mix(dsp, Cells(nodeOutputs[..], |nodes|, maxBlock, count), sources, count)
      ensures target[count..] == old(target[count..])
    {
      ghost var vals := Cells(nodeOutputs[..], |nodes|, maxBlock, count);
      for i := 0 to |sources|
        invariant nodeOutputs[..] == old(nodeOutputs[..])
        invariant target[..count] == Mix(dsp, vals, sources[..i], count)
        invariant target[count..] == old(target[count..])
      {
        Accumulate(target, sources[i], count);
        assert sources[..i + 1][..i] == sources[..i];
      }
      assert sources[..|sources|] == sources;
    }

    /** Run one node: gather its input in the mix buffer, then let it overwrite its own cell. It reads the
        input of the graph, or the left-to-right sum of its predecessors' cells, and writes its whole slice. */
    method RunNode(index: nat, input: seq<Sample>, count: nat, ctx: Context)
      returns (ghost gathered: seq<Sample>, ghost slice: seq<Sample>)
      requires Valid() && index < |nodes| && count <= |input| && count <= maxBlock
      modifies this`nodes, mixBuffer, nodeOutputs
      ensures Valid() && |nodes| == old(|nodes|)
      ensures var vals := old(Cells(nodeOutputs[..], |nodes|, maxBlock, count));
              && nodes == old(nodes)[
                 index := dsp.next(old(nodes[index]), NodeInput(dsp, edges, vals, input[..count], index), ctx)]
              && Cells(nodeOutputs[..], |nodes|, maxBlock, count)
                 == vals[index := NodeOutput(dsp, edges, old(nodes), vals, input[..count], ctx, index)]
      ensures |gathered| == |slice| == count && Below(predecessors[index], |nodes|)
      ensures predecessors[index] == [] ==> gathered == input[..count]
      ensures var vals := old(Cells(nodeOutputs[..], |nodes|, maxBlock, count));
              predecessors[index] != [] ==> forall k :: 0 <= k < count ==>
                LeftSum(dsp, vals, predecessors[index], k, gathered[k])
      ensures forall k :: 0 <= k < count ==> slice[k] == dsp.sample(old(nodes[index]), gathered, ctx, k)
      ensures Cells(nodeOutputs[..], |nodes|, maxBlock, count)
              == old(Cells(nodeOutputs[..], |nodes|, maxBlock, count))[index := slice]
      ensures nodes == old(nodes)[index := dsp.next(old(nodes[index]), gathered, ctx)]
    {
      ghost var vals := Cells(nodeOutputs[..], |nodes|, maxBlock, count);
      GatherInput(index, input, count);
      gathered := mixBuffer[..count];
      InputMeaning(dsp, edges, vals, input[..count], index);
      hide LeftSum, NodeInput, Predecessors, Topological, InRange, Cells;
      var read := mixBuffer[..count];
      var written := dsp.Render(nodes[index], read, ctx);
      slice := written;
      WriteCell(index, written, count);
      nodes := nodes[index := dsp.next(nodes[index], read, ctx)];
    }

    method GatherInput(index: nat, input: seq<Sample>, count: nat)
      requires Valid() && index < |nodes| && count <= |input| && count <= maxBlock
      modifies mixBuffer
      ensures mixBuffer[..count]
              == NodeInput(dsp, edges, Cells(nodeOutputs[..], |nodes|, maxBlock, count), input[..count], index)
    {
      forall k | 0 <= k < count {
        mixBuffer[k] := SILENCE;
      }
      PredecessorsBelow(edges, |nodes|, index);
      if predecessors[index] == [] {
        forall k | 0 <= k < count {
          mixBuffer[k] := input[k];
        }
        assert mixBuffer[..count] == input[..count];
      } else {
        assert mixBuffer[..count] == Silence(count);
        MixCells(mixBuffer, predecessors[index], count);
      }
    }

    method WriteCell(index: nat, slice: seq<Sample>, count: nat)
      requires Valid() && index < |nodes| && |slice| == count <= maxBlock
      modifies nodeOutputs
      ensures Cells(nodeOutputs[..], |nodes|, maxBlock, count)
              == old(Cells(nodeOutputs[..], |nodes|, maxBlock, count))[index := slice]
    {
      CellFits(index, |nodes|, maxBlock);
      var start := index * maxBlock;
      ghost var before := nodeOutputs[..];
      forall k | start <= k < start + count {
        nodeOutputs[k] := slice[k - start];
      }
      CellWrite(before, nodeOutputs[..], |nodes|, maxBlock, count, index);
      assert Cell(nodeOutputs[..], index, |nodes|, maxBlock, count) == slice;
    }

    /** Process one block. The nodes are stepped once each, on the unique solution of the graph's
        equations for the first `count` input samples; the output is the sum of the sinks, then silence. */
    method Process(input: seq<Sample>, output: array<Sample>, ctx: Context)
      returns (ghost inputs: seq<seq<Sample>>, ghost vals: seq<seq<Sample>>)
      requires Valid() && output != nodeOutputs && output != mixBuffer
      modifies this`nodes, nodeOutputs, mixBuffer, output
      ensures Valid()
      ensures var count := Min(Min(|input|, output.Length), maxBlock);
              && Solves(dsp, edges, old(nodes), input[..count], ctx, vals)
              && Stepped(dsp, edges, old(nodes), input[..count], ctx, vals, nodes)
              && output[..] == Mix(dsp, vals, SinkList(edges, |old(nodes)|), count) + Silence(output.Length - count)
      ensures var count := Min(Min(|input|, output.Length), maxBlock);
              && BlockMeaning(dsp, edges, old(nodes), input[..count], ctx, inputs, vals, nodes)
              && (forall k :: 0 <= k < count ==> LeftSum(dsp, vals, SinkList(edges, |old(nodes)|), k, output[k]))
              && (forall k :: count <= k < output.Length ==> output[k] == SILENCE)
    {
      hide Mix, Cells, LeftSum, BlockMeaning, SinkList, Inputs;
      var count := Min(Min(|input|, output.Length), maxBlock);
      ghost var before := nodes;
      RunAll(input, count, ctx);
      vals := Cells(nodeOutputs[..], |nodes|, maxBlock, count);
      inputs := Inputs(dsp, edges, vals, input[..count]);
      SolutionMeans(dsp, edges, before, input[..count], ctx, vals, nodes);
      MixOutput(output, count);
      MixMeans(dsp, vals, SinkList(edges, |nodes|), count, output[..]);
    }

    method MixOutput(output: array<Sample>, count: nat)
      requires Valid() && output != nodeOutputs && count <= output.Length && count <= maxBlock
      modifies output
      ensures output[..] == Mix(dsp, Cells(nodeOutputs[..], |nodes|, maxBlock, count), SinkList(edges, |nodes|), count)
                            + Silence(output.Length - count)
    {
      forall k | 0 <= k < output.Length {
        output[k] := SILENCE;
      }
      assert output[..count] == Silence(count) && output[count..] == Silence(output.Length - count);
      hide Silence, Cells;
      MixCells(output, sinks, count);
      assert output[..] == output[..count] + output[count..];
    }

    method RunAll(input: seq<Sample>, count: nat, ctx: Context)
      requires Valid() && count <= |input| && count <= maxBlock
      modifies this`nodes, nodeOutputs, mixBuffer
      ensures Valid() && |nodes| == old(|nodes|)
      ensures var vals := Cells(nodeOutputs[..], |nodes|, maxBlock, count);
              && Solves(dsp, edges, old(nodes), input[..count], ctx, vals)
              && Stepped(dsp, edges, old(nodes), input[..count], ctx, vals, nodes)
    {
      ghost var start := Running(nodes, Cells(nodeOutputs[..], |nodes|, maxBlock, count));
      for i := 0 to |order|
        invariant Valid() && |nodes| == |start.nodes|
        invariant Running(nodes, Cells(nodeOutputs[..], |nodes|, maxBlock, count))
               == Execute(dsp, edges, order[..i], start, input[..count], ctx)
      {
        ghost var gathered, slice := RunNode(order[i], input, count, ctx);
        assert order[..i + 1][..i] == order[..i];
      }
      assert order[..|order|] == order;
      ExecuteSolves(dsp, edges, order, start, input[..count], ctx);
    }
  }
}
