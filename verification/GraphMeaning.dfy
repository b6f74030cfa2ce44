/** What a graph of stateful nodes means for one block, independently of any schedule. */
module GraphMeaning {
  import opened Samples
  import opened Graphs

  datatype Context = Context(sampleRate: nat, blockSize: nat)

  /** The nodes and the arithmetic. A node is a stateful transducer that writes its whole output
      slice; `T` carries its state and its kind. `add` is any operation whatsoever. */
  datatype Dsp<!T> = Dsp(
    next: (T, seq<Sample>, Context) -> T,
    sample: (T, seq<Sample>, Context, nat) -> Sample,
    latency: T -> nat,
    add: (Sample, Sample) -> Sample)
  {
    function Render(node: T, input: seq<Sample>, ctx: Context): (slice: seq<Sample>)
      ensures |slice| == |input|
    {
      seq(|input|, k requires 0 <= k < |input| => sample(node, input, ctx, k))
    }

    function AddSlices(a: seq<Sample>, b: seq<Sample>): (sum: seq<Sample>)
      requires |a| == |b|
      ensures |sum| == |a|
    {
      seq(|a|, k requires 0 <= k < |a| => add(a[k], b[k]))
    }
  }

  predicate Shaped(vals: seq<seq<Sample>>, n: nat, count: nat) {
    |vals| == n && forall v :: 0 <= v < n ==> |vals[v]| == count
  }

  /** The left fold of the sources in list order, starting from silence. */
  function Mix<T>(dsp: Dsp<T>, vals: seq<seq<Sample>>, sources: seq<nat>, count: nat): (mixed: seq<Sample>)
    requires Shaped(vals, |vals|, count) && Below(sources, |vals|)
    ensures |mixed| == count
  {
    if sources == [] then Silence(count)
    else dsp.AddSlices(Mix(dsp, vals, sources[..|sources| - 1], count), vals[sources[|sources| - 1]])
  }

  /** `total` is the left-to-right sum, from silence on, of the k-th samples of the sources. */
  ghost predicate LeftSum<T>(dsp: Dsp<T>, vals: seq<seq<Sample>>, sources: seq<nat>, k: nat, total: Sample)
    requires Below(sources, |vals|) && forall v :: 0 <= v < |vals| ==> k < |vals[v]|
  {
    exists sums: seq<Sample> ::
      && |sums| == |sources| + 1 && sums[0] == SILENCE && sums[|sources|] == total
      && forall i :: 0 <= i < |sources| ==> sums[i + 1] == dsp.add(sums[i], vals[sources[i]][k])
  }

  /** Every sample of a mix is the sum over all sources in list order. */
  lemma {:induction false} MixIsLeftSum<T>(dsp: Dsp<T>, vals: seq<seq<Sample>>, sources: seq<nat>, count: nat, k: nat)
    requires Shaped(vals, |vals|, count) && Below(sources, |vals|) && k < count
    ensures LeftSum(dsp, vals, sources, k, Mix(dsp, vals, sources, count)[k])
    decreases |sources|
  {
    if sources == [] {
      var sums := [SILENCE];
      assert |sums| == 1 && sums[0] == SILENCE;
      assert Mix(dsp, vals, sources, count)[k] == SILENCE;
      assert LeftSum(dsp, vals, sources, k, SILENCE) by { assert sums[|sources|] == SILENCE; }
    } else {
      var last := |sources| - 1;
      MixIsLeftSum(dsp, vals, sources[..last], count, k);
      var before := Mix(dsp, vals, sources[..last], count)[k];
      var sums: seq<Sample> :|
        && |sums| == |sources[..last]| + 1 && sums[0] == SILENCE && sums[|sources[..last]|] == before
        && forall i :: 0 <= i < |sources[..last]| ==> sums[i + 1] == dsp.add(sums[i], vals[sources[..last][i]][k]);
      LeftSumNext(dsp, vals, sources, k, sums);
    }
  }

  lemma LeftSumNext<T>(dsp: Dsp<T>, vals: seq<seq<Sample>>, sources: seq<nat>, k: nat, sums: seq<Sample>)
    requires Below(sources, |vals|) && forall v :: 0 <= v < |vals| ==> k < |vals[v]|
    requires sources != [] && |sums| == |sources| && sums[0] == SILENCE
    requires forall i :: 0 <= i < |sources| - 1 ==> sums[i + 1] == dsp.add(sums[i], vals[sources[i]][k])
    ensures LeftSum(dsp, vals, sources, k, dsp.add(sums[|sources| - 1], vals[sources[|sources| - 1]][k]))
  {
    var last := |sources| - 1;
    var more := sums + [dsp.add(sums[last], vals[sources[last]][k])];
    forall i | 0 <= i < |sources| ensures more[i + 1] == dsp.add(more[i], vals[sources[i]][k]) {
      if i < last { assert more[i + 1] == sums[i + 1] && more[i] == sums[i]; }
    }
    assert more[0] == SILENCE && |more| == |sources| + 1;
  }

  lemma {:induction false} PredecessorsBelow(edges: seq<Edge>, n: nat, v: nat)
    requires InRange(edges, n)
    ensures Below(Predecessors(edges, v), n)
  {
    forall i | 0 <= i < |Predecessors(edges, v)| ensures Predecessors(edges, v)[i] < n {
      NeighboursAreEdges(edges, Predecessors(edges, v)[i], v);
    }
  }

  /** Nodes without predecessors read the graph input, others the mix of their predecessors. */
  function NodeInput<T>(dsp: Dsp<T>, edges: seq<Edge>, vals: seq<seq<Sample>>, input: seq<Sample>,
                        v: nat): (r: seq<Sample>)
    requires InRange(edges, |vals|) && Shaped(vals, |vals|, |input|)
    ensures |r| == |input|
  {
    PredecessorsBelow(edges, |vals|, v);
    if Predecessors(edges, v) == [] then input else Mix(dsp, vals, Predecessors(edges, v), |input|)
  }

  function NodeOutput<T>(dsp: Dsp<T>, edges: seq<Edge>, nodes: seq<T>, vals: seq<seq<Sample>>,
                         input: seq<Sample>, ctx: Context, v: nat): (r: seq<Sample>)
    requires InRange(edges, |vals|) && Shaped(vals, |nodes|, |input|) && v < |nodes|
    ensures |r| == |input|
  {
    dsp.Render(nodes[v], NodeInput(dsp, edges, vals, input, v), ctx)
  }

  /** `vals` assigns to every node its output for this block: the equations of the graph. */
  ghost predicate Solves<T>(dsp: Dsp<T>, edges: seq<Edge>, nodes: seq<T>, input: seq<Sample>, ctx: Context,
                            vals: seq<seq<Sample>>)
  {
    && InRange(edges, |nodes|) && Shaped(vals, |nodes|, |input|)
    && forall v :: 0 <= v < |nodes| ==> vals[v] == NodeOutput(dsp, edges, nodes, vals, input, ctx, v)
  }

  /** Every node stepped exactly once, on the input the solution gives it. */
  ghost predicate Stepped<T>(dsp: Dsp<T>, edges: seq<Edge>, nodes: seq<T>, input: seq<Sample>, ctx: Context,
                             vals: seq<seq<Sample>>, nodes': seq<T>)
    requires InRange(edges, |nodes|) && Shaped(vals, |nodes|, |input|)
  {
    && |nodes'| == |nodes|
    && forall v :: 0 <= v < |nodes| ==> nodes'[v] == dsp.next(nodes[v], NodeInput(dsp, edges, vals, input, v), ctx)
  }

  /** A node's input only depends on its predecessors. */
  lemma {:induction false} MixLocal<T>(dsp: Dsp<T>, vals: seq<seq<Sample>>, vals': seq<seq<Sample>>,
                                       sources: seq<nat>, count: nat)
    requires Shaped(vals, |vals|, count) && Shaped(vals', |vals|, count) && Below(sources, |vals|)
    requires forall u :: u in sources ==> vals[u] == vals'[u]
    ensures Mix(dsp, vals, sources, count) == Mix(dsp, vals', sources, count)
  {
    if sources != [] {
      MixLocal(dsp, vals, vals', sources[..|sources| - 1], count);
    }
  }

  lemma InputLocal<T>(dsp: Dsp<T>, edges: seq<Edge>, vals: seq<seq<Sample>>, vals': seq<seq<Sample>>,
                      input: seq<Sample>, v: nat)
    requires InRange(edges, |vals|) && Shaped(vals, |vals|, |input|) && Shaped(vals', |vals|, |input|)
    requires forall u :: u in Predecessors(edges, v) ==> u < |vals| && vals[u] == vals'[u]
    ensures NodeInput(dsp, edges, vals, input, v) == NodeInput(dsp, edges, vals', input, v)
  {
    PredecessorsBelow(edges, |vals|, v);
    MixLocal(dsp, vals, vals', Predecessors(edges, v), |input|);
  }

  /** All predecessors of a vertex come earlier in a topological order. */
  lemma EarlierPredecessor(order: seq<nat>, edges: seq<Edge>, n: nat, i: nat, u: nat) returns (j: nat)
    requires Topological(order, edges, n) && InRange(edges, n) && i < n && u in Predecessors(edges, order[i])
    ensures j < i && order[j] == u
  {
    NeighboursAreEdges(edges, u, order[i]);
    j := IndexOf(order, n, u);
  }

  /** The equations of an acyclic graph have at most one solution. */
  lemma {:induction false} SolutionIsUniqueAt<T>(dsp: Dsp<T>, edges: seq<Edge>, nodes: seq<T>, input: seq<Sample>,
                                                 ctx: Context, order: seq<nat>, a: seq<seq<Sample>>,
                                                 b: seq<seq<Sample>>, i: nat)
    requires Topological(order, edges, |nodes|) && i < |nodes|
    requires Solves(dsp, edges, nodes, input, ctx, a) && Solves(dsp, edges, nodes, input, ctx, b)
    ensures a[order[i]] == b[order[i]]
    decreases i
  {
    forall u | u in Predecessors(edges, order[i]) ensures u < |nodes| && a[u] == b[u] {
      var j := EarlierPredecessor(order, edges, |nodes|, i, u);
      SolutionIsUniqueAt(dsp, edges, nodes, input, ctx, order, a, b, j);
    }
    InputLocal(dsp, edges, a, b, input, order[i]);
  }

  lemma SolutionIsUnique<T>(dsp: Dsp<T>, edges: seq<Edge>, nodes: seq<T>, input: seq<Sample>, ctx: Context,
                            order: seq<nat>, a: seq<seq<Sample>>, b: seq<seq<Sample>>)
    requires Topological(order, edges, |nodes|)
    requires Solves(dsp, edges, nodes, input, ctx, a) && Solves(dsp, edges, nodes, input, ctx, b)
    ensures a == b
  {
    forall v | 0 <= v < |nodes| ensures a[v] == b[v] {
      var i := IndexOf(order, |nodes|, v);
      SolutionIsUniqueAt(dsp, edges, nodes, input, ctx, order, a, b, i);
    }
  }

  /** What a block means, sample by sample. Every node reads the input of the graph if it has no
      predecessors, and otherwise the left-to-right sum of their outputs; it writes its whole slice and is
      stepped once, both on what it read. */
  ghost predicate BlockMeaning<T>(dsp: Dsp<T>, edges: seq<Edge>, nodes: seq<T>, input: seq<Sample>, ctx: Context,
                                  inputs: seq<seq<Sample>>, vals: seq<seq<Sample>>, nodes': seq<T>)
  {
    var n, count := |nodes|, |input|;
    && InRange(edges, n) && Shaped(inputs, n, count) && Shaped(vals, n, count) && |nodes'| == n
    && (forall v :: 0 <= v < n && Predecessors(edges, v) == [] ==> inputs[v] == input)
    && (forall v :: 0 <= v < n ==> Below(Predecessors(edges, v), n))
    && (forall v, k :: 0 <= v < n && 0 <= k < count && Predecessors(edges, v) != [] ==>
          LeftSum(dsp, vals, Predecessors(edges, v), k, inputs[v][k]))
    && (forall v, k :: 0 <= v < n && 0 <= k < count ==> vals[v][k] == dsp.sample(nodes[v], inputs[v], ctx, k))
    && (forall v :: 0 <= v < n ==> nodes'[v] == dsp.next(nodes[v], inputs[v], ctx))
  }

  /** What the nodes read, given what all of them write. */
  function Inputs<T>(dsp: Dsp<T>, edges: seq<Edge>, vals: seq<seq<Sample>>,
                     input: seq<Sample>): (inputs: seq<seq<Sample>>)
    requires InRange(edges, |vals|) && Shaped(vals, |vals|, |input|)
    ensures Shaped(inputs, |vals|, |input|)
  {
    seq(|vals|, v requires 0 <= v < |vals| => NodeInput(dsp, edges, vals, input, v))
  }

  lemma InputMeaning<T>(dsp: Dsp<T>, edges: seq<Edge>, vals: seq<seq<Sample>>, input: seq<Sample>, v: nat)
    requires InRange(edges, |vals|) && Shaped(vals, |vals|, |input|)
    ensures Below(Predecessors(edges, v), |vals|)
    ensures Predecessors(edges, v) == [] ==> NodeInput(dsp, edges, vals, input, v) == input
    ensures Predecessors(edges, v) != [] ==> forall k :: 0 <= k < |input| ==>
              LeftSum(dsp, vals, Predecessors(edges, v), k, NodeInput(dsp, edges, vals, input, v)[k])
  {
    PredecessorsBelow(edges, |vals|, v);
    if Predecessors(edges, v) != [] {
      forall k | 0 <= k < |input|
        ensures LeftSum(dsp, vals, Predecessors(edges, v), k, NodeInput(dsp, edges, vals, input, v)[k])
      {
        MixIsLeftSum(dsp, vals, Predecessors(edges, v), |input|, k);
      }
    }
  }

  /** A solution of the equations, with every node stepped on it, is what the block means. */
  lemma SolutionMeans<T>(dsp: Dsp<T>, edges: seq<Edge>, nodes: seq<T>, input: seq<Sample>, ctx: Context,
                         vals: seq<seq<Sample>>, nodes': seq<T>)
    requires Solves(dsp, edges, nodes, input, ctx, vals) && Stepped(dsp, edges, nodes, input, ctx, vals, nodes')
    ensures BlockMeaning(dsp, edges, nodes, input, ctx, Inputs(dsp, edges, vals, input), vals, nodes')
  {
    forall v | 0 <= v < |nodes|
      ensures Below(Predecessors(edges, v), |nodes|)
      ensures Predecessors(edges, v) == [] ==> NodeInput(dsp, edges, vals, input, v) == input
      ensures Predecessors(edges, v) != [] ==> forall k :: 0 <= k < |input| ==>
                LeftSum(dsp, vals, Predecessors(edges, v), k, NodeInput(dsp, edges, vals, input, v)[k])
    {
      InputMeaning(dsp, edges, vals, input, v);
    }
    hide LeftSum, NodeInput, Predecessors;
  }

  // Schedules

  datatype Running<T> = Running(nodes: seq<T>, vals: seq<seq<Sample>>)

  /** Execute the nodes in list order: each overwrites its value and steps its state. */
  function Execute<T>(dsp: Dsp<T>, edges: seq<Edge>, order: seq<nat>, start: Running<T>, input: seq<Sample>,
                      ctx: Context): (r: Running<T>)
    requires InRange(edges, |start.nodes|) && Shaped(start.vals, |start.nodes|, |input|) && Below(order, |start.nodes|)
    ensures |r.nodes| == |start.nodes| && Shaped(r.vals, |start.nodes|, |input|)
  {
    if order == [] then start
    else
      var r, v := Execute(dsp, edges, order[..|order| - 1], start, input, ctx), order[|order| - 1];
      Running(r.nodes[v := dsp.next(r.nodes[v], NodeInput(dsp, edges, r.vals, input, v), ctx)],
              r.vals[v := NodeOutput(dsp, edges, r.nodes, r.vals, input, ctx, v)])
  }

  /** Node `v` has its final value and has been stepped once from its state in `nodes`. */
  ghost predicate Settled<T>(dsp: Dsp<T>, edges: seq<Edge>, nodes: seq<T>, r: Running<T>, input: seq<Sample>,
                             ctx: Context, v: nat)
    requires InRange(edges, |nodes|) && |r.nodes| == |nodes| && Shaped(r.vals, |nodes|, |input|) && v < |nodes|
  {
    && r.vals[v] == NodeOutput(dsp, edges, nodes, r.vals, input, ctx, v)
    && r.nodes[v] == dsp.next(nodes[v], NodeInput(dsp, edges, r.vals, input, v), ctx)
  }

  /** Overwriting the value of a later vertex leaves an earlier one settled. */
  lemma StaysSettled<T>(dsp: Dsp<T>, edges: seq<Edge>, nodes: seq<T>, r: Running<T>, r': Running<T>,
                        input: seq<Sample>, ctx: Context, order: seq<nat>, i: nat, j: nat)
    requires Topological(order, edges, |nodes|) && InRange(edges, |nodes|) && j < i < |nodes|
    requires |r.nodes| == |r'.nodes| == |nodes|
    requires Shaped(r.vals, |nodes|, |input|) && Shaped(r'.vals, |nodes|, |input|)
    requires forall v :: 0 <= v < |nodes| && v != order[i] ==> r'.vals[v] == r.vals[v] && r'.nodes[v] == r.nodes[v]
    requires Settled(dsp, edges, nodes, r, input, ctx, order[j])
    ensures Settled(dsp, edges, nodes, r', input, ctx, order[j])
  {
    forall u | u in Predecessors(edges, order[j]) ensures u < |nodes| && r.vals[u] == r'.vals[u] {
      var k := EarlierPredecessor(order, edges, |nodes|, j, u);
    }
    InputLocal(dsp, edges, r.vals, r'.vals, input, order[j]);
  }

  lemma NewlySettled<T>(dsp: Dsp<T>, edges: seq<Edge>, order: seq<nat>, nodes: seq<T>, r: Running<T>, r': Running<T>,
                        input: seq<Sample>, ctx: Context, i: nat)
    requires Topological(order, edges, |nodes|) && InRange(edges, |nodes|) && i < |nodes|
    requires |r.nodes| == |nodes| && Shaped(r.vals, |nodes|, |input|)
    requires r.nodes[order[i]] == nodes[order[i]]
    requires r' == Running(
      r.nodes[order[i] := dsp.next(r.nodes[order[i]], NodeInput(dsp, edges, r.vals, input, order[i]), ctx)],
      r.vals[order[i] := NodeOutput(dsp, edges, r.nodes, r.vals, input, ctx, order[i])])
    ensures Shaped(r'.vals, |nodes|, |input|)
    ensures Settled(dsp, edges, nodes, r', input, ctx, order[i])
  {
    forall u | u in Predecessors(edges, order[i]) ensures u < |nodes| && r.vals[u] == r'.vals[u] {
      var k := EarlierPredecessor(order, edges, |nodes|, i, u);
    }
    InputLocal(dsp, edges, r.vals, r'.vals, input, order[i]);
  }

  /** The first `i` vertices of the order are settled, the others still have their state. */
  ghost predicate Progress<T>(dsp: Dsp<T>, edges: seq<Edge>, order: seq<nat>, nodes: seq<T>, r: Running<T>,
                              input: seq<Sample>, ctx: Context, i: nat)
    requires InRange(edges, |nodes|) && Topological(order, edges, |nodes|) && i <= |order|
  {
    && |r.nodes| == |nodes| && Shaped(r.vals, |nodes|, |input|)
    && (forall v :: 0 <= v < |nodes| && v !in order[..i] ==> r.nodes[v] == nodes[v])
    && (forall j :: 0 <= j < i ==> Settled(dsp, edges, nodes, r, input, ctx, order[j]))
  }

  lemma ProgressStep<T>(dsp: Dsp<T>, edges: seq<Edge>, order: seq<nat>, nodes: seq<T>, r: Running<T>, r': Running<T>,
                        input: seq<Sample>, ctx: Context, i: nat)
    requires InRange(edges, |nodes|) && Topological(order, edges, |nodes|) && i < |order|
    requires Progress(dsp, edges, order, nodes, r, input, ctx, i)
    requires r' == Running(
      r.nodes[order[i] := dsp.next(r.nodes[order[i]], NodeInput(dsp, edges, r.vals, input, order[i]), ctx)],
      r.vals[order[i] := NodeOutput(dsp, edges, r.nodes, r.vals, input, ctx, order[i])])
    ensures Progress(dsp, edges, order, nodes, r', input, ctx, i + 1)
  {
    hide NodeInput, NodeOutput, Settled;
    assert order[..i + 1] == order[..i] + [order[i]];
    assert order[i] !in order[..i];
    NewlySettled(dsp, edges, order, nodes, r, r', input, ctx, i);
    forall j | 0 <= j < i ensures Settled(dsp, edges, nodes, r', input, ctx, order[j]) {
      StaysSettled(dsp, edges, nodes, r, r', input, ctx, order, i, j);
    }
  }

  lemma {:induction false} ExecutePrefix<T>(dsp: Dsp<T>, edges: seq<Edge>, order: seq<nat>, start: Running<T>,
                                            input: seq<Sample>, ctx: Context, i: nat)
    requires InRange(edges, |start.nodes|) && Shaped(start.vals, |start.nodes|, |input|)
    requires Topological(order, edges, |start.nodes|) && i <= |order|
    ensures Progress(dsp, edges, order, start.nodes, Execute(dsp, edges, order[..i], start, input, ctx), input, ctx, i)
  {
    if i > 0 {
      hide Progress, NodeInput, NodeOutput;
      assert order[..i][..i - 1] == order[..i - 1];
      ExecutePrefix(dsp, edges, order, start, input, ctx, i - 1);
      ProgressStep(dsp, edges, order, start.nodes, Execute(dsp, edges, order[..i - 1], start, input, ctx),
                   Execute(dsp, edges, order[..i], start, input, ctx), input, ctx, i - 1);
    }
  }

  /** Executing any topological order, from any stale values, solves the equations and steps every
      node exactly once. */
  lemma ExecuteSolves<T>(dsp: Dsp<T>, edges: seq<Edge>, order: seq<nat>, start: Running<T>, input: seq<Sample>,
                         ctx: Context)
    requires InRange(edges, |start.nodes|) && Shaped(start.vals, |start.nodes|, |input|)
    requires Topological(order, edges, |start.nodes|)
    ensures var r := Execute(dsp, edges, order, start, input, ctx);
            && Solves(dsp, edges, start.nodes, input, ctx, r.vals)
            && Stepped(dsp, edges, start.nodes, input, ctx, r.vals, r.nodes)
  {
    var n := |start.nodes|;
    ExecutePrefix(dsp, edges, order, start, input, ctx, n);
    assert order[..n] == order;
    var r := Execute(dsp, edges, order, start, input, ctx);
    hide Execute, NodeOutput, NodeInput;
    forall v | 0 <= v < n
      ensures r.vals[v] == NodeOutput(dsp, edges, start.nodes, r.vals, input, ctx, v)
      ensures r.nodes[v] == dsp.next(start.nodes[v], NodeInput(dsp, edges, r.vals, input, v), ctx)
    {
      var i := IndexOf(order, n, v);
      assert Settled(dsp, edges, start.nodes, r, input, ctx, order[i]);
    }
  }

  /** The result depends neither on the chosen topological order nor on what the buffers held. */
  lemma ScheduleIndependent<T>(dsp: Dsp<T>, edges: seq<Edge>, order: seq<nat>, order': seq<nat>, nodes: seq<T>,
                               stale: seq<seq<Sample>>, stale': seq<seq<Sample>>, input: seq<Sample>, ctx: Context)
    requires InRange(edges, |nodes|)
    requires Shaped(stale, |nodes|, |input|) && Shaped(stale', |nodes|, |input|)
    requires Topological(order, edges, |nodes|) && Topological(order', edges, |nodes|)
    ensures Execute(dsp, edges, order, Running(nodes, stale), input, ctx)
         == Execute(dsp, edges, order', Running(nodes, stale'), input, ctx)
  {
    ExecuteSolves(dsp, edges, order, Running(nodes, stale), input, ctx);
    ExecuteSolves(dsp, edges, order', Running(nodes, stale'), input, ctx);
    var r := Execute(dsp, edges, order, Running(nodes, stale), input, ctx);
    var r' := Execute(dsp, edges, order', Running(nodes, stale'), input, ctx);
    SolutionIsUnique(dsp, edges, nodes, input, ctx, order, r.vals, r'.vals);
    assert r.nodes == r'.nodes;
  }

  // Sequences of blocks

  /** One block, and what the node buffers hold when it comes. */
  datatype Block = Block(input: seq<Sample>, ctx: Context, stale: seq<seq<Sample>>)

  predicate Fits(blocks: seq<Block>, n: nat) {
    forall k :: 0 <= k < |blocks| ==> Shaped(blocks[k].stale, n, |blocks[k].input|)
  }

  /** The node states and the node outputs of every block, executed in list order. */
  function ExecuteBlocks<T>(dsp: Dsp<T>, edges: seq<Edge>, order: seq<nat>, nodes: seq<T>, blocks: seq<Block>):
    (r: (seq<T>, seq<seq<seq<Sample>>>))
    requires InRange(edges, |nodes|) && Below(order, |nodes|) && Fits(blocks, |nodes|)
    ensures |r.0| == |nodes| && |r.1| == |blocks|
  {
    if blocks == [] then (nodes, [])
    else
      var b := blocks[|blocks| - 1];
      var before := ExecuteBlocks(dsp, edges, order, nodes, blocks[..|blocks| - 1]);
      var r := Execute(dsp, edges, order, Running(before.0, b.stale), b.input, b.ctx);
      (r.nodes, before.1 + [r.vals])
  }

  /** Over any sequence of blocks, the node states and all outputs depend neither on the schedule nor
      on what earlier blocks, of whatever lengths, left in the buffers. */
  lemma {:induction false} BlocksScheduleIndependent<T>(dsp: Dsp<T>, edges: seq<Edge>, order: seq<nat>,
                                                        order': seq<nat>, nodes: seq<T>, blocks: seq<Block>,
                                                        blocks': seq<Block>)
    requires InRange(edges, |nodes|) && Topological(order, edges, |nodes|) && Topological(order', edges, |nodes|)
    requires |blocks| == |blocks'| && Fits(blocks, |nodes|) && Fits(blocks', |nodes|)
    requires forall k :: 0 <= k < |blocks| ==> blocks'[k].input == blocks[k].input && blocks'[k].ctx == blocks[k].ctx
    ensures ExecuteBlocks(dsp, edges, order, nodes, blocks) == ExecuteBlocks(dsp, edges, order', nodes, blocks')
    decreases |blocks|
  {
    if blocks != [] {
      var last := |blocks| - 1;
      BlocksScheduleIndependent(dsp, edges, order, order', nodes, blocks[..last], blocks'[..last]);
      var states := ExecuteBlocks(dsp, edges, order, nodes, blocks[..last]).0;
      ScheduleIndependent(dsp, edges, order, order', states, blocks[last].stale, blocks'[last].stale,
                          blocks[last].input, blocks[last].ctx);
    }
  }

  lemma BlockMeans<T>(dsp: Dsp<T>, edges: seq<Edge>, order: seq<nat>, nodes: seq<T>, b: Block)
    requires InRange(edges, |nodes|) && Topological(order, edges, |nodes|) && Shaped(b.stale, |nodes|, |b.input|)
    ensures Below(order, |nodes|)
    ensures var r := Execute(dsp, edges, order, Running(nodes, b.stale), b.input, b.ctx);
            BlockMeaning(dsp, edges, nodes, b.input, b.ctx, Inputs(dsp, edges, r.vals, b.input), r.vals, r.nodes)
  {
    ExecuteSolves(dsp, edges, order, Running(nodes, b.stale), b.input, b.ctx);
    var r := Execute(dsp, edges, order, Running(nodes, b.stale), b.input, b.ctx);
    SolutionMeans(dsp, edges, nodes, b.input, b.ctx, r.vals, r.nodes);
  }

  /** Every block means what its equations say, each on the states that the block before it left behind. */
  ghost predicate BlocksMeaning<T>(dsp: Dsp<T>, edges: seq<Edge>, blocks: seq<Block>, states: seq<seq<T>>,
                                   inputs: seq<seq<seq<Sample>>>, outs: seq<seq<seq<Sample>>>)
  {
    && |states| == |blocks| + 1 && |inputs| == |outs| == |blocks|
    && forall k :: 0 <= k < |blocks| ==>
         BlockMeaning(dsp, edges, states[k], blocks[k].input, blocks[k].ctx, inputs[k], outs[k], states[k + 1])
  }

  lemma BlocksNext<T>(dsp: Dsp<T>, edges: seq<Edge>, blocks: seq<Block>, states: seq<seq<T>>,
                      inputs: seq<seq<seq<Sample>>>, outs: seq<seq<seq<Sample>>>,
                      b: Block, input: seq<seq<Sample>>, out: seq<seq<Sample>>, state: seq<T>)
    requires BlocksMeaning(dsp, edges, blocks, states, inputs, outs)
    requires BlockMeaning(dsp, edges, states[|blocks|], b.input, b.ctx, input, out, state)
    ensures BlocksMeaning(dsp, edges, blocks + [b], states + [state], inputs + [input], outs + [out])
  {
    hide BlockMeaning;
    var bs, ss, ins, os := blocks + [b], states + [state], inputs + [input], outs + [out];
    forall k | 0 <= k < |bs|
      ensures BlockMeaning(dsp, edges, ss[k], bs[k].input, bs[k].ctx, ins[k], os[k], ss[k + 1])
    {
      if k < |blocks| {
        assert BlockMeaning(dsp, edges, states[k], blocks[k].input, blocks[k].ctx, inputs[k], outs[k], states[k + 1]);
      }
    }
  }

  /** Executing a sequence of blocks in a topological order gives the outputs and the states that the blocks
      mean, from the first states to the last. */
  lemma {:induction false} BlocksMean<T>(dsp: Dsp<T>, edges: seq<Edge>, order: seq<nat>, nodes: seq<T>,
                                         blocks: seq<Block>)
    returns (states: seq<seq<T>>, inputs: seq<seq<seq<Sample>>>)
    requires InRange(edges, |nodes|) && Topological(order, edges, |nodes|) && Fits(blocks, |nodes|)
    ensures var r := ExecuteBlocks(dsp, edges, order, nodes, blocks);
            && BlocksMeaning(dsp, edges, blocks, states, inputs, r.1)
            && states[0] == nodes && states[|blocks|] == r.0
    decreases |blocks|
  {
    hide BlockMeaning, Inputs, Execute;
    if blocks == [] {
      states, inputs := [nodes], [];
    } else {
      var last := |blocks| - 1;
      var before := ExecuteBlocks(dsp, edges, order, nodes, blocks[..last]);
      var ss, ins := BlocksMean(dsp, edges, order, nodes, blocks[..last]);
      var b := blocks[last];
      BlockMeans(dsp, edges, order, before.0, b);
      var r := Execute(dsp, edges, order, Running(before.0, b.stale), b.input, b.ctx);
      var input := Inputs(dsp, edges, r.vals, b.input);
      BlocksNext(dsp, edges, blocks[..last], ss, ins, before.1, b, input, r.vals, r.nodes);
      assert blocks[..last] + [b] == blocks;
      states, inputs := ss + [r.nodes], ins + [input];
      hide BlocksMeaning, Topological;
    }
  }
}
