/** The adapter preserves the stream: what the host receives is the rendering of what it sent,
    with exactly the announced silences put in. */
module AdapterStreams {
  import opened Words
  import opened Samples
  import opened NumberTheory
  import opened AdapterModel
  import opened AdapterRuns

  /** Rendering a stream in two parts renders the whole: the remainder of the first part is carried over. */
  lemma {:induction false} RenderAppend<C>(cb: Callback<C>, env: C, scratch: seq<Sample>, s: seq<Sample>,
                                           t: seq<Sample>)
    requires |scratch| > 0
    ensures var first := RenderBlocks(cb, env, scratch, s);
            var second := RenderBlocks(cb, first.env, first.scratch, first.rest + t);
            RenderBlocks(cb, env, scratch, s + t) == second.(rendered := first.rendered + second.rendered)
    decreases |s|
  {
    var d := |scratch|;
    if |s| >= d {
      var slice := cb.Render(env, s[..d], scratch);
      var next := cb.next(env, s[..d], scratch);
      assert (s + t)[..d] == s[..d] && (s + t)[d..] == s[d..] + t;
      RenderAppend(cb, next, slice, s[d..], t);
      var first := RenderBlocks(cb, next, slice, s[d..]);
      var second := RenderBlocks(cb, first.env, first.scratch, first.rest + t);
      assert slice + (first.rendered + second.rendered) == slice + first.rendered + second.rendered;
    }
  }

  /** `s` without its last `count` samples. */
  function Cut(s: seq<Sample>, count: nat): (r: seq<Sample>)
    ensures r <= s && |r| == Max(|s| - count, 0)
  {
    Clip(s, Max(|s| - count, 0))
  }

  /** `stream` with the silence that each report announces put in front of the blocks of its callback,
      and without the samples at their end that the report counts as dropped. */
  function Woven(reports: seq<Report>, block: nat, stream: seq<Sample>): seq<Sample>
    decreases |reports|
  {
    if reports == [] then stream
    else
      var r := reports[|reports| - 1];
      var cut := Max(|stream| - r.blocks * block, 0);
      Woven(reports[..|reports| - 1], block, stream[..cut])
      + Silence(r.latencyAdded) + Cut(stream[cut..], r.droppedOutput)
  }

  function RenderedLength(reports: seq<Report>, block: nat): nat {
    if reports == [] then 0
    else RenderedLength(reports[..|reports| - 1], block) + reports[|reports| - 1].blocks * block
  }

  /** What the host got in one callback, without the silence at its end that stands for an underrun. */
  function Heard<C>(o: Outcome<C>): seq<Sample> {
    Cut(o.outputs, o.report.underrun)
  }

  /** What the host got in a run, without the silence that stands for underruns. */
  function Received<C>(cb: Callback<C>, start: Adapter<C>, calls: seq<HostCall>): seq<Sample>
    requires start.Ready()
    decreases |calls|
  {
    if calls == [] then []
    else
      var last := |calls| - 1;
      Received(cb, start, calls[..last])
      + Heard(Processed(cb, Run(cb, start, calls[..last]).adapter, calls[last].inputs, calls[last].wanted))
  }

  /** The samples that the adapter accepted in a run. */
  function AllAccepted<C>(cb: Callback<C>, start: Adapter<C>, calls: seq<HostCall>): seq<Sample>
    requires start.Ready()
    decreases |calls|
  {
    if calls == [] then []
    else
      var last := |calls| - 1;
      var o := Processed(cb, Run(cb, start, calls[..last]).adapter, calls[last].inputs, calls[last].wanted);
      AllAccepted(cb, start, calls[..last]) + Clip(calls[last].inputs, o.report.acceptedInput)
  }

  /** Without drops the adapter has accepted all it was sent. */
  lemma {:induction false} AcceptedAll<C>(cb: Callback<C>, start: Adapter<C>, calls: seq<HostCall>)
    requires start.Ready() && NothingDropped(Run(cb, start, calls).reports)
    ensures AllAccepted(cb, start, calls) == AllInputs(calls)
    decreases |calls|
  {
    hide Processed;
    if calls != [] {
      var last := |calls| - 1;
      var run := Run(cb, start, calls[..last]);
      ReportsAppend(run.reports, Processed(cb, run.adapter, calls[last].inputs, calls[last].wanted).report);
      StepLengths(cb, run.adapter, calls[last].inputs, calls[last].wanted);
      hide Pending;
      AcceptedAll(cb, start, calls[..last]);
    }
  }

  /** The rest of every host slice is silence, as long as the report says. */
  lemma UnderrunIsSilent<C>(cb: Callback<C>, a: Adapter<C>, inputs: seq<Sample>, wanted: nat)
    requires a.Ready()
    ensures var o := Processed(cb, a, inputs, wanted); o.outputs == Heard(o) + Silence(o.report.underrun)
  {
  }

  /** Without underruns the host has received all it was delivered. */
  lemma {:induction false} ReceivedAll<C>(cb: Callback<C>, start: Adapter<C>, calls: seq<HostCall>)
    requires start.Ready() && NoUnderrun(Run(cb, start, calls).reports)
    ensures Received(cb, start, calls) == Run(cb, start, calls).delivered
    decreases |calls|
  {
    hide Processed;
    if calls != [] {
      var last := |calls| - 1;
      var run := Run(cb, start, calls[..last]);
      ReportsAppend(run.reports, Processed(cb, run.adapter, calls[last].inputs, calls[last].wanted).report);
      ReceivedAll(cb, start, calls[..last]);
    }
  }

  /** The run has fed the callback exactly the consecutive blocks of what was sent, and all the host has
      received or can still receive is their rendering with the announced silence. */
  ghost predicate Streams<C>(run: History<C>, received: seq<Sample>, all: Rendering<C>) {
    && run.adapter.input == all.rest
    && run.adapter.scratch == all.scratch
    && run.adapter.env == all.env
    && |all.rendered| == RenderedLength(run.reports, run.adapter.Block())
    && received + run.adapter.output == Woven(run.reports, run.adapter.Block(), all.rendered)
  }

  lemma ServeSplits<C>(a: Adapter<C>, wanted: nat)
    ensures Cut(Delivery(a, wanted), Max(wanted - |a.output|, 0)) + Served(a, wanted).output == a.output
  {
  }

  lemma WholeBlocks<C>(cb: Callback<C>, env: C, scratch: seq<Sample>, input: seq<Sample>)
    requires |scratch| > 0
    ensures |RenderBlocks(cb, env, scratch, input).rendered| == |input| / |scratch| * |scratch|
  {
    RestLength(cb, env, scratch, input);
  }

  lemma FilledInput<C>(a: Adapter<C>, inputs: seq<Sample>)
    requires a.Ready()
    ensures Filled(a, inputs).input == a.input + Clip(inputs, |Filled(a, inputs).input| - |a.input|)
  {
    ClipAppend(a.input, inputs, a.capacity);
  }

  lemma DrainedOutput<C>(cb: Callback<C>, a: Adapter<C>)
    requires 0 < a.Block() && |a.output| <= a.capacity
    ensures var rendered := RenderBlocks(cb, a.env, a.scratch, a.input).rendered;
            && |Drained(cb, a).output| <= |a.output| + |rendered|
            && Drained(cb, a).output == a.output + Cut(rendered, |a.output| + |rendered| - |Drained(cb, a).output|)
  {
    hide RenderBlocks;
    ClipAppend(a.output, RenderBlocks(cb, a.env, a.scratch, a.input).rendered, a.capacity);
  }

  lemma PrimedOutput<C>(a: Adapter<C>, wanted: nat)
    requires a.Ready()
    ensures Primed(a, wanted).output == a.output + Silence(Inserted(a, wanted))
  {
  }

  /** What a callback adds to the stream. */
  lemma StreamStep<C>(cb: Callback<C>, a: Adapter<C>, call: HostCall)
    requires a.Ready()
    ensures var o := Processed(cb, a, call.inputs, call.wanted);
            var added := RenderBlocks(cb, a.env, a.scratch, a.input + Clip(call.inputs, o.report.acceptedInput));
            && o.adapter.input == added.rest && o.adapter.scratch == added.scratch && o.adapter.env == added.env
            && Heard(o) + o.adapter.output
               == a.output + Silence(o.report.latencyAdded) + Cut(added.rendered, o.report.droppedOutput)
            && |added.rendered| == o.report.blocks * a.Block()
  {
    hide RenderBlocks, Silence, Delivery, Cut, Clip, Inserted, Taken;
    var primed := Primed(a, call.wanted);
    var filled := Filled(primed, call.inputs);
    FilledInput(primed, call.inputs);
    WholeBlocks(cb, a.env, a.scratch, filled.input);
    DrainedOutput(cb, filled);
    ServeSplits(Drained(cb, filled), call.wanted);
    PrimedOutput(a, call.wanted);
  }

  lemma ExtendStreams<C>(cb: Callback<C>, run: History<C>, received: seq<Sample>, all: Rendering<C>, call: HostCall)
    requires run.adapter.Ready() && Streams(run, received, all)
    ensures var o := Processed(cb, run.adapter, call.inputs, call.wanted);
            var added := RenderBlocks(cb, all.env, all.scratch, all.rest + Clip(call.inputs, o.report.acceptedInput));
            Streams(Extend(cb, run, call), received + Heard(o), added.(rendered := all.rendered + added.rendered))
  {
    StreamStep(cb, run.adapter, call);
    var o := Processed(cb, run.adapter, call.inputs, call.wanted);
    var added := RenderBlocks(cb, all.env, all.scratch, all.rest + Clip(call.inputs, o.report.acceptedInput));
    QuantumStep(cb, run.adapter, call.inputs, call.wanted);
    hide Processed, RenderBlocks, Silence;
    WovenNext(run.reports, o.report, run.adapter.Block(), all.rendered, added.rendered);
    Regroup(received, run.adapter.output, Silence(o.report.latencyAdded), Cut(added.rendered, o.report.droppedOutput),
            Heard(o), o.adapter.output);
    hide Woven, Heard, Cut;
  }

  lemma WovenNext(reports: seq<Report>, r: Report, block: nat, stream: seq<Sample>, added: seq<Sample>)
    requires |stream| == RenderedLength(reports, block) && |added| == r.blocks * block
    ensures Woven(reports + [r], block, stream + added)
         == Woven(reports, block, stream) + Silence(r.latencyAdded) + Cut(added, r.droppedOutput)
    ensures RenderedLength(reports + [r], block) == |stream + added|
  {
    hide Silence, Cut;
    assert (reports + [r])[..|reports|] == reports;
    assert (stream + added)[..|stream|] == stream && (stream + added)[|stream|..] == added;
  }

  lemma Regroup(received: seq<Sample>, output: seq<Sample>, silence: seq<Sample>, added: seq<Sample>,
                heard: seq<Sample>, output': seq<Sample>)
    requires heard + output' == output + silence + added
    ensures received + heard + output' == received + output + silence + added
  {
    assert received + heard + output' == received + (heard + output');
    assert received + output + silence + added == received + (output + silence + added);
  }

  /** In every run, whatever the quanta, the drops and the underruns: the callback has seen exactly the
      consecutive blocks of what was accepted, the remainder waits in the input FIFO, and what the host
      has received is the rendering with the announced silence, short of the samples at the end of a
      callback's blocks that its report counts as dropped. */
  lemma {:induction false} StreamIsPreserved<C>(cb: Callback<C>, block: nat, capacity: nat, env: C,
                                                calls: seq<HostCall>)
    requires 0 < block && 2 * block <= capacity
    ensures Streams(Run(cb, Fresh(block, capacity, env), calls), Received(cb, Fresh(block, capacity, env), calls),
                    RenderBlocks(cb, env, Silence(block), AllAccepted(cb, Fresh(block, capacity, env), calls)))
    decreases |calls|
  {
    if calls != [] {
      hide Processed;
      var last, start := |calls| - 1, Fresh(block, capacity, env);
      var run, accepted := Run(cb, start, calls[..last]), AllAccepted(cb, start, calls[..last]);
      StreamIsPreserved(cb, block, capacity, env, calls[..last]);
      var all := RenderBlocks(cb, env, Silence(block), accepted);
      ExtendStreams(cb, run, Received(cb, start, calls[..last]), all, calls[last]);
      var o := Processed(cb, run.adapter, calls[last].inputs, calls[last].wanted);
      RenderAppend(cb, env, Silence(block), accepted, Clip(calls[last].inputs, o.report.acceptedInput));
    }
  }

  // Fixed quantum and shutdown

  /** When only the first report announces silence, that silence comes in front of the whole stream. */
  lemma {:induction false} WovenLead(reports: seq<Report>, block: nat, stream: seq<Sample>)
    requires reports != [] && NoLatencyAdded(reports[1..]) && NothingDropped(reports)
    requires |stream| == RenderedLength(reports, block)
    ensures Woven(reports, block, stream) == Silence(reports[0].latencyAdded) + stream
    decreases |reports|
  {
    var last := |reports| - 1;
    var cut := RenderedLength(reports[..last], block);
    var lead := Silence(reports[0].latencyAdded);
    if last == 0 {
      assert Cut(stream, 0) == stream;
      assert stream[..0] + lead + stream[0..] == lead + stream;
    } else {
      assert reports[1..][last - 1] == reports[last];
      assert Silence(reports[last].latencyAdded) == [];
      assert reports[..last][1..] == reports[1..][..last - 1];
      hide Silence;
      WovenLead(reports[..last], block, stream[..cut]);
      assert Cut(stream[cut..], 0) == stream[cut..];
      assert lead + stream[..cut] + [] + stream[cut..] == lead + stream;
    }
  }

  /** At a fixed quantum the host receives the primed silence and then the rendering of all it sent. */
  lemma FixedQuantumStream<C>(cb: Callback<C>, block: nat, capacity: nat, h: nat, env: C, calls: seq<HostCall>)
    requires 0 < block && 2 * block <= capacity && 0 < h && Uniform(calls, h) && calls != []
    requires h + Peak(h, block) <= capacity
    ensures var run := Run(cb, Fresh(block, capacity, env), calls);
            var all := RenderBlocks(cb, env, Silence(block), AllInputs(calls));
            && run.delivered + run.adapter.output == Silence(Peak(h, block)) + all.rendered
            && run.adapter.input == all.rest && run.adapter.env == all.env && run.adapter.scratch == all.scratch
  {
    hide RenderBlocks, Silence, Processed;
    var run := Run(cb, Fresh(block, capacity, env), calls);
    FixedQuantumIsSafe(cb, block, capacity, h, env, calls);
    StreamIsPreserved(cb, block, capacity, env, calls);
    ReceivedAll(cb, Fresh(block, capacity, env), calls);
    AcceptedAll(cb, Fresh(block, capacity, env), calls);
    FreshRun(cb, block, capacity, h, env, calls);
    ReserveIsKept(cb, block, capacity, h, Peak(h, block), env, calls);
    var reports := Run(cb, Started(block, capacity, h, Peak(h, block), env), calls).reports;
    assert run.reports[1..] == reports[1..];
    WovenLead(run.reports, block, RenderBlocks(cb, env, Silence(block), AllInputs(calls)).rendered);
  }

  lemma PadsToBlock(n: nat, d: nat)
    requires d > 0
    ensures n % d != 0 ==> (n + (d - n % d)) % d == 0
  {
    if n % d != 0 {
      MulAdd(n / d, 1, d);
      ModUnique(n + (d - n % d), d, n / d + 1, 0);
    }
  }

  /** The silence that `flush` appends to the remainder. */
  function Padding(input: seq<Sample>, block: nat): (padding: seq<Sample>)
    requires block > 0
    ensures |padding| < block && (|input| + |padding|) % block == 0
    ensures forall k :: 0 <= k < |padding| ==> padding[k] == SILENCE
  {
    PadsToBlock(|input|, block);
    Silence(if |input| % block == 0 then 0 else block - |input| % block)
  }

  /** A padded remainder is one last block, or no block at all. */
  lemma RenderRemainder<C>(cb: Callback<C>, a: Adapter<C>)
    requires a.Ready()
    ensures var pad := Silence(if a.input == [] then 0 else a.Block() - |a.input|);
            var last := RenderBlocks(cb, a.env, a.scratch, a.input + pad);
            && |last.rendered| >= |a.input|
            && Flushed(cb, a) == a.output + last.rendered[..Min(|a.input|, a.capacity - |a.output|)]
            && AfterFlush(cb, a).env == last.env && AfterFlush(cb, a).scratch == last.scratch && last.rest == []
  {
    var d := a.Block();
    if a.input != [] {
      var block := Padded(a);
      var slice := cb.Render(a.env, block, a.scratch);
      assert block[..d] == block && block[d..] == [];
      assert slice + [] == slice;
    }
  }

  lemma CutSecond(delivered: seq<Sample>, output: seq<Sample>, first: seq<Sample>, second: seq<Sample>, n: nat)
    requires n <= |second|
    ensures delivered + (output + second[..n]) == delivered + output + (first + second)[|first|..|first| + n]
  {
    assert (first + second)[|first|..|first| + n] == second[..n];
  }

  /** In every run, whatever the quanta, the drops and the underruns, up to and including `flush`: the
      callback has seen the blocks of the whole accepted input, the last one padded with silence. The host
      has received the rendering of the complete blocks with the announced silence, and then what belongs
      to the remainder, as far as the output FIFO had room for it. */
  lemma FlushedRun<C>(cb: Callback<C>, block: nat, capacity: nat, env: C, calls: seq<HostCall>)
    requires 0 < block && 2 * block <= capacity
    ensures var run := Run(cb, Fresh(block, capacity, env), calls);
            var input := AllAccepted(cb, Fresh(block, capacity, env), calls);
            var seen := RenderBlocks(cb, env, Silence(block), input);
            var all := RenderBlocks(cb, env, Silence(block), input + Padding(input, block));
            var cut := Min(|input| - |seen.rendered|, capacity - |run.adapter.output|);
            && |seen.rendered| <= |input| <= |all.rendered| && seen.rendered <= all.rendered && all.rest == []
            && Received(cb, Fresh(block, capacity, env), calls) + Flushed(cb, run.adapter)
               == Woven(run.reports, block, seen.rendered) + all.rendered[|seen.rendered|..|seen.rendered| + cut]
            && AfterFlush(cb, run.adapter).env == all.env && AfterFlush(cb, run.adapter).scratch == all.scratch
  {
    hide RenderBlocks, Silence, Processed, Flushed, AfterFlush, Run, Woven, AllAccepted, Received;
    var run := Run(cb, Fresh(block, capacity, env), calls);
    var input := AllAccepted(cb, Fresh(block, capacity, env), calls);
    StreamIsPreserved(cb, block, capacity, env, calls);
    RestLength(cb, env, Silence(block), input);
    RenderAppend(cb, env, Silence(block), input, Padding(input, block));
    RenderRemainder(cb, run.adapter);
    var seen := RenderBlocks(cb, env, Silence(block), input);
    var last := RenderBlocks(cb, seen.env, seen.scratch, seen.rest + Padding(input, block));
    CutSecond(Received(cb, Fresh(block, capacity, env), calls), run.adapter.output, seen.rendered, last.rendered,
              Min(|seen.rest|, capacity - |run.adapter.output|));
  }

  /** With as many inputs as outputs at every callback there is always room for the whole remainder. */
  lemma FlushedBalanced<C>(cb: Callback<C>, block: nat, capacity: nat, env: C, maximum: nat, calls: seq<HostCall>)
    requires 0 < block && 2 * block <= capacity && maximum + 2 * block - 2 <= capacity
    requires Balanced(calls, maximum)
    ensures var run, input := Run(cb, Fresh(block, capacity, env), calls), AllInputs(calls);
            var seen := RenderBlocks(cb, env, Silence(block), input);
            var all := RenderBlocks(cb, env, Silence(block), input + Padding(input, block));
            && |seen.rendered| <= |input| <= |all.rendered| && all.rest == []
            && run.delivered + Flushed(cb, run.adapter)
               == Woven(run.reports, block, seen.rendered) + all.rendered[|seen.rendered|..|input|]
            && AfterFlush(cb, run.adapter).env == all.env
  {
    hide RenderBlocks, Silence, Processed, Flushed, AfterFlush, Run, Woven, AllInputs;
    hide NoUnderrun, NothingDropped, Phase, Received, AllAccepted;
    QuantumChangesAreSafe(cb, block, capacity, env, maximum, calls);
    StreamIsPreserved(cb, block, capacity, env, calls);
    ReceivedAll(cb, Fresh(block, capacity, env), calls);
    AcceptedAll(cb, Fresh(block, capacity, env), calls);
    FlushedRun(cb, block, capacity, env, calls);
  }

  lemma Rejoin(lead: seq<Sample>, first: seq<Sample>, whole: seq<Sample>, n: nat)
    requires first <= whole && |first| <= n <= |whole|
    ensures lead + first + whole[|first|..n] == lead + whole[..n]
  {
  }

  /** At a fixed quantum all the silence comes first, and then the rendering of the blocks of the whole
      input, cut to the length of the input. */
  lemma FlushedStream<C>(cb: Callback<C>, block: nat, capacity: nat, h: nat, env: C, calls: seq<HostCall>)
    requires 0 < block && 2 * block <= capacity && 0 < h && Uniform(calls, h) && calls != []
    requires h + Peak(h, block) <= capacity
    ensures var run, input := Run(cb, Fresh(block, capacity, env), calls), AllInputs(calls);
            var all := RenderBlocks(cb, env, Silence(block), input + Padding(input, block));
            && |all.rendered| >= |input| && all.rest == []
            && run.delivered + Flushed(cb, run.adapter) == Silence(Peak(h, block)) + all.rendered[..|input|]
            && AfterFlush(cb, run.adapter).env == all.env
  {
    hide RenderBlocks, Silence, Processed, Flushed, AfterFlush, Run, Woven, AllInputs, Received, AllAccepted;
    hide NoUnderrun, NothingDropped;
    var input := AllInputs(calls);
    FixedQuantumIsSafe(cb, block, capacity, h, env, calls);
    StreamIsPreserved(cb, block, capacity, env, calls);
    ReceivedAll(cb, Fresh(block, capacity, env), calls);
    AcceptedAll(cb, Fresh(block, capacity, env), calls);
    FlushedRun(cb, block, capacity, env, calls);
    FixedQuantumStream(cb, block, capacity, h, env, calls);
    var all := RenderBlocks(cb, env, Silence(block), input + Padding(input, block));
    Rejoin(Silence(Peak(h, block)), RenderBlocks(cb, env, Silence(block), input).rendered, all.rendered, |input|);
  }

  /** The callback copies its block. */
  ghost predicate Copies<C(!new)>(cb: Callback<C>) {
    forall env: C, block, before :: |block| == |before| ==> cb.Render(env, block, before) == block
  }

  lemma Split(a: seq<Sample>, b: seq<Sample>, c: seq<Sample>, whole: seq<Sample>)
    requires a <= whole && b + c == whole[|a|..]
    ensures a + b + c == whole
  {
  }

  lemma {:induction false} CopyRenders<C(!new)>(cb: Callback<C>, env: C, scratch: seq<Sample>, input: seq<Sample>)
    requires |scratch| > 0 && Copies(cb)
    ensures var r := RenderBlocks(cb, env, scratch, input); r.rendered + r.rest == input
    decreases |input|
  {
    var d := |scratch|;
    if |input| >= d {
      var slice, next := cb.Render(env, input[..d], scratch), cb.next(env, input[..d], scratch);
      assert slice == input[..d];
      CopyRenders(cb, next, slice, input[d..]);
      var tail := RenderBlocks(cb, next, slice, input[d..]);
      assert RenderBlocks(cb, env, scratch, input) == tail.(rendered := slice + tail.rendered);
      hide RenderBlocks, Copies;
      Split(slice, tail.rendered, tail.rest, input);
    }
  }

  lemma CopyFlush<C(!new)>(cb: Callback<C>, a: Adapter<C>)
    requires a.Ready() && |a.input| + |a.output| <= a.capacity && Copies(cb)
    ensures Flushed(cb, a) == a.output + a.input
  {
    if a.input != [] {
      assert Padded(a)[..|a.input|] == a.input;
    }
  }

  /** With the copying callback, all the host receives up to and including `flush` is the primed
      silence followed by everything it sent. */
  lemma CopyIsDelay<C(!new)>(cb: Callback<C>, block: nat, capacity: nat, h: nat, env: C, calls: seq<HostCall>)
    requires 0 < block && 2 * block <= capacity && 0 < h && Uniform(calls, h) && calls != []
    requires h + Peak(h, block) <= capacity && Copies(cb)
    ensures var run := Run(cb, Fresh(block, capacity, env), calls);
            run.delivered + Flushed(cb, run.adapter) == Silence(Peak(h, block)) + AllInputs(calls)
  {
    hide RenderBlocks, Silence, Processed, Flushed;
    var run := Run(cb, Fresh(block, capacity, env), calls);
    FixedQuantumIsSafe(cb, block, capacity, h, env, calls);
    FixedQuantumStream(cb, block, capacity, h, env, calls);
    CopyRenders(cb, env, Silence(block), AllInputs(calls));
    CopyFlush(cb, run.adapter);
    var all := RenderBlocks(cb, env, Silence(block), AllInputs(calls));
    CarryOver(run.delivered, run.adapter.output, Silence(Peak(h, block)), all.rendered, all.rest);
    hide Run, Copies, AllInputs;
  }

  lemma CarryOver(delivered: seq<Sample>, output: seq<Sample>, lead: seq<Sample>, rendered: seq<Sample>,
                  rest: seq<Sample>)
    requires delivered + output == lead + rendered
    ensures delivered + (output + rest) == lead + (rendered + rest)
  {
    assert delivered + (output + rest) == delivered + output + rest;
    assert lead + (rendered + rest) == lead + rendered + rest;
  }
}
