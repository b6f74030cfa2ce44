/** The delay of the stream under changing quanta: when the latency field names it, how large it gets,
    and how much capacity it takes. */
module AdapterDelays {
  import opened Words
  import opened Wrappers
  import opened Samples
  import opened NumberTheory
  import opened AdapterModel
  import opened AdapterRuns

  // The latency the adapter names

  lemma LatencyStep<C>(cb: Callback<C>, a: Adapter<C>, inputs: seq<Sample>, wanted: nat)
    requires a.Ready()
    ensures Processed(cb, a, inputs, wanted).adapter.latency ==
            if NeedsPriming(a, wanted) then Max(a.latency, Reserve(a, wanted)) else a.latency
  {
    GcdRange(wanted, a.Block());
  }

  /** The latency field is the delay, as long as that is shorter than a block. */
  ghost predicate Capped<C>(a: Adapter<C>) {
    a.latency == Min(|a.input| + |a.output|, a.Block() - 1)
  }

  lemma CappedStep<C>(cb: Callback<C>, a: Adapter<C>, inputs: seq<Sample>)
    requires Phase(a) && |inputs| + 2 * a.Block() - 2 <= a.capacity && Capped(a)
    ensures Capped(Processed(cb, a, inputs, |inputs|).adapter)
  {
    hide Processed, Divides, Lossless;
    PhaseStep(cb, a, inputs);
    StepLengths(cb, a, inputs, |inputs|);
    GcdRange(|inputs|, a.Block());
    hide Gcd;
    LatencyStep(cb, a, inputs, |inputs|);
    QuantumStep(cb, a, inputs, |inputs|);
  }

  lemma {:induction false} RunIsCapped<C>(cb: Callback<C>, start: Adapter<C>, maximum: nat, calls: seq<HostCall>)
    requires start.Ready() && maximum + 2 * start.Block() - 2 <= start.capacity
    requires Safe(History(start, [], [])) && Capped(start) && Balanced(calls, maximum)
    ensures Capped(Run(cb, start, calls).adapter)
    decreases |calls|
  {
    hide Capped, Safe, Processed, Phase;
    if calls != [] {
      var last := |calls| - 1;
      RunIsSafe(cb, start, maximum, calls[..last]);
      SafeIsPhase(Run(cb, start, calls[..last]));
      RunIsCapped(cb, start, maximum, calls[..last]);
      CappedStep(cb, Run(cb, start, calls[..last]).adapter, calls[last].inputs);
    }
  }

  /** `latency_samples` names the delay of the stream as long as that is shorter than a block; from
      then on it stays at one block minus one sample. */
  lemma LatencyFieldIsCapped<C>(cb: Callback<C>, block: nat, capacity: nat, env: C,
                                maximum: nat, calls: seq<HostCall>)
    requires 0 < block && 2 * block <= capacity && maximum + 2 * block - 2 <= capacity
    requires Balanced(calls, maximum)
    ensures var run := Run(cb, Fresh(block, capacity, env), calls);
            run.adapter.latency == Min(Totals(run.reports).latencyAdded, block - 1)
  {
    hide Safe, Phase, Run, Totals, Balanced, NoUnderrun, NothingDropped;
    QuantumChangesAreSafe(cb, block, capacity, env, maximum, calls);
    FreshIsSafe(block, capacity, env);
    RunIsCapped(cb, Fresh(block, capacity, env), maximum, calls);
  }

  // When the field is exact

  /** The quantum that the callbacks have negotiated. */
  function LastQuantum(calls: seq<HostCall>): Option<nat> {
    if calls == [] then None
    else
      var wanted := calls[|calls| - 1].wanted;
      if wanted != 0 then Some(wanted) else LastQuantum(calls[..|calls| - 1])
  }

  predicate Changes(quantum: Option<nat>, wanted: nat) {
    wanted != 0 && quantum != None && quantum != Some(wanted)
  }

  /** The host changes its quantum only when what it has sent fills whole blocks. */
  predicate ChangesAligned(calls: seq<HostCall>, block: nat)
    requires block > 0
  {
    calls == [] ||
    (var before := calls[..|calls| - 1];
     && ChangesAligned(before, block)
     && (Changes(LastQuantum(before), calls[|calls| - 1].wanted) ==> |AllInputs(before)| % block == 0))
  }

  lemma {:induction false} QuantumIsLast<C>(cb: Callback<C>, block: nat, capacity: nat, env: C, calls: seq<HostCall>)
    requires 0 < block && 2 * block <= capacity
    ensures Run(cb, Fresh(block, capacity, env), calls).adapter.quantum == LastQuantum(calls)
    decreases |calls|
  {
    hide Processed;
    if calls != [] {
      var last := |calls| - 1;
      QuantumIsLast(cb, block, capacity, env, calls[..last]);
      var run := Run(cb, Fresh(block, capacity, env), calls[..last]);
      QuantumStep(cb, run.adapter, calls[last].inputs, calls[last].wanted);
    }
  }

  lemma RemainderStep<C>(cb: Callback<C>, a: Adapter<C>, call: HostCall, sent: nat)
    requires a.Ready() && |a.input| == sent % a.Block()
    requires Lossless(Processed(cb, a, call.inputs, call.wanted).report)
    ensures |Processed(cb, a, call.inputs, call.wanted).adapter.input| == (sent + |call.inputs|) % a.Block()
  {
    hide Processed, Pending;
    StepLengths(cb, a, call.inputs, call.wanted);
    AddMod(sent, |call.inputs|, a.Block());
  }

  /** As long as nothing is dropped the input FIFO holds what the blocks leave over. */
  lemma {:induction false} InputIsRemainder<C>(cb: Callback<C>, block: nat, capacity: nat, env: C, calls: seq<HostCall>)
    requires 0 < block && 2 * block <= capacity
    requires NothingDropped(Run(cb, Fresh(block, capacity, env), calls).reports)
    ensures |Run(cb, Fresh(block, capacity, env), calls).adapter.input| == |AllInputs(calls)| % block
    decreases |calls|
  {
    hide Processed;
    if calls == [] {
      ModUnique(0, block, 0, 0);
    } else {
      var last := |calls| - 1;
      var run := Run(cb, Fresh(block, capacity, env), calls[..last]);
      ReportsAppend(run.reports, Processed(cb, run.adapter, calls[last].inputs, calls[last].wanted).report);
      InputIsRemainder(cb, block, capacity, env, calls[..last]);
      RemainderStep(cb, run.adapter, calls[last], |AllInputs(calls[..last])|);
      hide Lossless, NothingDropped;
    }
  }

  ghost predicate Short<C>(a: Adapter<C>) {
    |a.input| + |a.output| < a.Block()
  }

  /** The delay stays shorter than a block exactly until a change of quantum meets queued input. */
  lemma ShortStep<C>(cb: Callback<C>, a: Adapter<C>, inputs: seq<Sample>)
    requires Phase(a) && |inputs| + 2 * a.Block() - 2 <= a.capacity
    ensures Short(Processed(cb, a, inputs, |inputs|).adapter)
        <==> Short(a) && (Changes(a.quantum, |inputs|) ==> a.input == [])
  {
    hide Processed, Divides, Lossless;
    PhaseStep(cb, a, inputs);
    StepLengths(cb, a, inputs, |inputs|);
    GcdRange(|inputs|, a.Block());
    hide Gcd;
    QuantumStep(cb, a, inputs, |inputs|);
  }

  lemma {:induction false} ShortIffAligned<C>(cb: Callback<C>, block: nat, capacity: nat, env: C,
                                              maximum: nat, calls: seq<HostCall>)
    requires 0 < block && 2 * block <= capacity && maximum + 2 * block - 2 <= capacity
    requires Balanced(calls, maximum)
    ensures Short(Run(cb, Fresh(block, capacity, env), calls).adapter) <==> ChangesAligned(calls, block)
    decreases |calls|
  {
    hide Processed, Phase;
    if calls != [] {
      var last := |calls| - 1;
      var run := Run(cb, Fresh(block, capacity, env), calls[..last]);
      ShortIffAligned(cb, block, capacity, env, maximum, calls[..last]);
      QuantumChangesAreSafe(cb, block, capacity, env, maximum, calls[..last]);
      InputIsRemainder(cb, block, capacity, env, calls[..last]);
      QuantumIsLast(cb, block, capacity, env, calls[..last]);
      ShortStep(cb, run.adapter, calls[last].inputs);
      hide Short;
    }
  }

  /** `latency_samples` is the delay if and only if the host has changed its quantum only when what it
      had sent filled whole blocks. */
  lemma LatencyFieldIsExact<C>(cb: Callback<C>, block: nat, capacity: nat, env: C,
                               maximum: nat, calls: seq<HostCall>)
    requires 0 < block && 2 * block <= capacity && maximum + 2 * block - 2 <= capacity
    requires Balanced(calls, maximum)
    ensures var run := Run(cb, Fresh(block, capacity, env), calls);
            run.adapter.latency == Totals(run.reports).latencyAdded <==> ChangesAligned(calls, block)
  {
    hide Phase;
    LatencyFieldIsCapped(cb, block, capacity, env, maximum, calls);
    QuantumChangesAreSafe(cb, block, capacity, env, maximum, calls);
    ShortIffAligned(cb, block, capacity, env, maximum, calls);
  }

  // The largest delay

  lemma GcdOfOne(d: nat)
    requires d > 0
    ensures Gcd(1, d) == 1
  {
    GcdDivides(1, d);
    MultipleAtLeast(Gcd(1, d), 1);
  }

  /** One block minus one sample, sample by sample, and then a callback of two. */
  function SlowThenFast(block: nat): (calls: seq<HostCall>)
    requires block > 0
    ensures |calls| == block && Balanced(calls, 2)
  {
    SilentCalls(1, block - 1) + [HostCall(Silence(2), 2)]
  }

  lemma SlowStart<C>(cb: Callback<C>, block: nat, capacity: nat, env: C)
    requires 1 < block && 2 * block <= capacity
    ensures var a := Run(cb, Fresh(block, capacity, env), SilentCalls(1, block - 1)).adapter;
            a.quantum == Some(1) && |a.input| == block - 1 && a.output == []
  {
    hide Run;
    var calls := SilentCalls(1, block - 1);
    GcdOfOne(block);
    FixedQuantumIsSafe(cb, block, capacity, 1, env, calls);
    ResidueIsMod(block - 1, 1, block);
    ModUnique(block - 1, block, 0, block - 1);
    QuantumIsLast(cb, block, capacity, env, calls);
    assert calls[block - 2] == HostCall(Silence(1), 1);
  }

  lemma FastStep<C>(cb: Callback<C>, a: Adapter<C>, inputs: seq<Sample>)
    requires Phase(a) && |inputs| + 2 * a.Block() - 2 <= a.capacity
    requires a.quantum == Some(1) && |inputs| == 2 && |a.input| == a.Block() - 1 && a.output == []
    ensures var b := Processed(cb, a, inputs, 2).adapter; |b.input| + |b.output| == 2 * a.Block() - 2
  {
    hide Processed;
    PhaseStep(cb, a, inputs);
    StepLengths(cb, a, inputs, 2);
    hide Phase, Lossless, Gcd;
  }

  lemma SlowThenFastSum<C>(cb: Callback<C>, block: nat, capacity: nat, env: C)
    requires 0 < block && 2 * block <= capacity
    ensures var a := Run(cb, Fresh(block, capacity, env), SlowThenFast(block)).adapter;
            |a.input| + |a.output| >= 2 * block - 2
  {
    hide Processed, Phase;
    if block > 1 {
      var calls, slow := SlowThenFast(block), SilentCalls(1, block - 1);
      assert calls[..block - 1] == slow && calls[block - 1] == HostCall(Silence(2), 2);
      var run := Run(cb, Fresh(block, capacity, env), slow);
      assert Run(cb, Fresh(block, capacity, env), calls).adapter == Processed(cb, run.adapter, Silence(2), 2).adapter;
      hide Run;
      SlowStart(cb, block, capacity, env);
      QuantumChangesAreSafe(cb, block, capacity, env, 2, slow);
      FastStep(cb, run.adapter, Silence(2));
    }
  }

  /** The bound of two blocks minus two samples is reached for every block size, and then the latency
      field says one block minus one sample. */
  lemma DelayBoundIsReached<C>(cb: Callback<C>, block: nat, capacity: nat, env: C)
    requires 0 < block && 2 * block <= capacity
    ensures var run := Run(cb, Fresh(block, capacity, env), SlowThenFast(block));
            Totals(run.reports).latencyAdded == 2 * block - 2 && run.adapter.latency == block - 1
  {
    hide Phase, Run, Totals, SlowThenFast;
    QuantumChangesAreSafe(cb, block, capacity, env, 2, SlowThenFast(block));
    LatencyFieldIsCapped(cb, block, capacity, env, 2, SlowThenFast(block));
    SlowThenFastSum(cb, block, capacity, env);
  }

  // The exact capacity for changing quanta

  lemma {:induction false} DelayGrows<C>(cb: Callback<C>, start: Adapter<C>, calls: seq<HostCall>, k: nat)
    requires start.Ready() && k <= |calls|
    ensures Totals(Run(cb, start, calls[..k]).reports).latencyAdded
         <= Totals(Run(cb, start, calls).reports).latencyAdded
    decreases |calls|
  {
    hide Processed;
    if k == |calls| {
      assert calls[..k] == calls;
    } else {
      var last := |calls| - 1;
      assert calls[..last][..k] == calls[..k];
      DelayGrows(cb, start, calls[..last], k);
      var run := Run(cb, start, calls[..last]);
      var r := Processed(cb, run.adapter, calls[last].inputs, calls[last].wanted).report;
      assert (run.reports + [r])[..last] == run.reports;
    }
  }

  lemma {:induction false} InputsAppend(a: seq<HostCall>, b: seq<HostCall>)
    ensures |AllInputs(a + b)| == |AllInputs(a)| + |AllInputs(b)|
    decreases |b|
  {
    if b == [] {
      assert a + b == a;
    } else {
      assert (a + b)[..|a + b| - 1] == a + b[..|b| - 1];
      InputsAppend(a, b[..|b| - 1]);
    }
  }

  lemma {:induction false} SilentInputs(count: nat)
    ensures |AllInputs(SilentCalls(1, count))| == count
  {
    if count > 0 {
      assert SilentCalls(1, count)[..count - 1] == SilentCalls(1, count - 1);
      SilentInputs(count - 1);
    }
  }

  /** The largest delay, and then single samples. */
  function Loaded(block: nat, count: nat): (calls: seq<HostCall>)
    requires block > 0
    ensures Balanced(calls, 2)
  {
    SlowThenFast(block) + SilentCalls(1, count)
  }

  lemma LoadedInputs(block: nat, count: nat)
    requires block > 0
    ensures |AllInputs(Loaded(block, count))| == block + 1 + count
  {
    hide SilentCalls;
    var fast := [HostCall(Silence(2), 2)];
    InputsAppend(SlowThenFast(block), SilentCalls(1, count));
    InputsAppend(SilentCalls(1, block - 1), fast);
    SilentInputs(block - 1);
    SilentInputs(count);
    assert fast[..0] == [];
  }

  lemma LoadedDelay<C>(cb: Callback<C>, block: nat, capacity: nat, env: C, count: nat)
    requires 0 < block && 2 * block <= capacity
    ensures Totals(Run(cb, Fresh(block, capacity, env), Loaded(block, count)).reports).latencyAdded >= 2 * block - 2
  {
    hide Run, Totals, SlowThenFast;
    DelayBoundIsReached(cb, block, capacity, env);
    var calls := Loaded(block, count);
    assert |calls| >= block && calls[..block] == SlowThenFast(block);
    DelayGrows(cb, Fresh(block, capacity, env), calls, block);
  }

  lemma LoadedState<C>(cb: Callback<C>, block: nat, capacity: nat, env: C, count: nat)
    requires 0 < block && 2 * block <= capacity
    ensures var a := Run(cb, Fresh(block, capacity, env), Loaded(block, count)).adapter;
            && |a.input| == (block + 1 + count) % block
            && |a.input| + |a.output| == 2 * block - 2
  {
    hide Run, Phase, Loaded, AllInputs, Totals, Balanced;
    var calls := Loaded(block, count);
    QuantumChangesAreSafe(cb, block, capacity, env, 2, calls);
    InputIsRemainder(cb, block, capacity, env, calls);
    LoadedInputs(block, count);
    LoadedDelay(cb, block, capacity, env, count);
  }

  lemma Completes(sent: nat, h: nat, d: nat)
    requires d > 0
    ensures ((sent + (-(h + sent)) % d) % d + h) % d == 0
  {
    var count := (-(h + sent)) % d;
    AddMod(sent + count, h, d);
    AddMod(-(h + sent), h + sent, d);
    ModUnique(0, d, 0, 0);
  }

  lemma OverfullStep<C>(cb: Callback<C>, a: Adapter<C>, inputs: seq<Sample>)
    requires a.Ready() && (|a.input| + |inputs|) % a.Block() == 0
    requires a.capacity < |a.input| + |a.output| + |inputs|
    ensures !Lossless(Processed(cb, a, inputs, |inputs|).report)
  {
    hide Processed, Inserted;
    StepLengths(cb, a, inputs, |inputs|);
  }

  /** A callback that completes a block on top of the largest delay needs room for both. */
  lemma LoadedOverflows<C>(cb: Callback<C>, block: nat, capacity: nat, env: C, maximum: nat)
    returns (calls: seq<HostCall>)
    requires 0 < block && 2 * block <= capacity < maximum + 2 * block - 2
    ensures Balanced(calls, maximum) && !NothingDropped(Run(cb, Fresh(block, capacity, env), calls).reports)
  {
    hide Processed, Phase;
    var count := (-(maximum + (block + 1))) % block;
    var before, inputs := Loaded(block, count), Silence(maximum);
    calls := before + [HostCall(inputs, maximum)];
    assert calls[..|before|] == before;
    var run := Run(cb, Fresh(block, capacity, env), before);
    LoadedState(cb, block, capacity, env, count);
    Completes(block + 1, maximum, block);
    OverfullStep(cb, run.adapter, inputs);
    ReportsAppend(run.reports, Processed(cb, run.adapter, inputs, maximum).report);
    hide Lossless, NothingDropped, Loaded;
  }

  /** No run with quanta up to `maximum` drops a sample, whatever the changes, if and only if the
      capacity covers the largest callback and the largest delay. */
  lemma BalancedCapacityThreshold<C>(cb: Callback<C>, block: nat, capacity: nat, env: C, maximum: nat)
    requires 0 < block && 2 * block <= capacity
    ensures (forall calls :: Balanced(calls, maximum) ==>
               NothingDropped(Run(cb, Fresh(block, capacity, env), calls).reports))
        <==> capacity >= maximum + 2 * block - 2
  {
    if capacity >= maximum + 2 * block - 2 {
      forall calls | Balanced(calls, maximum)
        ensures NothingDropped(Run(cb, Fresh(block, capacity, env), calls).reports)
      {
        QuantumChangesAreSafe(cb, block, capacity, env, maximum, calls);
      }
    } else {
      var calls := LoadedOverflows(cb, block, capacity, env, maximum);
    }
  }

  /** The two blocks that the constructor asks for are enough at a fixed quantum exactly when the host
      block exceeds the DSP block by no more than their gcd. */
  lemma TwoBlocksSuffice<C>(cb: Callback<C>, block: nat, h: nat, env: C)
    requires 0 < block && 0 < h
    ensures (forall calls :: Uniform(calls, h) ==>
               NothingDropped(Run(cb, Fresh(block, 2 * block, env), calls).reports))
        <==> h <= block + Gcd(h, block)
  {
    CapacityThreshold(cb, block, 2 * block, h, env);
  }
}
