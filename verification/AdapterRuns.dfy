/** Whole runs of the adapter: the minimal reserve, the capacity threshold, quantum changes and the
    sample ledger. */
module AdapterRuns {
  import opened Words
  import opened Wrappers
  import opened Samples
  import opened NumberTheory
  import opened AdapterModel

  datatype HostCall = HostCall(inputs: seq<Sample>, wanted: nat)

  /** Everything the host observed during a run, and the adapter it ends with. */
  datatype History<C> = History(adapter: Adapter<C>, delivered: seq<Sample>, reports: seq<Report>)

  function Extend<C>(cb: Callback<C>, h: History<C>, call: HostCall): History<C>
    requires h.adapter.Ready()
  {
    var o := Processed(cb, h.adapter, call.inputs, call.wanted);
    History(o.adapter, h.delivered + o.outputs, h.reports + [o.report])
  }

  function Run<C>(cb: Callback<C>, start: Adapter<C>, calls: seq<HostCall>): (h: History<C>)
    requires start.Ready()
    ensures h.adapter.Ready()
    ensures h.adapter.Block() == start.Block() && h.adapter.capacity == start.capacity
    ensures |h.reports| == |calls|
    decreases |calls|
  {
    if calls == [] then History(start, [], [])
    else Extend(cb, Run(cb, start, calls[..|calls| - 1]), calls[|calls| - 1])
  }

  datatype Ledger = Ledger(acceptedInput: nat, droppedInput: nat, droppedOutput: nat, underrun: nat, latencyAdded: nat)

  function Totals(reports: seq<Report>): Ledger {
    if reports == [] then Ledger(0, 0, 0, 0, 0)
    else
      var t, r := Totals(reports[..|reports| - 1]), reports[|reports| - 1];
      Ledger(t.acceptedInput + r.acceptedInput, t.droppedInput + r.droppedInput,
             t.droppedOutput + r.droppedOutput, t.underrun + r.underrun, t.latencyAdded + r.latencyAdded)
  }

  function AllInputs(calls: seq<HostCall>): seq<Sample> {
    if calls == [] then [] else AllInputs(calls[..|calls| - 1]) + calls[|calls| - 1].inputs
  }

  // The effect of one callback on the FIFO lengths

  lemma {:induction false} RestLength<C>(cb: Callback<C>, env: C, scratch: seq<Sample>, input: seq<Sample>)
    requires |scratch| > 0
    ensures |RenderBlocks(cb, env, scratch, input).rest| == |input| % |scratch|
    decreases |input|
  {
    var d := |scratch|;
    if |input| < d {
      ModUnique(|input|, d, 0, |input|);
    } else {
      RestLength(cb, cb.next(env, input[..d], scratch), cb.Render(env, input[..d], scratch), input[d..]);
      ModShift(|input| - d, d, 1);
    }
  }

  /** Samples pending for the host after draining, before the capacity cuts them. */
  function Pending<C>(a: Adapter<C>, accepted: nat, wanted: nat): int
    requires a.Ready()
  {
    var i := |a.input| + accepted;
    |a.output| + Inserted(a, wanted) + i - i % a.Block()
  }

  lemma DrainedLengths<C>(cb: Callback<C>, a: Adapter<C>)
    requires a.Block() > 0
    ensures |Drained(cb, a).input| == |a.input| % a.Block()
    ensures |Drained(cb, a).output| == Min(|a.output| + |a.input| - |a.input| % a.Block(), a.capacity)
    ensures Drained(cb, a).capacity == a.capacity
  {
    RestLength(cb, a.env, a.scratch, a.input);
  }

  lemma PrimedLength<C>(a: Adapter<C>, hostQuantum: nat)
    requires a.Ready()
    ensures |Primed(a, hostQuantum).output| == |a.output| + Inserted(a, hostQuantum)
  {
  }

  lemma StepLengths<C>(cb: Callback<C>, a: Adapter<C>, inputs: seq<Sample>, wanted: nat)
    requires a.Ready()
    ensures var o := Processed(cb, a, inputs, wanted);
            var accepted := o.report.acceptedInput;
            var pending := Pending(a, accepted, wanted);
            && accepted == Min(|inputs|, a.capacity - |a.input|)
            && o.report.droppedInput == |inputs| - accepted
            && o.report.blocks == (|a.input| + accepted) / a.Block()
            && |o.adapter.input| == (|a.input| + accepted) % a.Block()
            && o.report.droppedOutput == Max(pending - a.capacity, 0)
            && o.report.underrun == Max(wanted - Min(pending, a.capacity), 0)
            && |o.adapter.output| == Max(Min(pending, a.capacity) - wanted, 0)
            && o.report.latencyAdded == Inserted(a, wanted)
  {
    hide RenderBlocks, Drained, Delivery, Silence, Clip, Gcd, Inserted, Reserve;
    DrainedLengths(cb, Filled(Primed(a, wanted), inputs));
    PrimedLength(a, wanted);
  }

  predicate Lossless(r: Report) {
    r.droppedInput == 0 && r.droppedOutput == 0
  }

  /** A callback with as many inputs as outputs keeps the sum of both FIFOs, up to priming, whenever
      the sum covers the next remainder and the capacity covers the peak. */
  lemma BalancedStep<C>(cb: Callback<C>, a: Adapter<C>, inputs: seq<Sample>)
    requires a.Ready()
    requires |a.input| + |inputs| <= a.capacity
    requires var sum := |a.input| + |a.output| + Inserted(a, |inputs|);
             (|a.input| + |inputs|) % a.Block() <= sum
             && sum + |inputs| - (|a.input| + |inputs|) % a.Block() <= a.capacity
    ensures var o := Processed(cb, a, inputs, |inputs|);
            && Lossless(o.report) && o.report.underrun == 0
            && |o.adapter.input| == (|a.input| + |inputs|) % a.Block()
            && |o.adapter.input| + |o.adapter.output| == |a.input| + |a.output| + Inserted(a, |inputs|)
  {
    hide Processed, Inserted;
    StepLengths(cb, a, inputs, |inputs|);
  }

  lemma QuantumStep<C>(cb: Callback<C>, a: Adapter<C>, inputs: seq<Sample>, wanted: nat)
    requires a.Ready()
    ensures var b := Processed(cb, a, inputs, wanted).adapter;
            && b.Ready() && b.Block() == a.Block()
            && b.quantum == if wanted == 0 then a.quantum else Some(wanted)
  {
  }

  // Fixed host quantum: the minimal reserve

  predicate Uniform(calls: seq<HostCall>, h: nat) {
    forall k :: 0 <= k < |calls| ==> |calls[k].inputs| == calls[k].wanted == h
  }

  predicate NoUnderrun(reports: seq<Report>) {
    forall k :: 0 <= k < |reports| ==> reports[k].underrun == 0
  }

  predicate NoLatencyAdded(reports: seq<Report>) {
    forall k :: 0 <= k < |reports| ==> reports[k].latencyAdded == 0
  }

  predicate NothingDropped(reports: seq<Report>) {
    forall k :: 0 <= k < |reports| ==> Lossless(reports[k])
  }

  /** The adapter that has been primed for quantum `h` with an arbitrary reserve. */
  function Started<C>(block: nat, capacity: nat, h: nat, reserve: nat, env: C): Adapter<C> {
    Fresh(block, capacity, env).(quantum := Some(h), latency := reserve, output := Silence(reserve))
  }

  function SilentCalls(h: nat, count: nat): (calls: seq<HostCall>)
    ensures |calls| == count && Uniform(calls, h)
  {
    seq(count, _ => HostCall(Silence(h), h))
  }

  lemma ReportsAppend(reports: seq<Report>, r: Report)
    ensures NoUnderrun(reports + [r]) <==> NoUnderrun(reports) && r.underrun == 0
    ensures NothingDropped(reports + [r]) <==> NothingDropped(reports) && Lossless(r)
    ensures NoLatencyAdded(reports + [r]) <==> NoLatencyAdded(reports) && r.latencyAdded == 0
  {
    var all := reports + [r];
    assert all[..|reports|] == reports && all[|reports|] == r;
    assert forall k :: 0 <= k < |reports| ==> all[k] == reports[k];
  }

  /** The number of samples left over after `k` callbacks of `h` samples in blocks of `d`. */
  function Residue(k: nat, h: nat, d: nat): (r: nat)
    requires d > 0
    ensures r < d
  {
    if k == 0 then 0 else (Residue(k - 1, h, d) + h) % d
  }

  lemma {:induction false} ResidueIsMod(k: nat, h: nat, d: nat)
    requires d > 0
    ensures Residue(k, h, d) == k * h % d
  {
    if k == 0 {
      ModUnique(0, d, 0, 0);
    } else {
      ResidueIsMod(k - 1, h, d);
      MulAdd(k - 1, 1, h);
      AddMod((k - 1) * h, h, d);
    }
  }

  lemma {:induction false} ResidueMultiple(k: nat, h: nat, d: nat)
    requires d > 0
    ensures Residue(k, h, d) <= d - Gcd(h, d)
    ensures Divides(Gcd(h, d), Residue(k, h, d))
  {
    GcdRange(h, d);
    if k == 0 {
      ModUnique(0, Gcd(h, d), 0, 0);
    } else {
      ResidueMultiple(k - 1, h, d);
      ResidueStep(h, d, Residue(k - 1, h, d));
    }
    MultipleResidue(h, d, Residue(k, h, d));
  }

  /** One callback at an unchanged quantum: it underruns exactly when both FIFOs together hold less
      than the next remainder. */
  lemma FixedStep<C>(cb: Callback<C>, a: Adapter<C>, inputs: seq<Sample>)
    requires a.Ready() && a.quantum == Some(|inputs|)
    requires |a.input| + |a.output| + |inputs| <= a.capacity
    ensures var o := Processed(cb, a, inputs, |inputs|);
            var next := (|a.input| + |inputs|) % a.Block();
            && Lossless(o.report) && o.report.latencyAdded == 0
            && o.adapter.quantum == a.quantum && o.adapter.latency == a.latency
            && |o.adapter.input| == next
            && (o.report.underrun == 0 <==> next <= |a.input| + |a.output|)
            && |o.adapter.input| + |o.adapter.output| == Max(next, |a.input| + |a.output|)
  {
    StepLengths(cb, a, inputs, |inputs|);
  }

  /** The largest remainder, and so the reserve the adapter primes for its first quantum. */
  function Peak(h: nat, block: nat): (peak: nat)
    requires block > 0
    ensures peak < block
  {
    GcdRange(h, block);
    block - Gcd(h, block)
  }

  /** As long as no callback underruns, the input FIFO holds the residue of what has been sent and
      both FIFOs together hold the reserve. */
  ghost predicate ReserveKept<C>(run: History<C>, h: nat, reserve: nat) {
    && 0 < run.adapter.Block()
    && run.adapter.quantum == Some(h)
    && run.adapter.latency == reserve
    && NothingDropped(run.reports) && NoLatencyAdded(run.reports)
    && |run.adapter.input| == Residue(|run.reports|, h, run.adapter.Block())
    && |run.adapter.input| + |run.adapter.output| <= Max(reserve, Peak(h, run.adapter.Block()))
    && (NoUnderrun(run.reports) ==> |run.adapter.input| + |run.adapter.output| == reserve)
  }

  lemma {:induction false} ReserveIsKept<C>(cb: Callback<C>, block: nat, capacity: nat, h: nat, reserve: nat, env: C,
                                            calls: seq<HostCall>)
    requires 0 < block && 2 * block <= capacity && 0 < h && Uniform(calls, h)
    requires h + Peak(h, block) <= capacity && h + reserve <= capacity
    ensures ReserveKept(Run(cb, Started(block, capacity, h, reserve, env), calls), h, reserve)
    decreases |calls|
  {
    if calls != [] {
      var last := |calls| - 1;
      ReserveIsKept(cb, block, capacity, h, reserve, env, calls[..last]);
      ReserveStep(cb, Run(cb, Started(block, capacity, h, reserve, env), calls[..last]), calls[last].inputs, h,
                  reserve);
    }
  }

  lemma ReserveStep<C>(cb: Callback<C>, run: History<C>, inputs: seq<Sample>, h: nat, reserve: nat)
    requires run.adapter.Ready() && ReserveKept(run, h, reserve) && |inputs| == h
    requires h + Peak(h, run.adapter.Block()) <= run.adapter.capacity && h + reserve <= run.adapter.capacity
    ensures var next := Extend(cb, run, HostCall(inputs, h));
            && ReserveKept(next, h, reserve)
            && (NoUnderrun(run.reports) && Residue(|next.reports|, h, run.adapter.Block()) <= reserve
                ==> NoUnderrun(next.reports))
  {
    hide Processed, Lossless, Divides;
    FixedStep(cb, run.adapter, inputs);
    QuantumStep(cb, run.adapter, inputs, h);
    ResidueMultiple(|run.reports| + 1, h, run.adapter.Block());
    ReportsAppend(run.reports, Processed(cb, run.adapter, inputs, h).report);
  }

  /** A reserve of `block - gcd` samples is enough for every run at quantum `h`. */
  lemma {:induction false} ReserveSuffices<C>(cb: Callback<C>, block: nat, capacity: nat, h: nat, reserve: nat, env: C,
                                              calls: seq<HostCall>)
    requires 0 < block && 2 * block <= capacity && 0 < h && Uniform(calls, h)
    requires h + Peak(h, block) <= capacity && h + reserve <= capacity
    requires reserve >= Peak(h, block)
    ensures NoUnderrun(Run(cb, Started(block, capacity, h, reserve, env), calls).reports)
    decreases |calls|
  {
    if calls != [] {
      var last := |calls| - 1;
      ReserveSuffices(cb, block, capacity, h, reserve, env, calls[..last]);
      ReserveIsKept(cb, block, capacity, h, reserve, env, calls[..last]);
      var run := Run(cb, Started(block, capacity, h, reserve, env), calls[..last]);
      ReserveStep(cb, run, calls[last].inputs, h, reserve);
      ResidueMultiple(|calls|, h, block);
    }
  }

  /** The reserve the adapter primes is the smallest that never underruns. */
  lemma MinimalReserve<C>(cb: Callback<C>, block: nat, capacity: nat, h: nat, reserve: nat, env: C)
    requires 0 < block && 2 * block <= capacity && 0 < h
    requires h + Peak(h, block) <= capacity && h + reserve <= capacity
    ensures (forall calls :: Uniform(calls, h) ==>
               NoUnderrun(Run(cb, Started(block, capacity, h, reserve, env), calls).reports))
        <==> reserve >= Peak(h, block)
  {
    if reserve >= Peak(h, block) {
      forall calls | Uniform(calls, h)
        ensures NoUnderrun(Run(cb, Started(block, capacity, h, reserve, env), calls).reports)
      {
        ReserveSuffices(cb, block, capacity, h, reserve, env, calls);
      }
    } else {
      GcdRange(h, block);
      var k := LargestResidueReached(h, block);
      ReserveIsKept(cb, block, capacity, h, reserve, env, SilentCalls(h, k));
      ResidueIsMod(k, h, block);
      assert !NoUnderrun(Run(cb, Started(block, capacity, h, reserve, env), SilentCalls(h, k)).reports);
    }
  }

  /** At the first callback the adapter primes exactly the largest remainder. */
  lemma FirstPriming<C>(cb: Callback<C>, block: nat, capacity: nat, h: nat, env: C, inputs: seq<Sample>)
    requires 0 < block && 2 * block <= capacity && 0 < h
    ensures var idle, started := Fresh(block, capacity, env), Started(block, capacity, h, Peak(h, block), env);
            && Primed(idle, h) == started && Inserted(idle, h) == Peak(h, block)
            && Processed(cb, idle, inputs, h) ==
                 var o := Processed(cb, started, inputs, h);
                 o.(report := o.report.(latencyAdded := Peak(h, block)))
  {
    var idle, started := Fresh(block, capacity, env), Started(block, capacity, h, Peak(h, block), env);
    assert Primed(idle, h) == started;
    assert Primed(started, h) == started;
  }

  /** The same run, whose first report announces `latency`. */
  function Announcing<C>(run: History<C>, latency: nat): History<C>
    requires run.reports != []
  {
    run.(reports := [run.reports[0].(latencyAdded := latency)] + run.reports[1..])
  }

  lemma AnnouncingKeeps<C>(run: History<C>, latency: nat)
    requires run.reports != []
    ensures NoUnderrun(Announcing(run, latency).reports) <==> NoUnderrun(run.reports)
    ensures NothingDropped(Announcing(run, latency).reports) <==> NothingDropped(run.reports)
    ensures |Announcing(run, latency).reports| == |run.reports|
  {
    var r := Announcing(run, latency).reports;
    assert r[0] == run.reports[0].(latencyAdded := latency);
    assert forall k :: 1 <= k < |run.reports| ==> r[k] == run.reports[k];
  }

  lemma ExtendAnnouncing<C>(cb: Callback<C>, run: History<C>, latency: nat, call: HostCall)
    requires run.adapter.Ready() && run.reports != []
    ensures Extend(cb, Announcing(run, latency), call) == Announcing(Extend(cb, run, call), latency)
  {
    var r := Extend(cb, run, call).reports;
    assert r[0] == run.reports[0] && r[1..] == run.reports[1..] + [r[|r| - 1]];
  }

  /** A run of the new adapter at one quantum is the run of the primed one, but for the latency
      the first report announces. */
  lemma {:induction false} FreshRun<C>(cb: Callback<C>, block: nat, capacity: nat, h: nat, env: C, calls: seq<HostCall>)
    requires 0 < block && 2 * block <= capacity && 0 < h && Uniform(calls, h) && calls != []
    ensures Run(cb, Fresh(block, capacity, env), calls) ==
            Announcing(Run(cb, Started(block, capacity, h, Peak(h, block), env), calls), Peak(h, block))
    decreases |calls|
  {
    var last := |calls| - 1;
    if last == 0 {
      FirstPriming(cb, block, capacity, h, env, calls[0].inputs);
      assert calls[..0] == [];
    } else {
      hide Processed, Announcing;
      FreshRun(cb, block, capacity, h, env, calls[..last]);
      ExtendAnnouncing(cb, Run(cb, Started(block, capacity, h, Peak(h, block), env), calls[..last]), Peak(h, block),
                       calls[last]);
    }
  }

  /** The new adapter never underruns and never drops at a fixed quantum once the capacity covers
      one host block and the largest remainder. */
  lemma FixedQuantumIsSafe<C>(cb: Callback<C>, block: nat, capacity: nat, h: nat, env: C, calls: seq<HostCall>)
    requires 0 < block && 2 * block <= capacity && 0 < h && Uniform(calls, h)
    requires h + Peak(h, block) <= capacity
    ensures var run := Run(cb, Fresh(block, capacity, env), calls);
            && NoUnderrun(run.reports) && NothingDropped(run.reports)
            && |run.adapter.input| == Residue(|calls|, h, block)
            && (calls != [] ==> |run.adapter.input| + |run.adapter.output| == Peak(h, block) == run.adapter.latency)
  {
    if calls != [] {
      FreshRun(cb, block, capacity, h, env, calls);
      AnnouncingKeeps(Run(cb, Started(block, capacity, h, Peak(h, block), env), calls), Peak(h, block));
      ReserveSuffices(cb, block, capacity, h, Peak(h, block), env, calls);
      ReserveIsKept(cb, block, capacity, h, Peak(h, block), env, calls);
    }
  }

  /** A callback that drops nothing advances the residue in the input FIFO. */
  lemma InputStep<C>(cb: Callback<C>, run: History<C>, call: HostCall, k: nat)
    requires run.adapter.Ready()
    requires |run.adapter.input| == Residue(k, |call.inputs|, run.adapter.Block())
    requires NothingDropped(Extend(cb, run, call).reports)
    ensures |Extend(cb, run, call).adapter.input| == Residue(k + 1, |call.inputs|, run.adapter.Block())
  {
    hide Processed, Pending;
    StepLengths(cb, run.adapter, call.inputs, call.wanted);
    ReportsAppend(run.reports, Processed(cb, run.adapter, call.inputs, call.wanted).report);
  }

  lemma {:induction false} InputIsResidue<C>(cb: Callback<C>, start: Adapter<C>, h: nat, calls: seq<HostCall>)
    requires start.Ready() && start.input == [] && Uniform(calls, h)
    requires NothingDropped(Run(cb, start, calls).reports)
    ensures |Run(cb, start, calls).adapter.input| == Residue(|calls|, h, start.Block())
    decreases |calls|
  {
    hide Processed;
    if calls != [] {
      var last := |calls| - 1;
      var run := Run(cb, start, calls[..last]);
      ReportsAppend(run.reports, Processed(cb, run.adapter, calls[last].inputs, calls[last].wanted).report);
      InputIsResidue(cb, start, h, calls[..last]);
      InputStep(cb, run, calls[last], last);
    }
  }

  /** No sample is dropped in any run at quantum `h` if and only if the capacity covers one host
      block and the largest remainder. */
  lemma CapacityThreshold<C>(cb: Callback<C>, block: nat, capacity: nat, h: nat, env: C)
    requires 0 < block && 2 * block <= capacity && 0 < h
    ensures (forall calls :: Uniform(calls, h) ==>
               NothingDropped(Run(cb, Fresh(block, capacity, env), calls).reports))
        <==> capacity >= h + block - Gcd(h, block)
  {
    GcdRange(h, block);
    if capacity >= h + block - Gcd(h, block) {
      forall calls | Uniform(calls, h)
        ensures NothingDropped(Run(cb, Fresh(block, capacity, env), calls).reports)
      {
        FixedQuantumIsSafe(cb, block, capacity, h, env, calls);
      }
    } else {
      var k := LargestResidueReached(h, block);
      ResidueIsMod(k, h, block);
      OverflowAt(cb, block, capacity, h, env, k);
    }
  }

  /** Once the remainder leaves no room for a host block, that block or an earlier one loses samples. */
  lemma OverflowAt<C>(cb: Callback<C>, block: nat, capacity: nat, h: nat, env: C, k: nat)
    requires 0 < block && 2 * block <= capacity
    requires capacity < h + Residue(k, h, block)
    ensures !NothingDropped(Run(cb, Fresh(block, capacity, env), SilentCalls(h, k + 1)).reports)
  {
    hide Processed;
    var start, calls := Fresh(block, capacity, env), SilentCalls(h, k + 1);
    var run := Run(cb, start, calls[..k]);
    var r := Processed(cb, run.adapter, calls[k].inputs, calls[k].wanted).report;
    assert Run(cb, start, calls).reports == run.reports + [r];
    ReportsAppend(run.reports, r);
    if NothingDropped(run.reports) {
      InputIsResidue(cb, start, h, calls[..k]);
      StepLengths(cb, run.adapter, calls[k].inputs, calls[k].wanted);
    }
  }

  // Arbitrary quanta

  predicate Balanced(calls: seq<HostCall>, maximum: nat) {
    forall k :: 0 <= k < |calls| ==> |calls[k].inputs| == calls[k].wanted <= maximum
  }

  /** Either the stream is still in the phase of its first quantum, with the minimal reserve, or a
      change has raised the reserve to at least one block minus one sample. */
  ghost predicate Phase<C>(a: Adapter<C>) {
    var sum := |a.input| + |a.output|;
    && a.Ready()
    && (a.quantum == None ==> sum == 0)
    && (a.quantum != None ==>
          var h := a.quantum.value;
          && 0 < h
          && (a.Block() - 1 <= sum <= 2 * a.Block() - 2
              || (sum == Peak(h, a.Block()) && Divides(Gcd(h, a.Block()), |a.input|))))
  }

  /** In every phase the next remainder fits into what both FIFOs hold after priming. */
  lemma PhaseCoversRemainder<C>(a: Adapter<C>, h: nat)
    requires Phase(a)
    ensures var sum := |a.input| + |a.output| + Inserted(a, h);
            var next := (|a.input| + h) % a.Block();
            && next <= sum <= 2 * a.Block() - 2
            && (h == 0 ==> next == |a.input| && Inserted(a, h) == 0)
            && (h > 0 ==> sum >= a.Block() - 1 || (sum == Peak(h, a.Block()) && Divides(Gcd(h, a.Block()), next)))
  {
    var d := a.Block();
    var g := Gcd(h, d);
    GcdRange(h, d);
    if h == 0 {
      ModUnique(|a.input|, d, 0, |a.input|);
    } else if a.quantum == None {
      ModUnique(0, g, 0, 0);
      NextRemainder(h, d, 0);
    } else if a.quantum == Some(h) && Divides(g, |a.input|) {
      NextRemainder(h, d, |a.input|);
    }
  }

  lemma PhaseStep<C>(cb: Callback<C>, a: Adapter<C>, inputs: seq<Sample>)
    requires Phase(a) && |inputs| + 2 * a.Block() - 2 <= a.capacity
    ensures var o := Processed(cb, a, inputs, |inputs|);
            && Phase(o.adapter) && Lossless(o.report) && o.report.underrun == 0
            && |o.adapter.input| + |o.adapter.output| == |a.input| + |a.output| + o.report.latencyAdded
  {
    PhaseCoversRemainder(a, |inputs|);
    BalancedStep(cb, a, inputs);
    StepLengths(cb, a, inputs, |inputs|);
    QuantumStep(cb, a, inputs, |inputs|);
    hide Processed, Inserted, Peak, Gcd, Divides, Lossless;
  }

  lemma NextRemainder(h: nat, d: nat, i: nat)
    requires d > 0 && Divides(Gcd(h, d), i)
    ensures Divides(Gcd(h, d), (i + h) % d) && (i + h) % d <= Peak(h, d)
  {
    ResidueStep(h, d, i);
    MultipleResidue(h, d, (i + h) % d);
  }

  /** Nothing has been lost, and the two FIFOs hold the delay, which is the sum of the announced latencies. */
  ghost predicate Safe<C>(run: History<C>) {
    && Phase(run.adapter) && NoUnderrun(run.reports) && NothingDropped(run.reports)
    && |run.adapter.input| + |run.adapter.output| == Totals(run.reports).latencyAdded <= 2 * run.adapter.Block() - 2
  }

  lemma SafeStep<C>(cb: Callback<C>, run: History<C>, inputs: seq<Sample>)
    requires Safe(run) && |inputs| + 2 * run.adapter.Block() - 2 <= run.adapter.capacity
    ensures Safe(Extend(cb, run, HostCall(inputs, |inputs|)))
  {
    PhaseStep(cb, run.adapter, inputs);
    var o := Processed(cb, run.adapter, inputs, |inputs|);
    ReportsAppend(run.reports, o.report);
    assert (run.reports + [o.report])[..|run.reports|] == run.reports;
    PhaseBound(o.adapter);
    QuantumStep(cb, run.adapter, inputs, |inputs|);
    hide Processed, Phase, NoUnderrun, NothingDropped;
  }

  lemma PhaseBound<C>(a: Adapter<C>)
    requires Phase(a)
    ensures |a.input| + |a.output| <= 2 * a.Block() - 2
  {
  }

  lemma FreshIsSafe<C>(block: nat, capacity: nat, env: C)
    requires 0 < block && 2 * block <= capacity
    ensures Safe(History(Fresh(block, capacity, env), [], []))
  {
  }

  lemma SafeIsPhase<C>(run: History<C>)
    requires Safe(run)
    ensures Phase(run.adapter)
  {
  }

  lemma {:induction false} RunIsSafe<C>(cb: Callback<C>, start: Adapter<C>, maximum: nat, calls: seq<HostCall>)
    requires start.Ready() && maximum + 2 * start.Block() - 2 <= start.capacity
    requires Safe(History(start, [], [])) && Balanced(calls, maximum)
    ensures Safe(Run(cb, start, calls))
    decreases |calls|
  {
    hide Safe, Processed;
    if calls != [] {
      var last := |calls| - 1;
      RunIsSafe(cb, start, maximum, calls[..last]);
      SafeStep(cb, Run(cb, start, calls[..last]), calls[last].inputs);
    }
  }

  /** Whatever quanta the host negotiates, nothing underruns or drops, and the delay of the stream
      is the sum of the announced latencies and never more than two blocks minus two samples. */
  lemma QuantumChangesAreSafe<C>(cb: Callback<C>, block: nat, capacity: nat, env: C, maximum: nat, calls: seq<HostCall>)
    requires 0 < block && 2 * block <= capacity && maximum + 2 * block - 2 <= capacity
    requires Balanced(calls, maximum)
    ensures var run := Run(cb, Fresh(block, capacity, env), calls);
            && Phase(run.adapter) && NoUnderrun(run.reports) && NothingDropped(run.reports)
            && |run.adapter.input| + |run.adapter.output| == Totals(run.reports).latencyAdded <= 2 * block - 2
  {
    FreshIsSafe(block, capacity, env);
    RunIsSafe(cb, Fresh(block, capacity, env), maximum, calls);
  }

  // The sample ledger

  /** Every sample that entered an output stream is accounted for, and so is every one of `sent` inputs. */
  ghost predicate Settled<C>(run: History<C>, sent: nat) {
    var t := Totals(run.reports);
    && t.acceptedInput + t.latencyAdded
       == (|run.delivered| - t.underrun) + t.droppedOutput + |run.adapter.output| + |run.adapter.input|
    && t.acceptedInput + t.droppedInput == sent
    && t.underrun <= |run.delivered|
  }

  lemma LedgerStep<C>(cb: Callback<C>, a: Adapter<C>, inputs: seq<Sample>, wanted: nat)
    requires a.Ready()
    ensures var o := Processed(cb, a, inputs, wanted);
            && |o.outputs| == wanted && o.report.underrun <= wanted
            && o.report.acceptedInput + o.report.droppedInput == |inputs|
            && o.report.acceptedInput + o.report.latencyAdded + |a.output| + |a.input|
               == (wanted - o.report.underrun) + o.report.droppedOutput + |o.adapter.output| + |o.adapter.input|
  {
    StepLengths(cb, a, inputs, wanted);
  }

  lemma SettledStep<C>(cb: Callback<C>, run: History<C>, call: HostCall, sent: nat)
    requires run.adapter.Ready() && Settled(run, sent)
    ensures Settled(Extend(cb, run, call), sent + |call.inputs|)
  {
    hide Processed;
    LedgerStep(cb, run.adapter, call.inputs, call.wanted);
    var r := Processed(cb, run.adapter, call.inputs, call.wanted).report;
    assert (run.reports + [r])[..|run.reports|] == run.reports;
  }

  lemma {:induction false} RunIsSettled<C>(cb: Callback<C>, start: Adapter<C>, calls: seq<HostCall>)
    requires start.Ready() && Settled(History(start, [], []), 0)
    ensures Settled(Run(cb, start, calls), |AllInputs(calls)|)
    decreases |calls|
  {
    hide Processed, Settled;
    if calls != [] {
      var last := |calls| - 1;
      RunIsSettled(cb, start, calls[..last]);
      SettledStep(cb, Run(cb, start, calls[..last]), calls[last], |AllInputs(calls[..last])|);
    }
  }

  /** Whatever the host asks for and whatever is dropped or missing: accepted input and added latency are
      delivered, dropped or still queued, and every input sample is accepted or dropped. */
  lemma SampleLedger<C>(cb: Callback<C>, block: nat, capacity: nat, env: C, calls: seq<HostCall>)
    requires 0 < block && 2 * block <= capacity
    ensures var run := Run(cb, Fresh(block, capacity, env), calls);
            var t := Totals(run.reports);
            && t.acceptedInput + t.latencyAdded
               == (|run.delivered| - t.underrun) + t.droppedOutput + |run.adapter.output| + |run.adapter.input|
            && t.acceptedInput + t.droppedInput == |AllInputs(calls)|
            && t.underrun <= |run.delivered|
  {
    hide Run, AllInputs;
    RunIsSettled(cb, Fresh(block, capacity, env), calls);
    hide Totals;
  }

  /** Priming always inserts the whole difference to the reserve: the capacity never cuts it. */
  lemma PrimingIsComplete<C>(a: Adapter<C>, hostQuantum: nat)
    requires a.Ready()
    ensures NeedsPriming(a, hostQuantum) ==>
              |Primed(a, hostQuantum).output| == Max(Reserve(a, hostQuantum), |a.output|)
  {
    GcdRange(hostQuantum, a.Block());
  }
}
