/** The adapter after `flush`. The reserve has been handed out, and the quantum is still known, so it is
    not primed again: the stream pays for the reserve with underruns. */
module AdapterRestarts {
  import opened Words
  import opened Wrappers
  import opened Samples
  import opened NumberTheory
  import opened AdapterModel
  import opened AdapterRuns

  lemma FlushEmpties<C>(cb: Callback<C>, a: Adapter<C>)
    requires a.Ready()
    ensures var b := AfterFlush(cb, a);
            && b.Ready() && b.input == [] && b.output == []
            && b.Block() == a.Block() && b.capacity == a.capacity && b.quantum == a.quantum && b.latency == a.latency
  {
  }

  /** The first callback after `flush`, at the same quantum, lacks exactly what it leaves over of its blocks. */
  lemma RestartUnderruns<C>(cb: Callback<C>, a: Adapter<C>, inputs: seq<Sample>)
    requires a.Ready() && a.quantum == Some(|inputs|) && |inputs| <= a.capacity
    ensures var r := Processed(cb, AfterFlush(cb, a), inputs, |inputs|).report;
            r.underrun == |inputs| % a.Block() && Lossless(r) && r.latencyAdded == 0
  {
    hide Processed, AfterFlush;
    FlushEmpties(cb, a);
    StepLengths(cb, AfterFlush(cb, a), inputs, |inputs|);
  }

  /** The two FIFOs together hold as much as the host has missed, which never exceeds the reserve. */
  ghost predicate Repaid<C>(run: History<C>, h: nat) {
    && 0 < run.adapter.Block() && run.adapter.quantum == Some(h)
    && NothingDropped(run.reports)
    && |run.adapter.input| == Residue(|run.reports|, h, run.adapter.Block())
    && |run.adapter.input| + |run.adapter.output| == Totals(run.reports).underrun <= Peak(h, run.adapter.Block())
    && (Totals(run.reports).underrun == 0 ==> NoUnderrun(run.reports))
  }

  /** What a callback lacks is what the two FIFOs hold more after it. */
  lemma MissingStep<C>(cb: Callback<C>, a: Adapter<C>, inputs: seq<Sample>)
    requires a.Ready() && a.quantum == Some(|inputs|) && |a.input| + |a.output| + |inputs| <= a.capacity
    ensures var o, next := Processed(cb, a, inputs, |inputs|), (|a.input| + |inputs|) % a.Block();
            && Lossless(o.report) && |o.adapter.input| == next
            && |o.adapter.input| + |o.adapter.output| == Max(next, |a.input| + |a.output|)
            && o.report.underrun == Max(next, |a.input| + |a.output|) - (|a.input| + |a.output|)
  {
    hide Processed;
    FixedStep(cb, a, inputs);
    LedgerStep(cb, a, inputs, |inputs|);
  }

  lemma RepaidStep<C>(cb: Callback<C>, run: History<C>, inputs: seq<Sample>)
    requires run.adapter.Ready() && Repaid(run, |inputs|)
    requires |inputs| + Peak(|inputs|, run.adapter.Block()) <= run.adapter.capacity
    ensures Repaid(Extend(cb, run, HostCall(inputs, |inputs|)), |inputs|)
  {
    hide Processed, NoUnderrun, NothingDropped, Lossless, Divides;
    var h := |inputs|;
    MissingStep(cb, run.adapter, inputs);
    QuantumStep(cb, run.adapter, inputs, h);
    ResidueMultiple(|run.reports| + 1, h, run.adapter.Block());
    hide Gcd;
    var r := Processed(cb, run.adapter, inputs, h).report;
    ReportsAppend(run.reports, r);
    assert (run.reports + [r])[..|run.reports|] == run.reports;
  }

  lemma {:induction false} RunIsRepaid<C>(cb: Callback<C>, start: Adapter<C>, h: nat, calls: seq<HostCall>)
    requires start.Ready() && Repaid(History(start, [], []), h) && Uniform(calls, h)
    requires h + Peak(h, start.Block()) <= start.capacity
    ensures Repaid(Run(cb, start, calls), h)
    decreases |calls|
  {
    hide Processed, Repaid;
    if calls != [] {
      var last := |calls| - 1;
      RunIsRepaid(cb, start, h, calls[..last]);
      RepaidStep(cb, Run(cb, start, calls[..last]), calls[last].inputs);
    }
  }

  /** In a run that resumes after `flush` at the same quantum the host misses, altogether, at most the
      reserve that was not primed again; nothing is dropped. */
  lemma RestartCost<C>(cb: Callback<C>, a: Adapter<C>, h: nat, calls: seq<HostCall>)
    requires a.Ready() && a.quantum == Some(h) && 0 < h && Uniform(calls, h)
    requires h + Peak(h, a.Block()) <= a.capacity
    ensures AfterFlush(cb, a).Ready()
    ensures var run := Run(cb, AfterFlush(cb, a), calls);
            && NothingDropped(run.reports)
            && Totals(run.reports).underrun <= a.Block() - Gcd(h, a.Block())
            && (Totals(run.reports).underrun == 0 ==> NoUnderrun(run.reports))
  {
    FlushEmpties(cb, a);
    hide AfterFlush, Run;
    RunIsRepaid(cb, AfterFlush(cb, a), h, calls);
  }

  /** Some run misses the whole reserve. */
  lemma RestartCostIsReached<C>(cb: Callback<C>, a: Adapter<C>, h: nat) returns (calls: seq<HostCall>)
    requires a.Ready() && a.quantum == Some(h) && 0 < h
    requires h + Peak(h, a.Block()) <= a.capacity
    ensures Uniform(calls, h) && AfterFlush(cb, a).Ready()
    ensures Totals(Run(cb, AfterFlush(cb, a), calls).reports).underrun == a.Block() - Gcd(h, a.Block())
  {
    FlushEmpties(cb, a);
    hide AfterFlush, Run;
    var k := LargestResidueReached(h, a.Block());
    ResidueIsMod(k, h, a.Block());
    calls := SilentCalls(h, k);
    RunIsRepaid(cb, AfterFlush(cb, a), h, calls);
  }

  lemma WholeBlocksNeedNoReserve(h: nat, d: nat)
    requires d > 0 && h % d == 0
    ensures Peak(h, d) == 0
  {
    GcdIsGreatest(h, d);
    GcdRange(h, d);
    ModUnique(d, d, 1, 0);
    assert Divides(d, h) && Divides(d, d);
  }

  lemma SingleCall<C>(cb: Callback<C>, start: Adapter<C>, h: nat)
    requires start.Ready()
    ensures Run(cb, start, SilentCalls(h, 1)).reports == [Processed(cb, start, Silence(h), h).report]
  {
    hide Processed;
    var calls := SilentCalls(h, 1);
    assert calls[..0] == [] && calls[0] == HostCall(Silence(h), h);
    assert Run(cb, start, calls[..0]) == History(start, [], []);
  }

  lemma FirstCallMisses<C>(cb: Callback<C>, a: Adapter<C>, h: nat)
    requires a.Ready() && a.quantum == Some(h) && h <= a.capacity && h % a.Block() != 0
    ensures AfterFlush(cb, a).Ready()
    ensures !NoUnderrun(Run(cb, AfterFlush(cb, a), SilentCalls(h, 1)).reports)
  {
    hide AfterFlush, Processed, Run;
    FlushEmpties(cb, a);
    RestartUnderruns(cb, a, Silence(h));
    SingleCall(cb, AfterFlush(cb, a), h);
    assert Run(cb, AfterFlush(cb, a), SilentCalls(h, 1)).reports[0].underrun > 0;
  }

  /** Resuming after `flush` at the same quantum never underruns if and only if the host block is a whole
      number of DSP blocks. */
  lemma RestartIsSafe<C>(cb: Callback<C>, a: Adapter<C>, h: nat)
    requires a.Ready() && a.quantum == Some(h) && 0 < h <= a.capacity
    ensures AfterFlush(cb, a).Ready()
    ensures (forall calls :: Uniform(calls, h) ==> NoUnderrun(Run(cb, AfterFlush(cb, a), calls).reports))
        <==> h % a.Block() == 0
  {
    hide AfterFlush, Processed, Run, NoUnderrun, Totals;
    FlushEmpties(cb, a);
    if h % a.Block() == 0 {
      WholeBlocksNeedNoReserve(h, a.Block());
      forall calls | Uniform(calls, h) ensures NoUnderrun(Run(cb, AfterFlush(cb, a), calls).reports) {
        RestartCost(cb, a, h, calls);
      }
    } else {
      FirstCallMisses(cb, a, h);
    }
  }
}
