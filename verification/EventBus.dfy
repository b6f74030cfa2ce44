/** The event bus: one producer emits into a ring whose last slots are reserved for fatal events,
    while one consumer drains it. */
module EventBuses {
  import opened Words
  import opened Wrappers
  import opened NumberTheory
  import opened SpscProtocol
  import opened SpscCounting
  import opened SpscSafety
  import opened SpscCalls

  const RESERVED_SLOTS: nat := 8

  datatype StopReason = Requested | HostError | Panic

  datatype KernelEvent =
    | SpscBackpressure(occupancyPct: nat)
    | SpscOverflow(droppedCommands: nat)
    | GcBackpressure(level: nat)
    | GcEmergencySlotUsed(slotIndex: nat)
    | GcOrphanReclaimed(count: nat)
    | LogQueueOverflow(droppedRecords: nat)
    | LogFlushComplete(recordsFlushed: nat)
    | FpuSubnormalDetected(count: nat)
    | AudioThreadStarted
    | AudioThreadStopped(reason: StopReason)
    | ShutdownProgress(step: nat, total: nat)
    | HostAdapterBlockSizeChanged(old_: nat, new_: nat)
    | ThreadProvisionerFallback(requested: int, granted: int)
    | PerformanceProbeOverload(nodeId: nat, elapsedUs: nat, budgetUs: nat)
  {
    predicate IsFatal() {
      AudioThreadStopped? || HostAdapterBlockSizeChanged? || SpscOverflow?
    }
  }

  /** The producer between two accesses of `emit`; while pushing, the ring tells how far it is. */
  datatype Emitter =
    | Calm
    | Measuring(event: KernelEvent, tail: nat)
    | Pushing(event: KernelEvent)
    | Dropping(event: KernelEvent)

  /** `emitted` and `dropped` count the finished calls and are not part of the program. */
  datatype Bus = Bus(ring: State<KernelEvent>, emitter: Emitter, overflow: nat, emitted: nat, dropped: nat)

  function Initial(size: nat, modulus: nat): Bus {
    Bus(SpscProtocol.Initial(size, modulus), Calm, 0, 0, 0)
  }

  datatype Step =
    | EmitLoadTail(event: KernelEvent)
    | EmitLoadHead
    | EmitPush
    | EmitCount
    | Drain(access: SpscProtocol.Step<KernelEvent>)

  /** The next access of a push in progress. */
  function PushAccess(b: Bus): SpscProtocol.Step<KernelEvent>
    requires b.emitter.Pushing?
  {
    match b.ring.producer
    case Resting => PushLoadTail(b.emitter.event)
    case KnowsTail(_, _) => PushLoadHead
    case MayWrite(_, _) => PushWrite
    case HasWritten(_, _) => PushPublish
  }

  predicate Enabled(b: Bus, step: Step) {
    match step
    case EmitLoadTail(_) => b.emitter.Calm?
    case EmitLoadHead => b.emitter.Measuring?
    case EmitPush => b.emitter.Pushing?
    case EmitCount => b.emitter.Dropping?
    case Drain(access) => (access.PopLoadHead? || access.PopLoadTail? || access.PopRead? || access.PopPublish?)
                          && SpscProtocol.Enabled(b.ring, access)
  }

  /** `capacity_left` from the producer's copy of the tail and the head it loads. */
  function CapacityLeft(ring: State<KernelEvent>, tail: nat): int
    requires ring.Sized()
  {
    ring.size - Min(WrappingSub(tail, ring.head, ring.modulus), ring.size)
  }

  function Next(b: Bus, step: Step): (b': Bus)
    requires b.ring.Sized() && Enabled(b, step)
    ensures b'.ring.Sized() && b'.ring.size == b.ring.size && b'.ring.modulus == b.ring.modulus
  {
    match step
    case EmitLoadTail(event) => b.(emitter := Measuring(event, b.ring.tail))
    case EmitLoadHead =>
      var event := b.emitter.event;
      if CapacityLeft(b.ring, b.emitter.tail) <= RESERVED_SLOTS && !event.IsFatal() then b.(emitter := Dropping(event))
      else b.(emitter := Pushing(event))
    case EmitPush =>
      var ring := SpscProtocol.Next(b.ring, PushAccess(b));
      (match PushAccess(b)
       case PushLoadHead =>
         b.(ring := ring, emitter := if ring.producer.Resting? then Dropping(b.emitter.event) else b.emitter)
       case PushPublish => b.(ring := ring, emitter := Calm, emitted := b.emitted + 1)
       case _ => b.(ring := ring))
    case EmitCount =>
      b.(overflow := (b.overflow + 1) % U32_VALUES, emitter := Calm, emitted := b.emitted + 1, dropped := b.dropped + 1)
    case Drain(access) => b.(ring := SpscProtocol.Next(b.ring, access))
  }

  function Run(b: Bus, steps: seq<Step>): (r: Option<Bus>)
    requires b.ring.Sized()
    ensures r.Some? ==> r.value.ring.Sized() && r.value.ring.size == b.ring.size
    ensures r.Some? ==> r.value.ring.modulus == b.ring.modulus
  {
    if steps == [] then Some(b)
    else
      var before := Run(b, steps[..|steps| - 1]);
      if before.Some? && Enabled(before.value, steps[|steps| - 1])
      then Some(Next(before.value, steps[|steps| - 1]))
      else None
  }

  // The invariant

  /** Number of non-fatal events. */
  function Ordinary(events: seq<KernelEvent>): (count: nat)
    ensures count <= |events|
  {
    if events == [] then 0
    else Ordinary(events[1..]) + if events[0].IsFatal() then 0 else 1
  }

  lemma {:induction false} OrdinaryAppend(events: seq<KernelEvent>, event: KernelEvent)
    ensures Ordinary(events + [event]) == Ordinary(events) + if event.IsFatal() then 0 else 1
  {
    if events != [] {
      OrdinaryAppend(events[1..], event);
      assert (events + [event])[1..] == events[1..] + [event];
    }
  }

  /** Ordinary events never occupy the reserved slots, and one that is being pushed still has room
      outside them. */
  ghost predicate ReserveKept(b: Bus)
    requires Counters(b.ring)
  {
    && Ordinary(Queue(b.ring)) + RESERVED_SLOTS <= b.ring.size
    && (b.emitter.Pushing? && !b.emitter.event.IsFatal() ==> |Queue(b.ring)| + RESERVED_SLOTS < b.ring.size)
  }

  /** The ring's producer works on the emitted event, and only inside a push. */
  ghost predicate EmitterKnows(b: Bus) {
    && (b.emitter.Measuring? ==> b.emitter.tail == b.ring.tail)
    && (!b.emitter.Pushing? ==> b.ring.producer.Resting?)
    && (b.emitter.Pushing? && !b.ring.producer.Resting? ==> b.ring.producer.value == b.emitter.event)
  }

  ghost predicate LedgerKept(b: Bus) {
    && b.emitted == |b.ring.pushed| + b.dropped
    && b.overflow == b.dropped % U32_VALUES
  }

  ghost predicate BusInv(b: Bus) {
    && CountInv(b.ring) && RESERVED_SLOTS < b.ring.size
    && ReserveKept(b) && EmitterKnows(b) && LedgerKept(b)
  }

  lemma InitialBusInv(size: nat, modulus: nat)
    requires RESERVED_SLOTS < size < modulus
    ensures BusInv(Initial(size, modulus))
  {
    InitialCounts<KernelEvent>(size, modulus);
    ModUnique(0, U32_VALUES, 0, 0);
  }

  lemma DecisionKeepsInv(b: Bus)
    requires BusInv(b) && Enabled(b, EmitLoadHead)
    ensures BusInv(Next(b, EmitLoadHead))
    ensures Next(b, EmitLoadHead).emitter.Dropping? <==>
              !b.emitter.event.IsFatal() && |Queue(b.ring)| + RESERVED_SLOTS >= b.ring.size
  {
    WrappedDifference(|b.ring.pushed|, |b.ring.popped|, b.ring.modulus);
  }

  lemma PushKeepsInv(b: Bus)
    requires BusInv(b) && Enabled(b, EmitPush)
    ensures BusInv(Next(b, EmitPush))
  {
    CountsKept(b.ring, PushAccess(b));
    if b.ring.producer.HasWritten? {
      OrdinaryAppend(Queue(b.ring), b.emitter.event);
      assert Queue(Next(b, EmitPush).ring) == Queue(b.ring) + [b.emitter.event];
    }
  }

  lemma DrainKeepsInv(b: Bus, access: SpscProtocol.Step<KernelEvent>)
    requires BusInv(b) && Enabled(b, Drain(access))
    ensures BusInv(Next(b, Drain(access)))
  {
    PopKeepsCounts(b.ring, access);
    if access.PopPublish? {
      assert Queue(Next(b, Drain(access)).ring) == Queue(b.ring)[1..];
    }
  }

  lemma CountKeepsInv(b: Bus)
    requires BusInv(b) && Enabled(b, EmitCount)
    ensures BusInv(Next(b, EmitCount))
  {
    AddMod(b.dropped, 1, U32_VALUES);
  }

  lemma BusInvKept(b: Bus, step: Step)
    requires BusInv(b) && Enabled(b, step)
    ensures BusInv(Next(b, step))
  {
    match step
    case EmitLoadTail(_) =>
    case EmitLoadHead => DecisionKeepsInv(b);
    case EmitPush => PushKeepsInv(b);
    case EmitCount => CountKeepsInv(b);
    case Drain(access) => DrainKeepsInv(b, access);
  }

  ghost predicate Reachable(b: Bus, size: nat, modulus: nat)
    requires RESERVED_SLOTS < size < modulus
  {
    exists steps :: Run(Initial(size, modulus), steps) == Some(b)
  }

  lemma {:induction false} RunBusInv(size: nat, modulus: nat, steps: seq<Step>)
    requires RESERVED_SLOTS < size < modulus && Run(Initial(size, modulus), steps).Some?
    ensures BusInv(Run(Initial(size, modulus), steps).value)
    decreases |steps|
  {
    if steps == [] {
      InitialBusInv(size, modulus);
    } else {
      var last := |steps| - 1;
      var b := Run(Initial(size, modulus), steps[..last]).value;
      hide Next, BusInv, Enabled;
      RunBusInv(size, modulus, steps[..last]);
      BusInvKept(b, steps[last]);
    }
  }

  lemma ReachableBusInv(b: Bus, size: nat, modulus: nat)
    requires RESERVED_SLOTS < size < modulus && Reachable(b, size, modulus)
    ensures BusInv(b) && b.ring.size == size && b.ring.modulus == modulus
  {
    var steps :| Run(Initial(size, modulus), steps) == Some(b);
    RunBusInv(size, modulus, steps);
  }

  // The guarantees

  /** The queue never holds more than `size - 8` ordinary events. */
  lemma OrdinaryEventsAreBounded(b: Bus, size: nat, modulus: nat)
    requires RESERVED_SLOTS < size < modulus && Reachable(b, size, modulus)
    ensures |b.ring.popped| <= |b.ring.pushed| && Ordinary(Queue(b.ring)) <= size - RESERVED_SLOTS
  {
    ReachableBusInv(b, size, modulus);
  }

  /** A push that finds the ring full carries a fatal event, and at least eight fatal events are
      queued at that moment. */
  lemma FatalDropNeedsFatalBacklog(b: Bus, size: nat, modulus: nat)
    requires RESERVED_SLOTS < size < modulus && Reachable(b, size, modulus)
    requires Enabled(b, EmitPush) && Next(b, EmitPush).emitter.Dropping?
    ensures |b.ring.popped| <= |b.ring.pushed|
    ensures b.emitter.event.IsFatal()
    ensures |Queue(b.ring)| - Ordinary(Queue(b.ring)) >= RESERVED_SLOTS
  {
    ReachableBusInv(b, size, modulus);
    WrappedDifference(|b.ring.pushed|, |b.ring.popped|, modulus);
  }

  /** An ordinary event is dropped exactly when at most eight slots are free at the load of the head. */
  lemma OrdinaryDropIsExact(b: Bus, size: nat, modulus: nat)
    requires RESERVED_SLOTS < size < modulus && Reachable(b, size, modulus)
    requires Enabled(b, EmitLoadHead)
    ensures |b.ring.popped| <= |b.ring.pushed|
    ensures Next(b, EmitLoadHead).emitter.Dropping? <==>
              !b.emitter.event.IsFatal() && size - |Queue(b.ring)| <= RESERVED_SLOTS
  {
    ReachableBusInv(b, size, modulus);
    DecisionKeepsInv(b);
  }

  /** Every finished emit is delivered, queued or dropped, and the counter is the drops modulo 2^32. */
  lemma EmitLedger(b: Bus, size: nat, modulus: nat)
    requires RESERVED_SLOTS < size < modulus && Reachable(b, size, modulus)
    ensures |b.ring.popped| <= |b.ring.pushed|
    ensures b.emitted == |b.ring.popped| + |Queue(b.ring)| + b.dropped
    ensures b.overflow == b.dropped % U32_VALUES
  {
    ReachableBusInv(b, size, modulus);
  }

  /** The ring of a bus goes through a run of the ring protocol. */
  lemma RingStep(b: Bus, step: Step, size: nat, modulus: nat)
    requires 0 < size < modulus && b.ring.Sized() && Enabled(b, step)
    requires EmitterKnows(b) && SpscCounting.Reachable(b.ring, size, modulus)
    ensures SpscCounting.Reachable(Next(b, step).ring, size, modulus)
  {
    hide SpscCounting.Reachable;
    match step
    case EmitPush => ReachableNext(b.ring, size, modulus, PushAccess(b));
    case Drain(access) => ReachableNext(b.ring, size, modulus, access);
    case _ =>
  }

  lemma {:induction false} RingReaches(size: nat, modulus: nat, steps: seq<Step>)
    requires RESERVED_SLOTS < size < modulus && Run(Initial(size, modulus), steps).Some?
    ensures SpscCounting.Reachable(Run(Initial(size, modulus), steps).value.ring, size, modulus)
    decreases |steps|
  {
    if steps == [] {
      assert SpscProtocol.Run(SpscProtocol.Initial<KernelEvent>(size, modulus), [])
          == Some(SpscProtocol.Initial<KernelEvent>(size, modulus));
    } else {
      hide Next, Enabled, SpscCounting.Reachable;
      var last := |steps| - 1;
      RingReaches(size, modulus, steps[..last]);
      RunBusInv(size, modulus, steps[..last]);
      RingStep(Run(Initial(size, modulus), steps[..last]).value, steps[last], size, modulus);
    }
  }

  /** As long as the slots are told apart, the delivered events are the first emitted ones that were not
      dropped, in order. */
  lemma DeliveredInOrder(b: Bus, size: nat, modulus: nat)
    requires RESERVED_SLOTS < size < modulus && Reachable(b, size, modulus)
    requires Continuous(|b.ring.pushed|, size, modulus)
    ensures b.ring.popped <= b.ring.pushed
  {
    var steps :| Run(Initial(size, modulus), steps) == Some(b);
    RingReaches(size, modulus, steps);
    BoundedFifo(b.ring, size, modulus);
  }

  /** Every access that comes next leads to a reachable state. */
  lemma ReachNext(b: Bus, size: nat, modulus: nat, step: Step)
    requires RESERVED_SLOTS < size < modulus && Reachable(b, size, modulus) && b.ring.Sized() && Enabled(b, step)
    ensures Reachable(Next(b, step), size, modulus)
  {
    var steps :| Run(Initial(size, modulus), steps) == Some(b);
    RunSnoc(Initial(size, modulus), steps, b, step);
  }

  // Whole calls

  lemma RunSnoc(b: Bus, steps: seq<Step>, b1: Bus, step: Step)
    requires b.ring.Sized() && Run(b, steps) == Some(b1) && Enabled(b1, step)
    ensures Run(b, steps + [step]) == Some(Next(b1, step))
  {
    assert (steps + [step])[..|steps|] == steps;
  }

  /** The two loads of `emit` decide: an ordinary event goes on while more than eight slots are free, a
      fatal one always. */
  lemma EmitDecides(b: Bus, event: KernelEvent)
    requires BusInv(b) && b.emitter.Calm?
    ensures Run(b, [EmitLoadTail(event), EmitLoadHead])
         == Some(b.(emitter :=
                 if |Queue(b.ring)| + 8 >= b.ring.size
                    && !event.AudioThreadStopped? && !event.HostAdapterBlockSizeChanged? && !event.SpscOverflow?
                 then Dropping(event) else Pushing(event)))
  {
    WrappedDifference(|b.ring.pushed|, |b.ring.popped|, b.ring.modulus);
    var b1 := Next(b, EmitLoadTail(event));
    assert [EmitLoadTail(event)][..0] == [];
    assert Run(b, [EmitLoadTail(event)]) == Some(b1);
    RunSnoc(b, [EmitLoadTail(event)], b1, EmitLoadHead);
    assert [EmitLoadTail(event)] + [EmitLoadHead] == [EmitLoadTail(event), EmitLoadHead];
    hide BusInv;
  }

  /** What a finished call leaves: the emitter is calm again and has counted the call. */
  ghost predicate Emitted(b: Bus, b': Bus, event: KernelEvent, dropped: bool) {
    && b'.emitter == Calm && b'.emitted == b.emitted + 1
    && b'.ring.pushed == (if dropped then b.ring.pushed else b.ring.pushed + [event])
    && b'.ring.popped == b.ring.popped && b'.ring.consumer == b.ring.consumer
    && b'.dropped == (if dropped then b.dropped + 1 else b.dropped)
    && b'.overflow == (if dropped then (b.overflow + 1) % U32_VALUES else b.overflow)
  }

  lemma EmitCounts(b: Bus, event: KernelEvent)
    requires b.ring.Sized() && b.emitter == Dropping(event)
    ensures Emitted(b, Next(b, EmitCount), event, true)
  {
  }

  /** The accesses of the push: two of them if the ring is full, all four otherwise. */
  lemma EmitPushes(b: Bus, event: KernelEvent)
    requires CountInv(b.ring) && b.ring.producer.Resting? && b.emitter == Pushing(event)
    ensures |Queue(b.ring)| == b.ring.size ==>
              Next(Next(b, EmitPush), EmitPush) == b.(emitter := Dropping(event))
    ensures |Queue(b.ring)| < b.ring.size ==>
              && Next(Next(b, EmitPush), EmitPush).emitter == Pushing(event)
              && Next(Next(Next(b, EmitPush), EmitPush), EmitPush).emitter == Pushing(event)
              && Emitted(b, Next(Next(Next(Next(b, EmitPush), EmitPush), EmitPush), EmitPush), event, false)
  {
    WrappedDifference(|b.ring.pushed|, |b.ring.popped|, b.ring.modulus);
    hide CountInv;
  }

  /** A whole `emit`, with no access of the consumer in between. The event is dropped if the ring is full, or
      if it is none of the three fatal ones and at most eight slots are free; otherwise it is queued. */
  lemma EmitCall(b: Bus, event: KernelEvent) returns (steps: seq<Step>)
    requires BusInv(b) && b.emitter.Calm?
    ensures forall k :: 0 <= k < |steps| ==> !steps[k].Drain?
    ensures Run(b, steps).Some?
    ensures var fatal := event.AudioThreadStopped? || event.HostAdapterBlockSizeChanged? || event.SpscOverflow?;
            var free := b.ring.size - |Queue(b.ring)|;
            Emitted(b, Run(b, steps).value, event, free == 0 || (free <= 8 && !fatal))
  {
    EmitDecides(b, event);
    var fatal := event.AudioThreadStopped? || event.HostAdapterBlockSizeChanged? || event.SpscOverflow?;
    var loads := [EmitLoadTail(event), EmitLoadHead];
    var decided := Run(b, loads).value;
    hide Run;
    if decided.emitter.Dropping? {
      steps := loads + [EmitCount];
      RunSnoc(b, loads, decided, EmitCount);
      EmitCounts(decided, event);
    } else {
      steps := EmitPushRun(b, loads, decided, event);
    }
  }

  lemma EmitPushRun(b: Bus, loads: seq<Step>, decided: Bus, event: KernelEvent) returns (steps: seq<Step>)
    requires b.ring.Sized() && Run(b, loads) == Some(decided)
    requires forall k :: 0 <= k < |loads| ==> !loads[k].Drain?
    requires CountInv(b.ring) && b.ring.producer.Resting? && decided == b.(emitter := Pushing(event))
    ensures forall k :: 0 <= k < |steps| ==> !steps[k].Drain?
    ensures Run(b, steps).Some? && Emitted(b, Run(b, steps).value, event, |Queue(b.ring)| == b.ring.size)
  {
    hide Run, Next, CountInv;
    CountBounds(b.ring);
    EmitPushes(decided, event);
    var b1 := Next(decided, EmitPush);
    RunSnoc(b, loads, decided, EmitPush);
    PushGoesOn(decided);
    var b2 := Next(b1, EmitPush);
    RunSnoc(b, loads + [EmitPush], b1, EmitPush);
    if |Queue(b.ring)| == b.ring.size {
      RunSnoc(b, loads + [EmitPush] + [EmitPush], b2, EmitCount);
      EmitCounts(b2, event);
      steps := loads + [EmitPush] + [EmitPush] + [EmitCount];
    } else {
      RunSnoc(b, loads + [EmitPush] + [EmitPush], b2, EmitPush);
      RunSnoc(b, loads + [EmitPush] + [EmitPush] + [EmitPush], Next(b2, EmitPush), EmitPush);
      steps := loads + [EmitPush] + [EmitPush] + [EmitPush] + [EmitPush];
    }
  }

  lemma PushGoesOn(b: Bus)
    requires b.ring.Sized() && b.emitter.Pushing? && b.ring.producer.Resting?
    ensures Next(b, EmitPush).emitter == b.emitter
  {
  }

  /** A pop of `drain`, with no access of the emitter in between, delivers the oldest event; on an empty ring
      its two loads change nothing. */
  lemma DrainTakes(b: Bus)
    requires SpscSafety.Inv(b.ring) && b.ring.Sized() && b.ring.consumer.Waiting?
    ensures Queue(b.ring) == [] ==> Run(b, [Drain(PopLoadHead), Drain(PopLoadTail)]) == Some(b)
    ensures Queue(b.ring) != [] ==>
              Run(b, [Drain(PopLoadHead), Drain(PopLoadTail), Drain(PopRead), Drain(PopPublish)])
              == Some(b.(ring := b.ring.(head := (|b.ring.popped| + 1) % b.ring.modulus,
                                         popped := b.ring.popped + [Queue(b.ring)[0]])))
  {
    PopCallTakes(b.ring);
    var steps := [Drain(PopLoadHead)];
    var b1 := Next(b, Drain(PopLoadHead));
    assert steps[..0] == [] && Run(b, steps) == Some(b1);
    RunSnoc(b, steps, b1, Drain(PopLoadTail));
    var b2 := Next(b1, Drain(PopLoadTail));
    assert steps + [Drain(PopLoadTail)] == [Drain(PopLoadHead), Drain(PopLoadTail)];
    WrappedDifference(|b.ring.pushed|, |b.ring.popped|, b.ring.modulus);
    ModUnique(0, b.ring.modulus, 0, 0);
    if Queue(b.ring) != [] {
      DrainGoesOn(b, b2);
    }
  }

  lemma DrainReads(b: Bus, b2: Bus)
    requires SpscSafety.Inv(b.ring) && b.ring.Sized() && Queue(b.ring) != []
    requires b2 == b.(ring := b.ring.(consumer := MayRead(b.ring.head))) && b.ring.consumer.Waiting?
    ensures var b3 := Next(b2, Drain(PopRead));
            && Enabled(b3, Drain(PopPublish))
            && Next(b3, Drain(PopPublish))
               == b.(ring := b.ring.(head := (|b.ring.popped| + 1) % b.ring.modulus,
                                     popped := b.ring.popped + [Queue(b.ring)[0]]))
  {
    var h := |b.ring.popped|;
    assert CellAt(b.ring, b.ring.head) == Some(b.ring.pushed[h]);
    WrappedSum(h, 1, b.ring.modulus);
    hide SpscSafety.Inv;
  }

  lemma DrainGoesOn(b: Bus, b2: Bus)
    requires SpscSafety.Inv(b.ring) && b.ring.Sized() && b.ring.consumer.Waiting? && Queue(b.ring) != []
    requires b2 == b.(ring := b.ring.(consumer := MayRead(b.ring.head)))
    requires Run(b, [Drain(PopLoadHead), Drain(PopLoadTail)]) == Some(b2)
    ensures Run(b, [Drain(PopLoadHead), Drain(PopLoadTail), Drain(PopRead), Drain(PopPublish)])
            == Some(b.(ring := b.ring.(head := (|b.ring.popped| + 1) % b.ring.modulus,
                                       popped := b.ring.popped + [Queue(b.ring)[0]])))
  {
    DrainReads(b, b2);
    hide SpscSafety.Inv, Run, Next;
    var loads := [Drain(PopLoadHead), Drain(PopLoadTail)];
    RunSnoc(b, loads, b2, Drain(PopRead));
    var b3 := Next(b2, Drain(PopRead));
    RunSnoc(b, loads + [Drain(PopRead)], b3, Drain(PopPublish));
    assert loads + [Drain(PopRead)] + [Drain(PopPublish)]
        == [Drain(PopLoadHead), Drain(PopLoadTail), Drain(PopRead), Drain(PopPublish)];
  }
}
