/** What every interleaving of the ring keeps as long as its slots are told apart: the ring is a FIFO. */
module SpscSafety {
  import opened Wrappers
  import opened NumberTheory
  import opened SpscProtocol
  import opened SpscCounting

  /** The slot of the value that was pushed as number `i`. */
  function Slot(i: nat, size: nat, modulus: nat): (slot: nat)
    requires 0 < size && 0 < modulus
    ensures slot < size
  {
    i % modulus % size
  }

  /** The indices up to `i` have not outgrown the slot map: either the ring size divides the number
      of index values, or the index has never wrapped. */
  predicate Continuous(i: nat, size: nat, modulus: nat)
    requires 0 < size
  {
    modulus % size == 0 || i < modulus
  }

  lemma SlotsApart(i: nat, j: nat, size: nat, modulus: nat)
    requires 0 < size && 0 < modulus && i < j < i + size && Continuous(j, size, modulus)
    ensures Slot(i, size, modulus) != Slot(j, size, modulus)
  {
    if modulus % size == 0 {
      ModMod(i, modulus, size);
      ModMod(j, modulus, size);
    } else {
      ModUnique(i, modulus, 0, i);
      ModUnique(j, modulus, 0, j);
    }
    ModApart(i, j, size);
  }

  // The invariant on values

  /** The slot of every queued value still holds it. */
  ghost predicate Intact<T>(s: State<T>)
    requires s.Sized()
  {
    forall i :: |s.popped| <= i < |s.pushed| ==> s.cells[Slot(i, s.size, s.modulus)] == Some(s.pushed[i])
  }

  ghost predicate ProducerWrote<T>(s: State<T>)
    requires s.Sized()
  {
    s.producer.HasWritten? ==> s.cells[s.producer.tail % s.size] == Some(s.producer.value)
  }

  ghost predicate ConsumerReads<T>(s: State<T>)
    requires CountInv(s)
  {
    var h := |s.popped|;
    && (s.consumer.HasRead? ==> s.pushed[h] == s.consumer.value)
    && (s.consumer.SliceReading? ==> s.consumer.taken == s.pushed[h..h + |s.consumer.taken|])
  }

  ghost predicate Inv<T>(s: State<T>) {
    && CountInv(s) && Intact(s) && ProducerWrote(s) && ConsumerReads(s)
    && s.popped == s.pushed[..|s.popped|]
  }

  lemma InitialInv<T>(size: nat, modulus: nat)
    requires 0 < size < modulus
    ensures Inv(Initial<T>(size, modulus))
  {
    InitialCounts<T>(size, modulus);
  }

  lemma LoadKeepsInv<T>(s: State<T>, step: Step<T>)
    requires Inv(s) && Enabled(s, step) && (step.PushLoadTail? || step.PushLoadHead?)
    ensures Inv(NextProducer(s, step))
  {
    ProducerKeepsCounts(s, step);
  }

  lemma WriteKeepsInv<T>(s: State<T>)
    requires Inv(s) && Enabled(s, PushWrite) && Continuous(|s.pushed|, s.size, s.modulus)
    ensures Inv(NextProducer(s, PushWrite))
  {
    ProducerKeepsCounts(s, PushWrite);
    forall i | |s.popped| <= i < |s.pushed|
      ensures Slot(i, s.size, s.modulus) != Slot(|s.pushed|, s.size, s.modulus)
    {
      SlotsApart(i, |s.pushed|, s.size, s.modulus);
    }
  }

  lemma PublishKeepsInv<T>(s: State<T>)
    requires Inv(s) && Enabled(s, PushPublish)
    ensures Inv(NextProducer(s, PushPublish))
  {
    ProducerKeepsCounts(s, PushPublish);
    assert s.cells[Slot(|s.pushed|, s.size, s.modulus)] == Some(s.producer.value);
    hide Slot, WrappingAdd;
  }

  lemma ProducerKeepsInv<T>(s: State<T>, step: Step<T>)
    requires Inv(s) && Enabled(s, step) && step.OfProducer()
    requires Continuous(|s.pushed|, s.size, s.modulus)
    ensures Inv(NextProducer(s, step))
  {
    assert s.Sized();
    hide Inv, NextProducer;
    match step
    case PushLoadTail(_) => LoadKeepsInv(s, step);
    case PushLoadHead => LoadKeepsInv(s, step);
    case PushWrite => WriteKeepsInv(s);
    case PushPublish => PublishKeepsInv(s);
  }

  lemma PopKeepsInv<T>(s: State<T>, step: Step<T>)
    requires Inv(s) && Enabled(s, step)
    requires step.PopLoadHead? || step.PopLoadTail? || step.PopRead? || step.PopPublish?
    ensures Inv(NextConsumer(s, step))
  {
    PopKeepsCounts(s, step);
    if step.PopRead? {
      assert CellAt(s, s.head) == Some(s.pushed[|s.popped|]);
    }
  }

  lemma SliceKeepsInv<T>(s: State<T>, step: Step<T>)
    requires Inv(s) && Enabled(s, step)
    requires step.SliceLoadHead? || step.SliceLoadTail? || step.SliceRead? || step.SlicePublish?
    ensures Inv(NextConsumer(s, step))
  {
    SliceKeepsCounts(s, step);
    if step.SliceRead? {
      var h, k := |s.popped|, |s.consumer.taken|;
      WrappedSum(h, k, s.modulus);
      assert CellAt(s, WrappingAdd(s.head, k, s.modulus)) == Some(s.pushed[h + k]);
    }
  }

  lemma ConsumerKeepsInv<T>(s: State<T>, step: Step<T>)
    requires Inv(s) && Enabled(s, step) && !step.OfProducer()
    ensures Inv(NextConsumer(s, step))
  {
    assert s.Sized();
    hide Inv, NextConsumer;
    if step.PopLoadHead? || step.PopLoadTail? || step.PopRead? || step.PopPublish? { PopKeepsInv(s, step); }
    else { SliceKeepsInv(s, step); }
  }

  lemma InvKept<T>(s: State<T>, step: Step<T>)
    requires Inv(s) && Enabled(s, step)
    requires Continuous(|s.pushed|, s.size, s.modulus)
    ensures Inv(Next(s, step))
  {
    if step.OfProducer() { ProducerKeepsInv(s, step); } else { ConsumerKeepsInv(s, step); }
  }

  lemma {:induction false} RunInv<T>(size: nat, modulus: nat, steps: seq<Step<T>>)
    requires 0 < size < modulus
    requires Run(Initial<T>(size, modulus), steps).Some?
    requires Continuous(|Run(Initial<T>(size, modulus), steps).value.pushed|, size, modulus)
    ensures Inv(Run(Initial<T>(size, modulus), steps).value)
    decreases |steps|
  {
    if steps == [] {
      InitialInv<T>(size, modulus);
    } else {
      var last := |steps| - 1;
      var s := Run(Initial<T>(size, modulus), steps[..last]).value;
      hide Next;
      PushedGrows(s, steps[last]);
      RunInv(size, modulus, steps[..last]);
      InvKept(s, steps[last]);
    }
  }

  lemma ReachableInv<T(!new)>(s: State<T>, size: nat, modulus: nat)
    requires 0 < size < modulus && Reachable(s, size, modulus)
    requires Continuous(|s.pushed|, size, modulus)
    ensures Inv(s) && s.size == size && s.modulus == modulus
  {
    var steps :| Run(Initial<T>(size, modulus), steps) == Some(s);
    RunInv(size, modulus, steps);
  }

  // The guarantees, while the slot map is continuous

  /** Consumed values are a prefix of the published ones, and the two sides never work on the same slot. */
  lemma BoundedFifo<T(!new)>(s: State<T>, size: nat, modulus: nat)
    requires 0 < size < modulus && Reachable(s, size, modulus)
    requires Continuous(|s.pushed|, size, modulus)
    ensures s.popped <= s.pushed
    ensures s.producer.MayWrite? && s.consumer.MayRead? ==> s.producer.tail % size != s.consumer.head % size
    ensures s.producer.MayWrite? && s.consumer.SliceReading? ==>
              forall k :: 0 <= k < s.consumer.wanted ==>
                WrappingAdd(s.consumer.head, k, modulus) % size != s.producer.tail % size
  {
    ReachableInv(s, size, modulus);
    var h, t := |s.popped|, |s.pushed|;
    if s.producer.MayWrite? && s.consumer.MayRead? {
      SlotsApart(h, t, size, modulus);
    }
    if s.producer.MayWrite? && s.consumer.SliceReading? {
      forall k | 0 <= k < s.consumer.wanted
        ensures WrappingAdd(s.consumer.head, k, modulus) % size != s.producer.tail % size
      {
        WrappedSum(h, k, modulus);
        SlotsApart(h + k, t, size, modulus);
      }
    }
  }
}
