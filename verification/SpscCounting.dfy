/** What every interleaving of the ring keeps whatever its size: the counters. Nothing here depends on
    the values in the slots, so it holds through any number of index overflows. */
module SpscCounting {
  import opened Wrappers
  import opened NumberTheory
  import opened SpscProtocol

  /** The wrapped difference of two wrapped counters is their difference. */
  lemma WrappedDifference(tail: nat, head: nat, modulus: nat)
    requires head <= tail < head + modulus
    ensures WrappingSub(tail % modulus, head % modulus, modulus) == tail - head
  {
    var k := head / modulus - tail / modulus;
    MulSub(head / modulus, tail / modulus, modulus);
    assert tail % modulus - head % modulus == (tail - head) + k * modulus;
    ModShift(tail - head, modulus, k);
    ModUnique(tail - head, modulus, 0, tail - head);
  }

  lemma WrappedSum(a: nat, b: nat, modulus: nat)
    requires modulus > 0
    ensures WrappingAdd(a % modulus, b, modulus) == (a + b) % modulus
  {
    AddMod(a, b, modulus);
  }

  // The invariant

  /** The queue of the ring: published and not yet consumed. */
  function Queue<T>(s: State<T>): seq<T>
    requires |s.popped| <= |s.pushed|
  {
    s.pushed[|s.popped|..]
  }

  /** The indices are the counts of published and consumed values, and the ring is never overfull. */
  ghost predicate Counters<T>(s: State<T>) {
    && s.Sized()
    && |s.popped| <= |s.pushed| <= |s.popped| + s.size
    && s.tail == |s.pushed| % s.modulus
    && s.head == |s.popped| % s.modulus
  }

  ghost predicate ProducerCounts<T>(s: State<T>) {
    match s.producer
    case Resting => true
    case KnowsTail(_, tail) => tail == s.tail
    case MayWrite(_, tail) => tail == s.tail && |s.pushed| < |s.popped| + s.size
    case HasWritten(_, tail) => tail == s.tail && |s.pushed| < |s.popped| + s.size
  }

  ghost predicate ConsumerCounts<T>(s: State<T>) {
    var h := |s.popped|;
    match s.consumer
    case Waiting => true
    case KnowsHead(head) => head == s.head
    case MayRead(head) => head == s.head && h < |s.pushed|
    case HasRead(head, _) => head == s.head && h < |s.pushed|
    case SliceKnowsHead(head, _) => head == s.head
    case SliceReading(head, wanted, taken) => head == s.head && |taken| <= wanted && h + wanted <= |s.pushed|
  }

  ghost predicate CountInv<T>(s: State<T>) {
    Counters(s) && ProducerCounts(s) && ConsumerCounts(s)
  }

  lemma InitialCounts<T>(size: nat, modulus: nat)
    requires 0 < size < modulus
    ensures CountInv(Initial<T>(size, modulus))
  {
    ModUnique(0, modulus, 0, 0);
  }

  lemma ProducerKeepsCounts<T>(s: State<T>, step: Step<T>)
    requires CountInv(s) && Enabled(s, step) && step.OfProducer()
    ensures CountInv(NextProducer(s, step))
  {
    WrappedDifference(|s.pushed|, |s.popped|, s.modulus);
    WrappedSum(|s.pushed|, 1, s.modulus);
    hide WrappingAdd, WrappingSub;
  }

  lemma PopKeepsCounts<T>(s: State<T>, step: Step<T>)
    requires CountInv(s) && Enabled(s, step)
    requires step.PopLoadHead? || step.PopLoadTail? || step.PopRead? || step.PopPublish?
    ensures CountInv(NextConsumer(s, step))
  {
    WrappedDifference(|s.pushed|, |s.popped|, s.modulus);
    WrappedSum(|s.popped|, 1, s.modulus);
  }

  lemma SliceKeepsCounts<T>(s: State<T>, step: Step<T>)
    requires CountInv(s) && Enabled(s, step)
    requires step.SliceLoadHead? || step.SliceLoadTail? || step.SliceRead? || step.SlicePublish?
    ensures CountInv(NextConsumer(s, step))
  {
    WrappedDifference(|s.pushed|, |s.popped|, s.modulus);
    if step.SlicePublish? {
      WrappedSum(|s.popped|, s.consumer.wanted, s.modulus);
    }
  }

  lemma CountsKept<T>(s: State<T>, step: Step<T>)
    requires CountInv(s) && Enabled(s, step)
    ensures CountInv(Next(s, step))
  {
    assert s.Sized();
    hide CountInv, NextProducer, NextConsumer;
    if step.OfProducer() { ProducerKeepsCounts(s, step); }
    else if step.PopLoadHead? || step.PopLoadTail? || step.PopRead? || step.PopPublish? { PopKeepsCounts(s, step); }
    else { SliceKeepsCounts(s, step); }
  }

  lemma CountBounds<T>(s: State<T>)
    requires CountInv(s)
    ensures s.Sized() && |s.popped| <= |s.pushed| <= |s.popped| + s.size
    ensures s.tail == |s.pushed| % s.modulus && s.head == |s.popped| % s.modulus
  {
  }

  lemma PushedGrows<T>(s: State<T>, step: Step<T>)
    requires s.Sized() && Enabled(s, step)
    ensures s.pushed <= Next(s, step).pushed
  {
  }

  lemma PoppedGrows<T>(s: State<T>, step: Step<T>)
    requires s.Sized() && Enabled(s, step)
    ensures s.popped <= Next(s, step).popped
  {
  }

  lemma {:induction false} RunCounts<T>(s: State<T>, steps: seq<Step<T>>)
    requires CountInv(s) && s.Sized() && Run(s, steps).Some?
    ensures var s' := Run(s, steps).value;
            CountInv(s') && s.pushed <= s'.pushed && s.popped <= s'.popped
    decreases |steps|
  {
    hide CountInv, Next, Enabled;
    if steps != [] {
      var last := |steps| - 1;
      var before := Run(s, steps[..last]).value;
      RunCounts(s, steps[..last]);
      CountsKept(before, steps[last]);
      PushedGrows(before, steps[last]);
      PoppedGrows(before, steps[last]);
    }
  }

  /** A state that some run from the empty ring reaches. */
  ghost predicate Reachable<T(!new)>(s: State<T>, size: nat, modulus: nat)
    requires 0 < size < modulus
  {
    exists steps :: Run(Initial<T>(size, modulus), steps) == Some(s)
  }

  lemma ReachableCounts<T(!new)>(s: State<T>, size: nat, modulus: nat)
    requires 0 < size < modulus && Reachable(s, size, modulus)
    ensures CountInv(s) && s.size == size && s.modulus == modulus
  {
    var steps :| Run(Initial<T>(size, modulus), steps) == Some(s);
    InitialCounts<T>(size, modulus);
    RunCounts(Initial<T>(size, modulus), steps);
  }

  lemma ReachableNext<T(!new)>(s: State<T>, size: nat, modulus: nat, step: Step<T>)
    requires 0 < size < modulus && Reachable(s, size, modulus) && s.Sized() && Enabled(s, step)
    ensures Reachable(Next(s, step), size, modulus)
  {
    var steps :| Run(Initial<T>(size, modulus), steps) == Some(s);
    assert (steps + [step])[..|steps|] == steps;
    assert Run(Initial<T>(size, modulus), steps + [step]) == Some(Next(s, step));
  }

  // The guarantees

  /** The ring never holds more than its size, and no more is consumed than was published. */
  lemma NeverOverfull<T(!new)>(s: State<T>, size: nat, modulus: nat)
    requires 0 < size < modulus && Reachable(s, size, modulus)
    ensures |s.popped| <= |s.pushed| && |Queue(s)| <= size
  {
    ReachableCounts(s, size, modulus);
  }

  /** A push is refused exactly when the ring is full at the load of the head. */
  lemma RefusedWhenFull<T(!new)>(s: State<T>, size: nat, modulus: nat)
    requires 0 < size < modulus && Reachable(s, size, modulus) && Enabled(s, PushLoadHead)
    ensures |s.popped| <= |s.pushed| && s.Sized()
    ensures Next(s, PushLoadHead).producer.Resting? <==> |Queue(s)| == size
  {
    ReachableCounts(s, size, modulus);
    WrappedDifference(|s.pushed|, |s.popped|, modulus);
  }

  /** A pop returns nothing exactly when the ring is empty at the load of the tail. */
  lemma NothingWhenEmpty<T(!new)>(s: State<T>, size: nat, modulus: nat)
    requires 0 < size < modulus && Reachable(s, size, modulus) && Enabled(s, PopLoadTail)
    ensures |s.popped| <= |s.pushed| && s.Sized()
    ensures Next(s, PopLoadTail).consumer.Waiting? <==> Queue(s) == []
  {
    ReachableCounts(s, size, modulus);
    WrappedDifference(|s.pushed|, |s.popped|, modulus);
    ModUnique(0, modulus, 0, 0);
  }

  /** A slice is refused exactly when fewer values than wanted are queued at the load of the tail. */
  lemma RefusedWhenShort<T(!new)>(s: State<T>, size: nat, modulus: nat)
    requires 0 < size < modulus && Reachable(s, size, modulus) && Enabled(s, SliceLoadTail)
    ensures |s.popped| <= |s.pushed| && s.Sized()
    ensures Next(s, SliceLoadTail).consumer.Waiting? <==> |Queue(s)| < s.consumer.wanted
  {
    ReachableCounts(s, size, modulus);
    WrappedDifference(|s.pushed|, |s.popped|, modulus);
  }

  /** `len` from a thread that loads the tail in `s` and the head later in `s'`: the values of `s` that are
      still queued, or, once the consumer has overtaken that tail, a number larger than the ring. */
  lemma ObservedLength<T(!new)>(s: State<T>, size: nat, modulus: nat, steps: seq<Step<T>>, s': State<T>)
    requires 0 < size < modulus && Reachable(s, size, modulus) && s.Sized() && Run(s, steps) == Some(s')
    requires |s'.popped| < |s.pushed| + modulus - size
    ensures var len := WrappingSub(s.tail, s'.head, modulus);
            && (len <= size <==> |s'.popped| <= |s.pushed|)
            && len == if |s'.popped| <= |s.pushed| then |s.pushed| - |s'.popped|
                      else modulus - (|s'.popped| - |s.pushed|)
  {
    ReachableCounts(s, size, modulus);
    RunCounts(s, steps);
    CountBounds(s);
    CountBounds(s');
    hide CountInv, Reachable, Run;
    if |s'.popped| <= |s.pushed| {
      WrappedDifference(|s.pushed|, |s'.popped|, modulus);
    } else {
      WrappedDifference(|s.pushed| + modulus, |s'.popped|, modulus);
      ModShift(|s.pushed|, modulus, 1);
    }
  }
}
