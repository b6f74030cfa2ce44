/** Parameter changes: the control thread pushes them while the audio thread drains to the latest. */
module ParameterExchanges {
  import opened Wrappers
  import opened NumberTheory
  import opened SpscProtocol
  import opened SpscCounting
  import opened SpscSafety
  import opened SpscCalls

  /** `start` and `original` are the consumed count and the target at the beginning of the drain. */
  datatype Drainer<T> =
    | Inactive
    | Draining(start: nat, original: T, target: T, updated: bool)
    | Finished(start: nat, original: T, target: T, updated: bool)

  datatype Exchange<T> = Exchange(ring: State<T>, drainer: Drainer<T>)

  datatype Action<T> =
    | Push(access: Step<T>)
    | DrainBegin(target: T)
    | DrainPop(access: Step<T>)
    | DrainReturn

  predicate Enabled<T>(x: Exchange<T>, action: Action<T>) {
    match action
    case Push(access) => access.OfProducer() && SpscProtocol.Enabled(x.ring, access)
    case DrainBegin(_) => x.drainer.Inactive? && x.ring.consumer.Waiting?
    case DrainPop(access) => x.drainer.Draining?
      && (access.PopLoadHead? || access.PopLoadTail? || access.PopRead? || access.PopPublish?)
      && SpscProtocol.Enabled(x.ring, access)
    case DrainReturn => x.drainer.Finished?
  }

  function Next<T>(x: Exchange<T>, action: Action<T>): (x': Exchange<T>)
    requires x.ring.Sized() && Enabled(x, action)
    ensures x'.ring.Sized() && x'.ring.size == x.ring.size && x'.ring.modulus == x.ring.modulus
  {
    match action
    case Push(access) => x.(ring := SpscProtocol.Next(x.ring, access))
    case DrainBegin(target) => x.(drainer := Draining(|x.ring.popped|, target, target, false))
    case DrainPop(access) =>
      var ring, d := SpscProtocol.Next(x.ring, access), x.drainer;
      if access.PopLoadTail? && ring.consumer.Waiting? then
        Exchange(ring, Finished(d.start, d.original, d.target, d.updated))
      else if access.PopPublish? then
        Exchange(ring, Draining(d.start, d.original, x.ring.consumer.value, true))
      else x.(ring := ring)
    case DrainReturn => x.(drainer := Inactive)
  }

  function Run<T>(x: Exchange<T>, actions: seq<Action<T>>): (r: Option<Exchange<T>>)
    requires x.ring.Sized()
    ensures r.Some? ==> r.value.ring.Sized() && r.value.ring.size == x.ring.size
    ensures r.Some? ==> r.value.ring.modulus == x.ring.modulus
  {
    if actions == [] then Some(x)
    else
      var before := Run(x, actions[..|actions| - 1]);
      if before.Some? && Enabled(before.value, actions[|actions| - 1])
      then Some(Next(before.value, actions[|actions| - 1]))
      else None
  }

  function Initial<T>(size: nat, modulus: nat): Exchange<T> {
    Exchange(SpscProtocol.Initial(size, modulus), Inactive)
  }

  // The invariant

  /** The latest published value is told apart from the one being written: the ring has one slot, or
      the index has not wrapped, or the last index and the first have different slots. */
  predicate LatestApart(published: nat, size: nat, modulus: nat)
    requires 0 < size
  {
    size == 1 || published < modulus || (modulus - 1) % size != 0
  }

  lemma NeighboursApart(t: nat, size: nat, modulus: nat)
    requires 1 < size < modulus && 0 < t && LatestApart(t, size, modulus)
    ensures Slot(t - 1, size, modulus) != Slot(t, size, modulus)
  {
    var q, r := t / modulus, t % modulus;
    DivMod(t, modulus);
    if r == 0 {
      MulSub(q, 1, modulus);
      if t < modulus { ModUnique(t, modulus, 0, t); }
      ModUnique(t - 1, modulus, q - 1, modulus - 1);
      ModUnique(0, size, 0, 0);
    } else {
      ModUnique(t - 1, modulus, q, r - 1);
      ModApart(r - 1, r, size);
    }
  }

  /** The latest published value is still in its slot, unless it has been consumed. */
  ghost predicate LatestIntact<T>(s: State<T>)
    requires s.Sized()
  {
    var last := |s.pushed| - 1;
    |s.popped| <= last ==> s.cells[Slot(last, s.size, s.modulus)] == Some(s.pushed[last])
  }

  /** What the consumer has read is right if it is the latest value. */
  ghost predicate LatestRead<T>(s: State<T>) {
    s.consumer.HasRead? && |s.popped| == |s.pushed| - 1 ==> s.consumer.value == s.pushed[|s.popped|]
  }

  /** The target is untouched until the drain has consumed something, and then it is the latest value
      whenever the drain has caught up. */
  ghost predicate TargetIsLatest<T>(x: Exchange<T>) {
    x.drainer.Draining? ==>
      var d, h := x.drainer, |x.ring.popped|;
      && d.start <= h
      && (d.updated <==> d.start < h)
      && (!d.updated ==> d.target == d.original)
      && (d.updated && h == |x.ring.pushed| ==> d.target == x.ring.pushed[h - 1])
  }

  /** The part of the invariant that pushes can disturb. */
  ghost predicate LatestInv<T>(s: State<T>) {
    CountInv(s) && LatestIntact(s) && ProducerWrote(s) && LatestRead(s)
  }

  ghost predicate ExchangeInv<T>(x: Exchange<T>) {
    LatestInv(x.ring) && TargetIsLatest(x)
  }

  lemma LoadKeepsLatest<T>(s: State<T>, access: Step<T>)
    requires LatestInv(s) && SpscProtocol.Enabled(s, access) && (access.PushLoadTail? || access.PushLoadHead?)
    ensures LatestInv(NextProducer(s, access))
  {
    ProducerKeepsCounts(s, access);
  }

  lemma WriteKeepsLatest<T>(s: State<T>)
    requires LatestInv(s) && SpscProtocol.Enabled(s, PushWrite)
    requires LatestApart(|s.pushed|, s.size, s.modulus)
    ensures LatestInv(NextProducer(s, PushWrite))
  {
    ProducerKeepsCounts(s, PushWrite);
    if |s.popped| < |s.pushed| {
      NeighboursApart(|s.pushed|, s.size, s.modulus);
    }
    hide LatestApart;
  }

  lemma PublishKeepsLatest<T>(s: State<T>)
    requires LatestInv(s) && SpscProtocol.Enabled(s, PushPublish)
    ensures LatestInv(NextProducer(s, PushPublish))
  {
    ProducerKeepsCounts(s, PushPublish);
    assert s.cells[Slot(|s.pushed|, s.size, s.modulus)] == Some(s.producer.value);
    hide Slot, WrappingAdd;
  }

  lemma PushKeepsLatest<T>(s: State<T>, access: Step<T>)
    requires LatestInv(s) && SpscProtocol.Enabled(s, access) && access.OfProducer()
    requires LatestApart(|s.pushed|, s.size, s.modulus)
    ensures LatestInv(NextProducer(s, access))
  {
    hide LatestInv, NextProducer;
    match access
    case PushLoadTail(_) => LoadKeepsLatest(s, access);
    case PushLoadHead => LoadKeepsLatest(s, access);
    case PushWrite => WriteKeepsLatest(s);
    case PushPublish => PublishKeepsLatest(s);
  }

  lemma PushKeepsExchange<T>(x: Exchange<T>, access: Step<T>)
    requires ExchangeInv(x) && Enabled(x, Push(access))
    requires LatestApart(|x.ring.pushed|, x.ring.size, x.ring.modulus)
    ensures ExchangeInv(Next(x, Push(access)))
  {
    PushKeepsLatest(x.ring, access);
    hide LatestInv;
    PushOnly(x.ring, access);
  }

  /** A push leaves the consumed values alone and may only add to the published ones. */
  lemma PushOnly<T>(s: State<T>, access: Step<T>)
    requires s.Sized() && SpscProtocol.Enabled(s, access) && access.OfProducer()
    ensures s.pushed <= NextProducer(s, access).pushed && NextProducer(s, access).popped == s.popped
  {
  }

  lemma PopKeepsExchange<T>(x: Exchange<T>, access: Step<T>)
    requires ExchangeInv(x) && Enabled(x, DrainPop(access))
    ensures ExchangeInv(Next(x, DrainPop(access)))
  {
    PopKeepsCounts(x.ring, access);
  }

  lemma ExchangeInvKept<T>(x: Exchange<T>, action: Action<T>)
    requires ExchangeInv(x) && Enabled(x, action)
    requires LatestApart(|x.ring.pushed|, x.ring.size, x.ring.modulus)
    ensures ExchangeInv(Next(x, action))
  {
    match action
    case Push(access) => PushKeepsExchange(x, access);
    case DrainBegin(_) =>
    case DrainPop(access) => PopKeepsExchange(x, access);
    case DrainReturn =>
  }

  lemma ExchangeGrows<T>(x: Exchange<T>, action: Action<T>)
    requires x.ring.Sized() && Enabled(x, action)
    ensures x.ring.pushed <= Next(x, action).ring.pushed
  {
    match action
    case Push(access) => PushedGrows(x.ring, access);
    case DrainPop(access) => PushedGrows(x.ring, access);
    case _ =>
  }

  lemma InitialExchange<T>(size: nat, modulus: nat)
    requires 0 < size < modulus
    ensures ExchangeInv(Initial<T>(size, modulus))
  {
    InitialCounts<T>(size, modulus);
  }

  lemma {:induction false} RunExchangeInv<T>(size: nat, modulus: nat, actions: seq<Action<T>>)
    requires 0 < size < modulus && Run(Initial<T>(size, modulus), actions).Some?
    requires LatestApart(|Run(Initial<T>(size, modulus), actions).value.ring.pushed|, size, modulus)
    ensures ExchangeInv(Run(Initial<T>(size, modulus), actions).value)
    decreases |actions|
  {
    if actions == [] {
      InitialExchange<T>(size, modulus);
    } else {
      hide Next, Enabled, ExchangeInv;
      var last := |actions| - 1;
      var x := Run(Initial<T>(size, modulus), actions[..last]).value;
      ExchangeGrows(x, actions[last]);
      RunExchangeInv(size, modulus, actions[..last]);
      ExchangeInvKept(x, actions[last]);
    }
  }

  /** A state that some run from an empty queue reaches. */
  ghost predicate Reachable<T(!new)>(x: Exchange<T>, size: nat, modulus: nat)
    requires 0 < size < modulus
  {
    exists actions :: Run(Initial<T>(size, modulus), actions) == Some(x)
  }

  // Latest wins

  /** The drain has consumed everything published, and its target is the latest published value if it
      consumed any, and untouched otherwise. */
  ghost predicate HoldsLatest<T>(x: Exchange<T>) {
    x.drainer.Finished? ==>
      var d, published := x.drainer, x.ring.pushed;
      && d.start <= |published| == |x.ring.popped|
      && (d.updated <==> d.start < |published|)
      && d.target == if d.updated then published[|published| - 1] else d.original
  }

  lemma WrappedEmpty<T>(s: State<T>)
    requires Counters(s) && s.tail == s.head
    ensures |s.popped| == |s.pushed|
  {
    if |s.popped| < |s.pushed| {
      ModApart(|s.popped|, |s.pushed|, s.modulus);
    }
  }

  /** The access that ends a drain leaves the latest published value, however many indices have wrapped. */
  lemma LatestWins<T(!new)>(x: Exchange<T>, size: nat, modulus: nat, access: Step<T>)
    requires 0 < size < modulus && Reachable(x, size, modulus) && x.ring.Sized()
    requires LatestApart(|x.ring.pushed|, size, modulus)
    requires Enabled(x, DrainPop(access)) && Next(x, DrainPop(access)).drainer.Finished?
    ensures HoldsLatest(Next(x, DrainPop(access)))
  {
    var actions :| Run(Initial<T>(size, modulus), actions) == Some(x);
    RunExchangeInv(size, modulus, actions);
    WrappedEmpty(x.ring);
  }

  /** The ring of an exchange goes through a run of the ring protocol. */
  lemma {:induction false} RingReaches<T(!new)>(size: nat, modulus: nat, actions: seq<Action<T>>)
    requires 0 < size < modulus && Run(Initial<T>(size, modulus), actions).Some?
    ensures SpscCounting.Reachable(Run(Initial<T>(size, modulus), actions).value.ring, size, modulus)
    decreases |actions|
  {
    if actions == [] {
      var empty := SpscProtocol.Initial<T>(size, modulus);
      assert SpscProtocol.Run(empty, []) == Some(empty);
    } else {
      hide SpscCounting.Reachable;
      var last := |actions| - 1;
      var x := Run(Initial<T>(size, modulus), actions[..last]).value;
      RingReaches(size, modulus, actions[..last]);
      match actions[last]
      case Push(access) => ReachableNext(x.ring, size, modulus, access);
      case DrainPop(access) => ReachableNext(x.ring, size, modulus, access);
      case _ =>
    }
  }

  /** As long as all slots are told apart, a drain that ends has consumed exactly the published values. */
  lemma NothingSkipped<T(!new)>(x: Exchange<T>, size: nat, modulus: nat, access: Step<T>)
    requires 0 < size < modulus && Reachable(x, size, modulus) && x.ring.Sized()
    requires Continuous(|x.ring.pushed|, size, modulus)
    requires Enabled(x, DrainPop(access)) && Next(x, DrainPop(access)).drainer.Finished?
    ensures x.ring.popped == x.ring.pushed
  {
    var actions :| Run(Initial<T>(size, modulus), actions) == Some(x);
    RingReaches(size, modulus, actions);
    ReachableCounts(x.ring, size, modulus);
    BoundedFifo(x.ring, size, modulus);
    WrappedEmpty(x.ring);
  }

  // A drain that ends with a value that is not published

  lemma ReachNext<T(!new)>(x: Exchange<T>, size: nat, modulus: nat, action: Action<T>)
    requires 0 < size < modulus && Reachable(x, size, modulus) && x.ring.Sized() && Enabled(x, action)
    ensures Reachable(Next(x, action), size, modulus)
  {
    var actions :| Run(Initial<T>(size, modulus), actions) == Some(x);
    assert (actions + [action])[..|actions|] == actions;
    assert Run(Initial<T>(size, modulus), actions + [action]) == Some(Next(x, action));
  }

  /** The three accesses of a push that come before it publishes. */
  lemma WriteActs<T(!new)>(x: Exchange<T>, size: nat, modulus: nat, value: T) returns (y: Exchange<T>)
    requires 0 < size < modulus && Reachable(x, size, modulus) && CountInv(x.ring)
    requires x.ring.producer.Resting? && |Queue(x.ring)| < x.ring.size
    ensures Reachable(y, size, modulus) && CountInv(y.ring) && y.drainer == x.drainer
    ensures y.ring == x.ring.(cells := x.ring.cells[x.ring.tail % x.ring.size := Some(value)],
                              producer := HasWritten(value, x.ring.tail))
  {
    hide Reachable;
    WrappedDifference(|x.ring.pushed|, |x.ring.popped|, x.ring.modulus);
    ReachNext(x, size, modulus, Push(PushLoadTail(value)));
    var x1 := Next(x, Push(PushLoadTail(value)));
    ReachNext(x1, size, modulus, Push(PushLoadHead));
    var x2 := Next(x1, Push(PushLoadHead));
    ReachNext(x2, size, modulus, Push(PushWrite));
    y := Next(x2, Push(PushWrite));
  }

  lemma PushActs<T(!new)>(x: Exchange<T>, size: nat, modulus: nat, value: T)
    requires 0 < size < modulus && Reachable(x, size, modulus) && CountInv(x.ring)
    requires x.ring.producer.Resting? && |Queue(x.ring)| < x.ring.size
    ensures Reachable(x.(ring := PushCall(x.ring, value)), size, modulus)
  {
    hide Reachable;
    PushCallAppends(x.ring, value);
    var y := WriteActs(x, size, modulus, value);
    ReachNext(y, size, modulus, Push(PushPublish));
    WrappedSum(|x.ring.pushed|, 1, x.ring.modulus);
    assert Next(y, Push(PushPublish)).ring == PushCall(x.ring, value);
  }

  /** The four accesses of a pop inside a drain. */
  lemma PopActs<T(!new)>(x: Exchange<T>, size: nat, modulus: nat, value: T) returns (y: Exchange<T>)
    requires 0 < size < modulus && Reachable(x, size, modulus) && CountInv(x.ring)
    requires x.drainer.Draining? && x.ring.consumer.Waiting? && x.ring.tail != x.ring.head
    requires CellAt(x.ring, x.ring.head) == Some(value)
    ensures Reachable(y, size, modulus)
    ensures y.ring == x.ring.(head := WrappingAdd(x.ring.head, 1, x.ring.modulus), popped := x.ring.popped + [value])
    ensures y.drainer == Draining(x.drainer.start, x.drainer.original, value, true)
  {
    hide Reachable;
    ReachNext(x, size, modulus, DrainPop(PopLoadHead));
    var x1 := Next(x, DrainPop(PopLoadHead));
    ReachNext(x1, size, modulus, DrainPop(PopLoadTail));
    var x2 := Next(x1, DrainPop(PopLoadTail));
    ReachNext(x2, size, modulus, DrainPop(PopRead));
    var x3 := Next(x2, DrainPop(PopRead));
    ReachNext(x3, size, modulus, DrainPop(PopPublish));
    y := Next(x3, DrainPop(PopPublish));
  }

  /** One drain that has consumed `k` copies of `a`, each right after it was published. */
  ghost predicate KeepsUp<T(!new)>(x: Exchange<T>, size: nat, modulus: nat, a: T, k: nat)
    requires 0 < size < modulus
  {
    && Reachable(x, size, modulus) && SpscSafety.Inv(x.ring) && Quiet(x.ring)
    && x.ring.size == size && x.ring.modulus == modulus
    && |x.ring.pushed| == |x.ring.popped| == k && AllAre(x.ring.pushed, a) && x.drainer.Draining?
  }

  lemma StartKeepingUp<T(!new)>(size: nat, modulus: nat, a: T) returns (x: Exchange<T>)
    requires 0 < size < modulus
    ensures KeepsUp(x, size, modulus, a, 0)
  {
    var empty := Initial<T>(size, modulus);
    assert Run(empty, []) == Some(empty);
    InitialInv<T>(size, modulus);
    ReachNext(empty, size, modulus, DrainBegin(a));
    x := Next(empty, DrainBegin(a));
  }

  lemma KeepOnUp<T(!new)>(x: Exchange<T>, size: nat, modulus: nat, a: T, k: nat) returns (y: Exchange<T>)
    requires 0 < size < modulus && KeepsUp(x, size, modulus, a, k) && k + 1 < modulus
    ensures KeepsUp(y, size, modulus, a, k + 1)
  {
    hide Reachable;
    PushActs(x, size, modulus, a);
    PushCallAppends(x.ring, a);
    PushCallIsSound(x.ring, a);
    var x1 := x.(ring := PushCall(x.ring, a));
    ModUnique(k, modulus, 0, k);
    ModUnique(k + 1, modulus, 0, k + 1);
    assert CellAt(x1.ring, x1.ring.head) == Some(a);
    PopCallTakes(x1.ring);
    y := PopActs(x1, size, modulus, a);
    WrappedSum(k, 1, modulus);
    assert y.ring == PopCall(x1.ring);
    hide SpscSafety.Inv, PopCall, PushCall;
  }

  lemma {:induction false} KeepUp<T(!new)>(size: nat, modulus: nat, a: T, k: nat) returns (x: Exchange<T>)
    requires 0 < size < modulus && k < modulus
    ensures KeepsUp(x, size, modulus, a, k)
    decreases k
  {
    hide KeepsUp;
    if k == 0 {
      x := StartKeepingUp(size, modulus, a);
    } else {
      var y := KeepUp(size, modulus, a, k - 1);
      x := KeepOnUp(y, size, modulus, a, k - 1);
    }
  }

  /** If the last index and the first share a slot, a drain can end with a value that a push has written
      there but not published, in place of the latest published one. */
  lemma UnpublishedWins<T(!new)>(size: nat, modulus: nat, a: T, b: T) returns (x: Exchange<T>)
    requires 1 < size < modulus && (modulus - 1) % size == 0 && a != b
    ensures Reachable(x, size, modulus) && x.ring.Sized() && Enabled(x, DrainPop(PopLoadTail))
    ensures Next(x, DrainPop(PopLoadTail)).drainer.Finished? && !HoldsLatest(Next(x, DrainPop(PopLoadTail)))
  {
    var last := modulus - 1;
    var x0 := KeepUp(size, modulus, a, last);
    hide Reachable;
    PushActs(x0, size, modulus, a);
    PushCallAppends(x0.ring, a);
    ModUnique(last, modulus, 0, last);
    ModUnique(modulus, modulus, 1, 0);
    var x1 := x0.(ring := PushCall(x0.ring, a));
    x := PopsUnpublished(x1, size, modulus, a, b);
  }

  lemma PopsUnpublished<T(!new)>(x1: Exchange<T>, size: nat, modulus: nat, a: T, b: T) returns (x: Exchange<T>)
    requires 1 < size < modulus && (modulus - 1) % size == 0 && a != b
    requires Reachable(x1, size, modulus) && CountInv(x1.ring) && Quiet(x1.ring) && x1.drainer.Draining?
    requires x1.ring.size == size && x1.ring.modulus == modulus
    requires |x1.ring.pushed| == modulus && |x1.ring.popped| == modulus - 1 && x1.ring.pushed[modulus - 1] == a
    requires x1.ring.tail == 0 && x1.ring.head == modulus - 1
    ensures Reachable(x, size, modulus) && x.ring.Sized() && Enabled(x, DrainPop(PopLoadTail))
    ensures Next(x, DrainPop(PopLoadTail)).drainer.Finished? && !HoldsLatest(Next(x, DrainPop(PopLoadTail)))
  {
    hide Reachable;
    ModUnique(0, size, 0, 0);
    ModUnique(modulus, modulus, 1, 0);
    var x2 := WriteActs(x1, size, modulus, b);
    var x3 := PopActs(x2, size, modulus, b);
    ReachNext(x3, size, modulus, DrainPop(PopLoadHead));
    x := Next(x3, DrainPop(PopLoadHead));
  }

  /** Every drain ends with the latest published value, through any number of index overflows, if and
      only if the ring has one slot or its size does not divide the largest index. */
  lemma LatestWinsForever<T(!new)>(size: nat, modulus: nat, a: T, b: T)
    requires 0 < size < modulus && a != b
    ensures (forall x: Exchange<T>, access :: Reachable(x, size, modulus) && x.ring.Sized()
               && Enabled(x, DrainPop(access)) && Next(x, DrainPop(access)).drainer.Finished?
               ==> HoldsLatest(Next(x, DrainPop(access))))
        <==> size == 1 || (modulus - 1) % size != 0
  {
    if size == 1 || (modulus - 1) % size != 0 {
      forall x: Exchange<T>, access | Reachable(x, size, modulus) && x.ring.Sized()
        && Enabled(x, DrainPop(access)) && Next(x, DrainPop(access)).drainer.Finished?
        ensures HoldsLatest(Next(x, DrainPop(access)))
      {
        LatestWins(x, size, modulus, access);
      }
    } else {
      var x := UnpublishedWins(size, modulus, a, b);
    }
  }

  // A whole drain

  lemma {:induction false} RunAppend<T>(x: Exchange<T>, first: seq<Action<T>>, y: Exchange<T>, second: seq<Action<T>>)
    requires x.ring.Sized() && y.ring.Sized() && Run(x, first) == Some(y)
    ensures Run(x, first + second) == Run(y, second)
    decreases |second|
  {
    if second == [] {
      assert first + second == first;
    } else {
      hide Next, Enabled;
      var last := |second| - 1;
      assert (first + second)[..|first + second| - 1] == first + second[..last];
      RunAppend(x, first, y, second[..last]);
    }
  }

  lemma RunTwo<T>(x: Exchange<T>, a: Action<T>, b: Action<T>)
    requires x.ring.Sized() && Enabled(x, a) && Enabled(Next(x, a), b)
    ensures Run(x, [a, b]) == Some(Next(Next(x, a), b))
  {
    hide Next, Enabled;
    assert [a, b][..1] == [a] && [a][..0] == [];
    assert Run(x, [a]) == Some(Next(x, a));
  }

  /** The two loads of a pop inside a drain: the drain ends if and only if the queue is empty. */
  lemma DrainLoads<T>(x: Exchange<T>)
    requires CountInv(x.ring) && x.ring.Sized() && x.drainer.Draining? && x.ring.consumer.Waiting?
    ensures Run(x, [DrainPop(PopLoadHead), DrainPop(PopLoadTail)])
         == Some(if Queue(x.ring) == []
                 then Exchange(x.ring, Finished(x.drainer.start, x.drainer.original,
                                                x.drainer.target, x.drainer.updated))
                 else Exchange(x.ring.(consumer := MayRead(x.ring.head)), x.drainer))
  {
    WrappedDifference(|x.ring.pushed|, |x.ring.popped|, x.ring.modulus);
    ModUnique(0, x.ring.modulus, 0, 0);
    hide Run;
    RunTwo(x, DrainPop(PopLoadHead), DrainPop(PopLoadTail));
  }

  /** A drain after one more pop: the oldest value has become the target. */
  function Popped<T>(x: Exchange<T>): (y: Exchange<T>)
    requires x.ring.Sized() && |x.ring.popped| < |x.ring.pushed| && x.drainer.Draining?
    ensures y.ring.Sized() && y.drainer.Draining?
  {
    Exchange(x.ring.(head := (|x.ring.popped| + 1) % x.ring.modulus, popped := x.ring.popped + [Queue(x.ring)[0]]),
             Draining(x.drainer.start, x.drainer.original, Queue(x.ring)[0], true))
  }

  function PopActions<T>(): seq<Action<T>> {
    [DrainPop(PopLoadHead), DrainPop(PopLoadTail)] + [DrainPop(PopRead), DrainPop(PopPublish)]
  }

  lemma DrainReads<T>(x: Exchange<T>, y: Exchange<T>)
    requires SpscSafety.Inv(x.ring) && x.ring.Sized() && x.drainer.Draining? && x.ring.consumer.Waiting?
    requires Queue(x.ring) != [] && y == Exchange(x.ring.(consumer := MayRead(x.ring.head)), x.drainer)
    ensures Enabled(Next(y, DrainPop(PopRead)), DrainPop(PopPublish))
    ensures Next(Next(y, DrainPop(PopRead)), DrainPop(PopPublish)) == Popped(x)
  {
    var h := |x.ring.popped|;
    assert CellAt(x.ring, x.ring.head) == Some(x.ring.pushed[h]);
    WrappedSum(h, 1, x.ring.modulus);
    hide SpscSafety.Inv;
  }

  /** The four accesses of a pop inside a drain that finds a value. */
  lemma DrainTakes<T>(x: Exchange<T>)
    requires SpscSafety.Inv(x.ring) && x.ring.Sized() && x.drainer.Draining? && x.ring.consumer.Waiting?
    requires Queue(x.ring) != []
    ensures Run(x, PopActions()) == Some(Popped(x))
  {
    DrainLoads(x);
    var y := Exchange(x.ring.(consumer := MayRead(x.ring.head)), x.drainer);
    DrainReads(x, y);
    hide SpscSafety.Inv, Run, Next;
    RunTwo(y, DrainPop(PopRead), DrainPop(PopPublish));
    RunAppend(x, [DrainPop(PopLoadHead), DrainPop(PopLoadTail)], y, [DrainPop(PopRead), DrainPop(PopPublish)]);
  }

  lemma PoppedIsSound<T>(x: Exchange<T>)
    requires SpscSafety.Inv(x.ring) && x.ring.Sized() && x.drainer.Draining? && x.ring.consumer.Waiting?
    requires Queue(x.ring) != []
    ensures SpscSafety.Inv(Popped(x).ring) && Queue(Popped(x).ring) == Queue(x.ring)[1..]
  {
    PopCallTakes(x.ring);
  }

  /** What the rest of a drain leaves: everything consumed, and the latest value as the target. */
  ghost predicate Drained<T>(x: Exchange<T>, y: Exchange<T>)
    requires |x.ring.popped| <= |x.ring.pushed| && x.drainer.Draining?
  {
    var q := Queue(x.ring);
    && y.ring.pushed == x.ring.pushed && y.ring.popped == x.ring.popped + q
    && y.drainer == Finished(x.drainer.start, x.drainer.original,
                             if q == [] then x.drainer.target else q[|q| - 1], x.drainer.updated || q != [])
  }

  lemma DrainedNext<T>(x: Exchange<T>, y: Exchange<T>)
    requires SpscSafety.Inv(x.ring) && x.ring.Sized() && x.drainer.Draining? && x.ring.consumer.Waiting?
    requires Queue(x.ring) != [] && |Popped(x).ring.popped| <= |Popped(x).ring.pushed| && Drained(Popped(x), y)
    ensures Drained(x, y)
  {
    var q := Queue(x.ring);
    assert Queue(Popped(x).ring) == q[1..];
    assert x.ring.popped + [q[0]] + q[1..] == x.ring.popped + q;
    hide SpscSafety.Inv;
  }

  /** The rest of a drain, with no access of the producer in between. */
  lemma {:induction false} DrainRest<T>(x: Exchange<T>) returns (actions: seq<Action<T>>)
    requires SpscSafety.Inv(x.ring) && x.ring.Sized() && x.drainer.Draining? && x.ring.consumer.Waiting?
    ensures forall k :: 0 <= k < |actions| ==> actions[k].DrainPop?
    ensures Run(x, actions).Some? && Drained(x, Run(x, actions).value)
    decreases |Queue(x.ring)|
  {
    CountBounds(x.ring);
    if Queue(x.ring) == [] {
      DrainLoads(x);
      actions := [DrainPop(PopLoadHead), DrainPop(PopLoadTail)];
      assert x.ring.popped + [] == x.ring.popped;
    } else {
      DrainTakes(x);
      PoppedIsSound(x);
      var rest := DrainRest(Popped(x));
      DrainedNext(x, Run(Popped(x), rest).value);
      hide Run, SpscSafety.Inv, Drained, Popped;
      RunAppend(x, PopActions(), Popped(x), rest);
      actions := PopActions() + rest;
    }
  }

  /** After a drain has returned the next one can begin. */
  lemma DrainReturns<T>(x: Exchange<T>)
    requires x.ring.Sized() && x.drainer.Finished?
    ensures Enabled(x, DrainReturn) && Next(x, DrainReturn).drainer.Inactive? && Next(x, DrainReturn).ring == x.ring
  {
  }

  /** A whole `drain_to`, with no access of the producer in between: the target becomes the latest published
      value, and the drain reports an update, if and only if anything was queued; everything is consumed. */
  lemma DrainCall<T>(x: Exchange<T>, target: T) returns (actions: seq<Action<T>>)
    requires SpscSafety.Inv(x.ring) && x.ring.Sized() && x.drainer.Inactive? && x.ring.consumer.Waiting?
    ensures forall k :: 0 <= k < |actions| ==> !actions[k].Push?
    ensures Run(x, actions).Some?
    ensures var y, q := Run(x, actions).value, Queue(x.ring);
            && y.ring.pushed == x.ring.pushed == y.ring.popped && y.drainer.Finished?
            && y.drainer.target == (if q == [] then target else q[|q| - 1])
            && (y.drainer.updated <==> q != [])
  {
    var y := Next(x, DrainBegin(target));
    var first: seq<Action<T>> := [DrainBegin(target)];
    assert first[..0] == [] && Run(x, first) == Some(y);
    var rest := DrainRest(y);
    RunAppend(x, first, y, rest);
    actions := first + rest;
    assert x.ring.popped + Queue(x.ring) == x.ring.pushed;
  }
}
