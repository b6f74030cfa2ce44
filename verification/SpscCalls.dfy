/** Uninterrupted calls on the ring, and the exact condition under which it survives the overflow
    of its indices. */
module SpscCalls {
  import opened Wrappers
  import opened NumberTheory
  import opened SpscProtocol
  import opened SpscCounting
  import opened SpscSafety

  /** Both sides are between two calls. */
  predicate Quiet<T>(s: State<T>) {
    s.Sized() && s.producer.Resting? && s.consumer.Waiting?
  }

  /** A whole `push`, step by step. */
  function PushCall<T>(s: State<T>, value: T): (s': State<T>)
    requires s.Sized() && s.producer.Resting?
    ensures s'.Sized() && s'.producer.Resting? && s'.size == s.size && s'.modulus == s.modulus
  {
    var loaded := Next(Next(s, PushLoadTail(value)), PushLoadHead);
    if loaded.producer.Resting? then loaded else Next(Next(loaded, PushWrite), PushPublish)
  }

  /** A whole `pop`, step by step. */
  function PopCall<T>(s: State<T>): (s': State<T>)
    requires s.Sized() && s.consumer.Waiting?
    ensures s'.Sized() && s'.size == s.size && s'.modulus == s.modulus
  {
    var loaded := Next(Next(s, PopLoadHead), PopLoadTail);
    if loaded.consumer.Waiting? then loaded
    else
      var read := Next(loaded, PopRead);
      if read.consumer.HasRead? then Next(read, PopPublish) else read
  }

  lemma PushCallReaches<T(!new)>(s: State<T>, size: nat, modulus: nat, value: T)
    requires 0 < size < modulus && Reachable(s, size, modulus) && s.Sized() && s.producer.Resting?
    ensures Reachable(PushCall(s, value), size, modulus)
  {
    hide Reachable;
    ReachableNext(s, size, modulus, PushLoadTail(value));
    var s1 := Next(s, PushLoadTail(value));
    ReachableNext(s1, size, modulus, PushLoadHead);
    var s2 := Next(s1, PushLoadHead);
    if !s2.producer.Resting? {
      ReachableNext(s2, size, modulus, PushWrite);
      ReachableNext(Next(s2, PushWrite), size, modulus, PushPublish);
    }
  }

  lemma PopCallReaches<T(!new)>(s: State<T>, size: nat, modulus: nat)
    requires 0 < size < modulus && Reachable(s, size, modulus) && s.Sized() && s.consumer.Waiting?
    ensures Reachable(PopCall(s), size, modulus)
  {
    hide Reachable;
    ReachableNext(s, size, modulus, PopLoadHead);
    var s1 := Next(s, PopLoadHead);
    ReachableNext(s1, size, modulus, PopLoadTail);
    var s2 := Next(s1, PopLoadTail);
    if !s2.consumer.Waiting? {
      ReachableNext(s2, size, modulus, PopRead);
      if Next(s2, PopRead).consumer.HasRead? {
        ReachableNext(Next(s2, PopRead), size, modulus, PopPublish);
      }
    }
  }

  /** An uninterrupted push appends, or is refused by a full ring, whatever the size of the ring. */
  lemma PushCallAppends<T>(s: State<T>, value: T)
    requires CountInv(s) && s.producer.Resting?
    ensures CountInv(PushCall(s, value))
    ensures PushCall(s, value) ==
      if |Queue(s)| == s.size then s
      else s.(cells := s.cells[s.tail % s.size := Some(value)], tail := (|s.pushed| + 1) % s.modulus,
              pushed := s.pushed + [value])
  {
    WrappedDifference(|s.pushed|, |s.popped|, s.modulus);
    WrappedSum(|s.pushed|, 1, s.modulus);
  }

  /** As long as the slots are told apart an uninterrupted push leaves every queued value in its slot. */
  lemma PushCallIsSound<T>(s: State<T>, value: T)
    requires Inv(s) && s.producer.Resting? && Continuous(|s.pushed|, s.size, s.modulus)
    ensures Inv(PushCall(s, value))
  {
    hide Inv, NextProducer, NextConsumer;
    SoundIsSized(s);
    ProducerKeepsInv(s, PushLoadTail(value));
    var s1 := Next(s, PushLoadTail(value));
    LoadsTail(s, value);
    ProducerKeepsInv(s1, PushLoadHead);
    var s2 := Next(s1, PushLoadHead);
    if !s2.producer.Resting? {
      LoadsHead(s1);
      ProducerKeepsInv(s2, PushWrite);
      Writes(s2);
      ProducerKeepsInv(Next(s2, PushWrite), PushPublish);
    }
  }

  lemma SoundIsSized<T>(s: State<T>)
    requires Inv(s)
    ensures s.Sized()
  {
  }

  lemma LoadsTail<T>(s: State<T>, value: T)
    requires s.Sized() && s.producer.Resting?
    ensures Next(s, PushLoadTail(value)) == s.(producer := KnowsTail(value, s.tail))
  {
  }

  lemma LoadsHead<T>(s: State<T>)
    requires s.Sized() && s.producer.KnowsTail? && !Next(s, PushLoadHead).producer.Resting?
    ensures Next(s, PushLoadHead).producer.MayWrite? && Next(s, PushLoadHead).pushed == s.pushed
  {
  }

  lemma Writes<T>(s: State<T>)
    requires s.Sized() && s.producer.MayWrite?
    ensures Next(s, PushWrite).producer.HasWritten? && Next(s, PushWrite).pushed == s.pushed
  {
  }

  /** An uninterrupted pop takes the oldest value, or finds the ring empty. */
  lemma PopCallTakes<T>(s: State<T>)
    requires Inv(s) && s.consumer.Waiting?
    ensures Inv(PopCall(s))
    ensures PopCall(s) ==
      if Queue(s) == [] then s
      else s.(head := (|s.popped| + 1) % s.modulus, popped := s.popped + [Queue(s)[0]])
  {
    var s1 := Next(s, PopLoadHead);
    PopKeepsInv(s, PopLoadHead);
    var s2 := Next(s1, PopLoadTail);
    PopKeepsInv(s1, PopLoadTail);
    WrappedDifference(|s.pushed|, |s.popped|, s.modulus);
    ModUnique(0, s.modulus, 0, 0);
    WrappedSum(|s.popped|, 1, s.modulus);
    if !s2.consumer.Waiting? {
      assert CellAt(s2, s.head) == Some(s.pushed[|s.popped|]);
      PopKeepsInv(s2, PopRead);
      PopKeepsInv(Next(s2, PopRead), PopPublish);
    }
  }

  // Slices

  function SliceReads<T>(count: nat): (steps: seq<Step<T>>)
    ensures |steps| == count && forall k :: 0 <= k < count ==> steps[k] == SliceRead
  {
    seq(count, _ => SliceRead)
  }

  lemma RunSnoc<T>(s: State<T>, steps: seq<Step<T>>, s1: State<T>, step: Step<T>)
    requires s.Sized() && Run(s, steps) == Some(s1) && Enabled(s1, step)
    ensures Run(s, steps + [step]) == Some(Next(s1, step))
  {
    assert (steps + [step])[..|steps|] == steps;
  }

  /** After the two loads and `count` reads the slice holds the oldest `count` values. */
  lemma {:induction false} SliceReadsTake<T>(s: State<T>, wanted: nat, count: nat)
    requires Inv(s) && s.Sized() && s.consumer.Waiting? && count <= wanted <= |Queue(s)|
    ensures Run(s, [SliceLoadHead(wanted), SliceLoadTail] + SliceReads(count))
         == Some(s.(consumer := SliceReading(s.head, wanted, Queue(s)[..count])))
    decreases count
  {
    var loads := [SliceLoadHead(wanted), SliceLoadTail];
    if count == 0 {
      SliceLoads(s, wanted);
      assert loads + SliceReads(0) == loads;
      assert Queue(s)[..0] == [];
    } else {
      SliceReadsTake(s, wanted, count - 1);
      var s1 := s.(consumer := SliceReading(s.head, wanted, Queue(s)[..count - 1]));
      RunSnoc(s, loads + SliceReads(count - 1), s1, SliceRead);
      assert loads + SliceReads(count - 1) + [SliceRead] == loads + SliceReads(count);
      SliceReadNext(s, wanted, count - 1);
    }
  }

  /** The two loads of a slice: it goes on if and only if as many values as wanted are queued. */
  lemma SliceLoads<T>(s: State<T>, wanted: nat)
    requires CountInv(s) && s.Sized() && s.consumer.Waiting?
    ensures Run(s, [SliceLoadHead(wanted), SliceLoadTail])
         == Some(if |Queue(s)| < wanted then s else s.(consumer := SliceReading(s.head, wanted, [])))
  {
    WrappedDifference(|s.pushed|, |s.popped|, s.modulus);
    var s1 := Next(s, SliceLoadHead(wanted));
    var first: seq<Step<T>>, second: seq<Step<T>> := [SliceLoadHead(wanted)], [SliceLoadTail];
    assert first[..0] == [];
    assert Run(s, first) == Some(s1);
    RunSnoc(s, first, s1, SliceLoadTail);
    assert first + second == [SliceLoadHead(wanted), SliceLoadTail];
    hide CountInv;
  }

  lemma SliceReadNext<T>(s: State<T>, wanted: nat, k: nat)
    requires Inv(s) && s.Sized() && s.consumer.Waiting? && k < wanted <= |Queue(s)|
    ensures Next(s.(consumer := SliceReading(s.head, wanted, Queue(s)[..k])), SliceRead)
         == s.(consumer := SliceReading(s.head, wanted, Queue(s)[..k + 1]))
  {
    var h := |s.popped|;
    WrappedSum(h, k, s.modulus);
    assert CellAt(s, WrappingAdd(s.head, k, s.modulus)) == Some(s.pushed[h + k]);
    assert Queue(s)[..k + 1] == Queue(s)[..k] + [s.pushed[h + k]];
    hide Inv;
  }

  /** The accesses of an uninterrupted `pop_slice_copy` take exactly the wanted values, the oldest first, or
      change nothing if fewer are queued. */
  lemma SliceCallTakes<T>(s: State<T>, wanted: nat)
    requires Inv(s) && s.Sized() && s.consumer.Waiting?
    ensures |Queue(s)| < wanted ==> Run(s, [SliceLoadHead(wanted), SliceLoadTail]) == Some(s)
    ensures wanted <= |Queue(s)| ==>
              Run(s, [SliceLoadHead(wanted), SliceLoadTail] + SliceReads(wanted) + [SlicePublish])
              == Some(s.(head := (|s.popped| + wanted) % s.modulus, popped := s.popped + Queue(s)[..wanted]))
  {
    if |Queue(s)| < wanted {
      SliceLoads(s, wanted);
    } else {
      SliceReadsTake(s, wanted, wanted);
      var s1 := s.(consumer := SliceReading(s.head, wanted, Queue(s)[..wanted]));
      RunSnoc(s, [SliceLoadHead(wanted), SliceLoadTail] + SliceReads(wanted), s1, SlicePublish);
      WrappedSum(|s.popped|, wanted, s.modulus);
      assert Next(s1, SlicePublish)
          == s.(head := (|s.popped| + wanted) % s.modulus, popped := s.popped + Queue(s)[..wanted]);
    }
  }

  // Overflow of the indices when the ring size does not divide the number of index values

  predicate AllAre<T(==)>(s: seq<T>, x: T) {
    forall i :: 0 <= i < |s| ==> s[i] == x
  }

  /** A reachable quiet ring that has published `t` and consumed `h` copies of `a`. */
  ghost predicate Uniform<T(!new)>(s: State<T>, size: nat, modulus: nat, a: T, t: nat, h: nat)
    requires 0 < size < modulus
  {
    && Reachable(s, size, modulus) && Inv(s) && Quiet(s) && s.size == size && s.modulus == modulus
    && |s.pushed| == t && |s.popped| == h && AllAre(s.pushed, a)
  }

  lemma {:induction false} ReachEmpty<T(!new)>(size: nat, modulus: nat, a: T, t: nat) returns (s: State<T>)
    requires 0 < size < modulus && t < modulus
    ensures Uniform(s, size, modulus, a, t, t)
    decreases t
  {
    if t == 0 {
      s := Initial(size, modulus);
      InitialInv<T>(size, modulus);
      assert Run(Initial<T>(size, modulus), []) == Some(s);
    } else {
      var s0 := ReachEmpty(size, modulus, a, t - 1);
      hide Reachable;
      PushCallReaches(s0, size, modulus, a);
      PushCallAppends(s0, a);
      PushCallIsSound(s0, a);
      var s1 := PushCall(s0, a);
      PopCallReaches(s1, size, modulus);
      PopCallTakes(s1);
      s := PopCall(s1);
    }
  }

  lemma {:induction false} ReachFilled<T(!new)>(size: nat, modulus: nat, a: T, h: nat, k: nat) returns (s: State<T>)
    requires 0 < size < modulus && h < modulus && h + k <= modulus && k <= size
    ensures Uniform(s, size, modulus, a, h + k, h)
    decreases k
  {
    if k == 0 {
      s := ReachEmpty(size, modulus, a, h);
    } else {
      var s0 := ReachFilled(size, modulus, a, h, k - 1);
      hide Reachable;
      PushCallReaches(s0, size, modulus, a);
      PushCallAppends(s0, a);
      PushCallIsSound(s0, a);
      s := PushCall(s0, a);
    }
  }

  /** The push at index 2^W starts over at slot 0, whatever that slot holds. */
  lemma PushAtOverflow<T>(s: State<T>, b: T)
    requires Inv(s) && Quiet(s) && |s.pushed| == s.modulus && |Queue(s)| < s.size
    ensures PushCall(s, b) == s.(cells := s.cells[0 := Some(b)], tail := 1, pushed := s.pushed + [b])
  {
    ModUnique(s.modulus, s.modulus, 1, 0);
    ModUnique(0, s.size, 0, 0);
    ModUnique(1, s.modulus, 0, 1);
    WrappedDifference(|s.pushed|, |s.popped|, s.modulus);
    assert s.tail == 0;
  }

  lemma PopCallRaw<T>(s: State<T>, v: T)
    requires Quiet(s) && s.head + 1 < s.modulus && s.tail != s.head && CellAt(s, s.head) == Some(v)
    ensures PopCall(s) == s.(head := s.head + 1, popped := s.popped + [v])
  {
    ModUnique(s.head + 1, s.modulus, 0, s.head + 1);
  }

  /** Popping up to index `i` after the overflow: the untouched slots still give `a`. */
  lemma {:induction false} DrainTo<T(!new)>(s: State<T>, size: nat, modulus: nat, a: T, i: nat) returns (r: State<T>)
    requires 0 < size < modulus && Reachable(s, size, modulus) && Quiet(s) && s.size == size && s.modulus == modulus
    requires AllAre(s.popped, a) && s.tail == 1 < s.head == |s.popped| <= i && i < modulus
    requires forall k :: s.head <= k < i ==> CellAt(s, k) == Some(a)
    ensures Reachable(r, size, modulus) && Quiet(r)
    ensures r == s.(head := i, popped := r.popped) && |r.popped| == i && AllAre(r.popped, a)
    decreases i - s.head
  {
    if s.head == i {
      r := s;
    } else {
      hide Reachable, PopCall;
      PopCallReaches(s, size, modulus);
      PopCallRaw(s, a);
      var s' := PopCall(s);
      assert forall k :: s'.head <= k < i ==> CellAt(s', k) == CellAt(s, k);
      r := DrainTo(s', size, modulus, a, i);
    }
  }

  /** The index in the last `size - 1` before the overflow whose slot is 0. */
  lemma SlotZeroIndex(size: nat, modulus: nat) returns (j: nat)
    requires 0 < size < modulus && modulus % size != 0
    ensures modulus - size < j < modulus && Slot(j, size, modulus) == 0
  {
    var r := modulus % size;
    j := modulus - r;
    ModUnique(j, modulus, 0, j);
    ModUnique(j, size, modulus / size, 0);
  }

  /** If the size does not divide the number of index values, some run overwrites a queued value and
      delivers another one in its place. */
  lemma OverflowBreaksFifo<T(!new)>(size: nat, modulus: nat, a: T, b: T) returns (s: State<T>)
    requires 0 < size < modulus && modulus % size != 0 && a != b
    ensures Reachable(s, size, modulus) && !(s.popped <= s.pushed)
  {
    if size == 1 { ModUnique(modulus, 1, modulus, 0); }
    var h := modulus - size + 1;
    var full := ReachFilled(size, modulus, a, h, size - 1);
    var j := SlotZeroIndex(size, modulus);
    PushCallReaches(full, size, modulus, b);
    PushAtOverflow(full, b);
    var broken := PushCall(full, b);
    ModUnique(h, modulus, 0, h);
    forall k | h <= k < j ensures CellAt(broken, k) == Some(a) {
      ModUnique(k, modulus, 0, k);
      SlotsApart(k, j, size, modulus);
      assert full.cells[Slot(k, size, modulus)] == Some(full.pushed[k]);
    }
    var late := DrainTo(broken, size, modulus, a, j);
    ModUnique(j, modulus, 0, j);
    PopCallReaches(late, size, modulus);
    s := BrokenPop(late, j, a, b);
  }

  lemma BrokenPop<T>(late: State<T>, j: nat, a: T, b: T) returns (s: State<T>)
    requires Quiet(late) && late.head == j == |late.popped| && late.tail != j && j < late.modulus
    requires CellAt(late, j) == Some(b) && a != b && j < |late.pushed| && late.pushed[j] == a
    ensures s == PopCall(late) && !(s.popped <= s.pushed)
  {
    s := PopCall(late);
    assert s.popped == late.popped + [b] && s.pushed == late.pushed;
    assert s.popped[j] == b;
  }

  /** The ring is a FIFO through any number of index overflows if and only if its size divides the
      number of index values of the machine. */
  lemma FifoForeverIffDivides<T(!new)>(size: nat, modulus: nat, a: T, b: T)
    requires 0 < size < modulus && a != b
    ensures (forall s: State<T> :: Reachable(s, size, modulus) ==> s.popped <= s.pushed) <==> modulus % size == 0
  {
    if modulus % size == 0 {
      forall s: State<T> | Reachable(s, size, modulus) ensures s.popped <= s.pushed {
        BoundedFifo(s, size, modulus);
      }
    } else {
      var s := OverflowBreaksFifo(size, modulus, a, b);
    }
  }

  // Sharing a slot

  lemma {:induction false} PopUniform<T(!new)>(s: State<T>, size: nat, modulus: nat, a: T, t: nat, h: nat, k: nat)
    returns (r: State<T>)
    requires 0 < size < modulus && Uniform(s, size, modulus, a, t, h) && h + k <= t
    ensures Uniform(r, size, modulus, a, t, h + k)
    decreases k
  {
    if k == 0 {
      r := s;
    } else {
      var s0 := PopUniform(s, size, modulus, a, t, h, k - 1);
      hide Reachable;
      PopCallReaches(s0, size, modulus);
      PopCallTakes(s0);
      r := PopCall(s0);
    }
  }

  /** A push that may write and a pop that may read, both past their checks, from a quiet ring. */
  lemma BothSides<T(!new)>(s: State<T>, size: nat, modulus: nat, b: T) returns (r: State<T>)
    requires 0 < size < modulus && Reachable(s, size, modulus) && CountInv(s) && Quiet(s)
    requires s.size == size && s.modulus == modulus && 0 < |Queue(s)| < size && s.tail != s.head
    ensures Reachable(r, size, modulus)
    ensures r.producer == MayWrite(b, s.tail) && r.consumer == MayRead(s.head)
  {
    hide Reachable;
    WrappedDifference(|s.pushed|, |s.popped|, modulus);
    ReachableNext(s, size, modulus, PushLoadTail(b));
    var s1 := Next(s, PushLoadTail(b));
    ReachableNext(s1, size, modulus, PushLoadHead);
    var s2 := Next(s1, PushLoadHead);
    ReachableNext(s2, size, modulus, PopLoadHead);
    var s3 := Next(s2, PopLoadHead);
    ReachableNext(s3, size, modulus, PopLoadTail);
    r := Next(s3, PopLoadTail);
  }

  lemma OverflowSharesSlot<T(!new)>(size: nat, modulus: nat, a: T) returns (s: State<T>)
    requires 0 < size < modulus && modulus % size != 0
    ensures Reachable(s, size, modulus) && s.producer.MayWrite? && s.consumer.MayRead?
    ensures s.producer.tail % size == s.consumer.head % size
  {
    if size == 1 { ModUnique(modulus, 1, modulus, 0); }
    hide Reachable;
    var h := modulus - size + 1;
    var full := ReachFilled(size, modulus, a, h, size - 1);
    var j := SlotZeroIndex(size, modulus);
    var late := PopUniform(full, size, modulus, a, modulus, h, j - h);
    ModUnique(j, modulus, 0, j);
    ModUnique(modulus, modulus, 1, 0);
    ModUnique(0, size, 0, 0);
    s := BothSides(late, size, modulus, a);
  }

  /** A push and a pop never work on the same slot, through any number of index overflows, if and only if
      the ring size divides the number of index values of the machine. */
  lemma ApartForeverIffDivides<T(!new)>(size: nat, modulus: nat, a: T)
    requires 0 < size < modulus
    ensures (forall s: State<T> :: Reachable(s, size, modulus) && s.producer.MayWrite? && s.consumer.MayRead?
               ==> s.producer.tail % size != s.consumer.head % size)
        <==> modulus % size == 0
  {
    if modulus % size == 0 {
      forall s: State<T> | Reachable(s, size, modulus) && s.producer.MayWrite? && s.consumer.MayRead?
        ensures s.producer.tail % size != s.consumer.head % size
      {
        BoundedFifo(s, size, modulus);
      }
    } else {
      var s := OverflowSharesSlot(size, modulus, a);
    }
  }
}
