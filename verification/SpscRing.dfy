/** The ring object itself: what one thread does between two interruptions. */
module SpscRings {
  import opened Words
  import opened Wrappers
  import opened NumberTheory
  import opened SpscProtocol
  import opened SpscCounting
  import opened SpscSafety
  import opened SpscCalls

  datatype SpscError = Full | EmptyRing | InsufficientData

  /** What an uninterrupted push means for the queue. */
  lemma PushFacts<T>(s: State<T>, value: T)
    requires s.Sized() && s.producer.Resting?
    ensures CountInv(s) ==>
              var s' := PushCall(s, value);
              && CountInv(s')
              && (s'.pushed == s.pushed <==> |Queue(s)| == s.size)
              && Queue(s') == if s'.pushed == s.pushed then Queue(s) else Queue(s) + [value]
    ensures Inv(s) && Continuous(|s.pushed|, s.size, s.modulus) ==> Inv(PushCall(s, value))
  {
    if CountInv(s) {
      PushCallAppends(s, value);
    }
    if Inv(s) && Continuous(|s.pushed|, s.size, s.modulus) {
      PushCallIsSound(s, value);
    }
    hide PushCall, Inv;
  }

  class SpscRing<T> {
    const size: nat
    const modulus: nat
    const cells: array<Option<T>>
    var head: nat
    var tail: nat
    ghost var pushed: seq<T>
    ghost var popped: seq<T>

    /** The state of the protocol, between two calls of either side. */
    ghost function View(): (s: State<T>)
      reads this, cells
      ensures s.producer.Resting? && s.consumer.Waiting?
    {
      State(size, modulus, head, tail, cells[..], Resting, Waiting, pushed, popped)
    }

    ghost predicate Valid()
      reads this, cells
    {
      View().Sized()
    }

    constructor (size: nat, modulus: nat)
      requires 0 < size < modulus
      ensures fresh(cells) && View() == Initial(size, modulus) && Inv(View())
    {
      this.size, this.modulus := size, modulus;
      cells := new Option<T>[size](_ => None);
      head, tail, pushed, popped := 0, 0, [], [];
      new;
      assert cells[..] == seq(size, _ => None);
      InitialInv<T>(size, modulus);
    }

    method Len() returns (len: nat)
      requires Valid()
      ensures len == WrappingSub(tail, head, modulus)
      ensures CountInv(View()) ==> len == |Queue(View())|
    {
      len := WrappingSub(tail, head, modulus);
      if CountInv(View()) {
        WrappedDifference(|pushed|, |popped|, modulus);
      }
    }

    method CapacityLeft() returns (left: nat)
      requires Valid()
      ensures left <= size
      ensures CountInv(View()) ==> left == size - |Queue(View())|
    {
      var len := Len();
      left := size - Min(len, size);
    }

    /** `push`: exactly the four accesses of the protocol. The value is queued unless the ring is full; as
        long as the slots are told apart the queued values stay in theirs. */
    method Push(value: T) returns (r: Result<(), T>)
      requires Valid()
      modifies this`tail, this`pushed, cells
      ensures Valid() && View() == PushCall(old(View()), value)
      ensures r == if pushed == old(pushed) then Err(value) else Ok(())
      ensures old(CountInv(View())) ==>
                && CountInv(View())
                && (r.Ok? <==> |old(Queue(View()))| < size)
                && Queue(View()) == if r.Ok? then old(Queue(View())) + [value] else old(Queue(View()))
      ensures old(Inv(View()) && Continuous(|pushed|, size, modulus)) ==> Inv(View())
    {
      PushFacts(View(), value);
      var tail0 := tail;
      var head0 := head;
      if WrappingSub(tail0, head0, modulus) == size {
        return Err(value);
      }
      cells[tail0 % size] := Some(value);
      tail := WrappingAdd(tail0, 1, modulus);
      pushed := pushed + [value];
      r := Ok(());
    }

    /** `pop`; reading a slot needs the queue to be intact. */
    method Pop() returns (r: Option<T>)
      requires Inv(View())
      modifies this`head, this`popped
      ensures Inv(View())
      ensures View() == if old(Queue(View())) == [] then old(View())
                        else old(View()).(head := (|old(popped)| + 1) % modulus,
                                          popped := old(popped) + [old(Queue(View())[0])])
      ensures r == if old(Queue(View())) == [] then None else Some(old(Queue(View()))[0])
      ensures Queue(View()) == if r.None? then [] else old(Queue(View()))[1..]
    {
      WrappedDifference(|pushed|, |popped|, modulus);
      ModUnique(0, modulus, 0, 0);
      var head0 := head;
      var tail0 := tail;
      if tail0 == head0 {
        return None;
      }
      ghost var h := |popped|;
      assert cells[..][Slot(h, size, modulus)] == Some(pushed[h]);
      r := cells[head0 % size];
      WrappedSum(h, 1, modulus);
      head := WrappingAdd(head0, 1, modulus);
      popped := popped + [r.value];
    }

    /** `pop_slice_copy`: all `wanted` oldest values, or none. */
    method PopSliceCopy(wanted: nat) returns (r: Result<seq<T>, SpscError>)
      requires Inv(View())
      modifies this`head, this`popped
      ensures Inv(View())
      ensures r == if |old(Queue(View()))| < wanted then Err(InsufficientData) else Ok(old(Queue(View()))[..wanted])
      ensures View() == if r.Err? then old(View())
                        else old(View()).(head := (|old(popped)| + wanted) % modulus, popped := old(popped) + r.value)
    {
      WrappedDifference(|pushed|, |popped|, modulus);
      var head0 := head;
      var tail0 := tail;
      if WrappingSub(tail0, head0, modulus) < wanted {
        return Err(InsufficientData);
      }
      var taken := CopySlice(head0, wanted);
      WrappedSum(|popped|, wanted, modulus);
      head := WrappingAdd(head0, wanted, modulus);
      popped := popped + taken;
      r := Ok(taken);
    }

    method CopySlice(from: nat, wanted: nat) returns (taken: seq<T>)
      requires Inv(View()) && from == head && wanted <= |Queue(View())|
      ensures taken == Queue(View())[..wanted]
    {
      ghost var h := |popped|;
      taken := [];
      for i := 0 to wanted
        invariant taken == pushed[h..h + i]
      {
        WrappedSum(h, i, modulus);
        assert cells[..][Slot(h + i, size, modulus)] == Some(pushed[h + i]);
        taken := taken + [cells[WrappingAdd(from, i, modulus) % size].value];
      }
    }

    /** Dropping the ring releases exactly the queued values, oldest first, in as many rounds. */
    method Drop() returns (dropped: seq<T>)
      requires Inv(View())
      ensures dropped == Queue(View()) && |dropped| <= size
    {
      var i := head;
      dropped := [];
      ghost var k := |popped|;
      ModUnique(0, modulus, 0, 0);
      WrappedDifference(|pushed|, |popped|, modulus);
      while i != tail
        invariant |popped| <= k <= |pushed| && i == k % modulus
        invariant dropped == pushed[|popped|..k]
        decreases |pushed| - k
      {
        assert k < |pushed|;
        assert cells[..][Slot(k, size, modulus)] == Some(pushed[k]);
        dropped := dropped + [cells[i % size].value];
        WrappedSum(k, 1, modulus);
        i := WrappingAdd(i, 1, modulus);
        k := k + 1;
      }
      if k < |pushed| {
        ModApart(k, |pushed|, modulus);
      }
    }
  }
}
