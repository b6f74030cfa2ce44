/** The event bus object, one call at a time. */
module EventBusObjects {
  import opened Words
  import opened Wrappers
  import opened Sequences
  import opened SpscCounting
  import opened SpscSafety
  import opened SpscCalls
  import opened SpscRings
  import EB = EventBuses

  class EventBus {
    const ring: SpscRing<EB.KernelEvent>
    var overflowCounter: nat

    ghost function Repr(): set<object> {
      {this, ring, ring.cells}
    }

    ghost predicate Valid()
      reads Repr()
    {
      CountInv(ring.View()) && EB.RESERVED_SLOTS < ring.size
    }

    /** Every waiting event is still in its slot. */
    ghost predicate Sound()
      reads Repr()
    {
      Inv(ring.View())
    }

    /** The events waiting for the consumer, oldest first. */
    ghost function Waiting(): seq<EB.KernelEvent>
      reads Repr()
      requires Valid()
    {
      Queue(ring.View())
    }

    constructor (size: nat, modulus: nat)
      requires EB.RESERVED_SLOTS < size < modulus
      ensures Valid() && Sound() && fresh(Repr()) && Waiting() == [] && overflowCounter == 0
    {
      ring := new SpscRing(size, modulus);
      overflowCounter := 0;
    }

    /** An event is dropped when the ring is full, or when it is ordinary and only reserved slots are
        left; every drop is counted. */
    method Emit(event: EB.KernelEvent)
      requires Valid()
      modifies Repr()
      ensures Valid()
      ensures old(Sound() && Continuous(|ring.pushed|, ring.size, ring.modulus)) ==> Sound()
      ensures var free := ring.size - |old(Waiting())|;
              var dropped := free == 0 || (free <= EB.RESERVED_SLOTS && !event.IsFatal());
              && Waiting() == (if dropped then old(Waiting()) else old(Waiting()) + [event])
              && overflowCounter == (if dropped then (old(overflowCounter) + 1) % U32_VALUES else old(overflowCounter))
      ensures |old(Waiting())| < ring.size &&
              (event.AudioThreadStopped? || event.HostAdapterBlockSizeChanged? || event.SpscOverflow?
               || |old(Waiting())| + 8 < ring.size) ==>
                Waiting() == old(Waiting()) + [event] && overflowCounter == old(overflowCounter)
      ensures |old(Waiting())| + 8 >= ring.size &&
              !event.AudioThreadStopped? && !event.HostAdapterBlockSizeChanged? && !event.SpscOverflow? ==>
                Waiting() == old(Waiting()) && overflowCounter == (old(overflowCounter) + 1) % U32_VALUES
    {
      CountBounds(ring.View());
      assert event.IsFatal() <==>
        event.AudioThreadStopped? || event.HostAdapterBlockSizeChanged? || event.SpscOverflow?;
      hide Inv, CountInv, PushCall, Queue, Continuous, EB.KernelEvent.IsFatal;
      var capacityLeft := ring.CapacityLeft();
      if capacityLeft <= EB.RESERVED_SLOTS && !event.IsFatal() {
        overflowCounter := (overflowCounter + 1) % U32_VALUES;
        return;
      }
      var pushed := ring.Push(event);
      if pushed.Err? {
        overflowCounter := (overflowCounter + 1) % U32_VALUES;
      }
    }

    /** Hand every waiting event to the sink, in order. */
    method Drain() returns (delivered: seq<EB.KernelEvent>)
      requires Valid() && Sound()
      modifies Repr()
      ensures Valid() && Sound() && delivered == old(Waiting()) && Waiting() == []
      ensures overflowCounter == old(overflowCounter)
    {
      hide Inv, Queue, CountInv;
      delivered := [];
      while true
        invariant Valid() && Sound() && delivered + Waiting() == old(Waiting())
        invariant overflowCounter == old(overflowCounter)
        decreases |Waiting()|
      {
        ghost var waiting := Waiting();
        var event := ring.Pop();
        if event == None {
          break;
        }
        MoveFirst(delivered, waiting);
        delivered := delivered + [event.value];
      }
    }
  }
}
