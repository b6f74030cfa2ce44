/** The emergency slot: one writer hands (pointer, vtable) pairs to one drainer through two flags. */
module EmergencySlots {
  import opened Wrappers

  /** A non-null raw pointer. */
  type Ptr = nat

  datatype Writer<V> =
    | Away
    | SawVacant(obj: Ptr, vtable: V)
    | WroteVtable(obj: Ptr, vtable: V)
    | SetReady(obj: Ptr, vtable: V)

  datatype Drainer<V> =
    | Idle
    | SawPtr(ptr: Ptr)
    | SawReady(ptr: Ptr)
    | HasVtable(ptr: Ptr, vtable: V)
    | ClearedReady(ptr: Ptr, vtable: V)

  /** `ptr` is null when it is None; the vtable cell is uninitialised when it is None. The two
      histories are not part of the program. */
  datatype Slot<V> = Slot(
    ptr: Option<Ptr>,
    vtable: Option<V>,
    ready: bool,
    writer: Writer<V>,
    drainer: Drainer<V>,
    accepted: seq<(Ptr, V)>,
    drained: seq<(Ptr, V)>)

  function Initial<V>(): Slot<V> {
    Slot(None, None, false, Away, Idle, [], [])
  }

  datatype Step<V> =
    | PushLoad(obj: Ptr, vtable: V)
    | PushVtable
    | PushReady
    | PushPtr
    | DrainLoad
    | DrainReady
    | DrainVtable
    | DrainClearReady
    | DrainClearPtr

  predicate Enabled<V>(s: Slot<V>, step: Step<V>) {
    match step
    case PushLoad(_, _) => s.writer.Away?
    case PushVtable => s.writer.SawVacant?
    case PushReady => s.writer.WroteVtable?
    case PushPtr => s.writer.SetReady?
    case DrainLoad => s.drainer.Idle?
    case DrainReady => s.drainer.SawPtr?
    case DrainVtable => s.drainer.SawReady?
    case DrainClearReady => s.drainer.HasVtable?
    case DrainClearPtr => s.drainer.ClearedReady?
  }

  /** One atomic access. Reading an uninitialised vtable would be undefined; the model stops there. */
  function Next<V>(s: Slot<V>, step: Step<V>): Slot<V>
    requires Enabled(s, step)
  {
    match step
    case PushLoad(obj, vtable) => if s.ptr.None? then s.(writer := SawVacant(obj, vtable)) else s
    case PushVtable => s.(vtable := Some(s.writer.vtable), writer := WroteVtable(s.writer.obj, s.writer.vtable))
    case PushReady => s.(ready := true, writer := SetReady(s.writer.obj, s.writer.vtable))
    case PushPtr =>
      s.(ptr := Some(s.writer.obj), writer := Away, accepted := s.accepted + [(s.writer.obj, s.writer.vtable)])
    case DrainLoad => if s.ptr.None? then s else s.(drainer := SawPtr(s.ptr.value))
    case DrainReady => s.(drainer := if s.ready then SawReady(s.drainer.ptr) else Idle)
    case DrainVtable => if s.vtable.None? then s else s.(drainer := HasVtable(s.drainer.ptr, s.vtable.value))
    case DrainClearReady => s.(ready := false, drainer := ClearedReady(s.drainer.ptr, s.drainer.vtable))
    case DrainClearPtr =>
      s.(ptr := None, drainer := Idle, drained := s.drained + [(s.drainer.ptr, s.drainer.vtable)])
  }

  function Run<V>(s: Slot<V>, steps: seq<Step<V>>): Option<Slot<V>> {
    if steps == [] then Some(s)
    else
      var before := Run(s, steps[..|steps| - 1]);
      if before.Some? && Enabled(before.value, steps[|steps| - 1])
      then Some(Next(before.value, steps[|steps| - 1]))
      else None
  }

  // The invariant

  /** The pointer is set exactly while one accepted pair waits; then the cell holds its vtable. */
  ghost predicate Handoff<V>(s: Slot<V>) {
    if s.ptr.None? then s.accepted == s.drained
    else s.vtable.Some? && s.accepted == s.drained + [(s.ptr.value, s.vtable.value)]
  }

  ghost predicate WriterKnows<V>(s: Slot<V>) {
    && (!s.writer.Away? ==> s.ptr.None?)
    && (s.writer.WroteVtable? || s.writer.SetReady? ==> s.vtable == Some(s.writer.vtable))
    && (s.writer.SetReady? ==> s.ready)
  }

  ghost predicate DrainerKnows<V>(s: Slot<V>) {
    && (!s.drainer.Idle? ==> s.ptr == Some(s.drainer.ptr))
    && (s.drainer.HasVtable? || s.drainer.ClearedReady? ==> s.vtable == Some(s.drainer.vtable))
    && (s.ptr.Some? && !s.drainer.ClearedReady? ==> s.ready)
  }

  ghost predicate Inv<V>(s: Slot<V>) {
    Handoff(s) && WriterKnows(s) && DrainerKnows(s)
  }

  lemma InvKept<V>(s: Slot<V>, step: Step<V>)
    requires Inv(s) && Enabled(s, step)
    ensures Inv(Next(s, step))
  {
  }

  lemma {:induction false} RunInv<V>(steps: seq<Step<V>>)
    requires Run(Initial<V>(), steps).Some?
    ensures Inv(Run(Initial<V>(), steps).value)
  {
    if steps != [] {
      var last := |steps| - 1;
      RunInv(steps[..last]);
      InvKept(Run(Initial<V>(), steps[..last]).value, steps[last]);
    }
  }

  ghost predicate Reachable<V(!new)>(s: Slot<V>) {
    exists steps :: Run(Initial<V>(), steps) == Some(s)
  }

  lemma ReachableInv<V(!new)>(s: Slot<V>)
    requires Reachable(s)
    ensures Inv(s)
  {
    var steps :| Run(Initial<V>(), steps) == Some(s);
    RunInv(steps);
  }

  /** Every access that comes next leads to a reachable state. */
  lemma ReachableNext<V(!new)>(s: Slot<V>, step: Step<V>)
    requires Reachable(s) && Enabled(s, step)
    ensures Reachable(Next(s, step))
  {
    var steps :| Run(Initial<V>(), steps) == Some(s);
    assert (steps + [step])[..|steps|] == steps;
    assert Run(Initial<V>(), steps + [step]) == Some(Next(s, step));
  }

  // The guarantees

  /** Pairs leave the slot in the order they were accepted, each once and with its own vtable; at
      most one waits. */
  lemma ExactlyOnce<V(!new)>(s: Slot<V>)
    requires Reachable(s)
    ensures s.drained <= s.accepted && |s.accepted| <= |s.drained| + 1
    ensures s.ptr.None? <==> s.drained == s.accepted
  {
    ReachableInv(s);
  }

  /** The pair that a drain is about to return is the oldest accepted one. */
  lemma DrainsOldest<V(!new)>(s: Slot<V>)
    requires Reachable(s) && s.drainer.ClearedReady?
    ensures |s.drained| < |s.accepted| && (s.drainer.ptr, s.drainer.vtable) == s.accepted[|s.drained|]
  {
    ReachableInv(s);
  }

  /** While a push is past its vacancy check no drain is under way, so the vtable cell is never
      written while a pair waits or is being read. */
  lemma NoOverwrite<V(!new)>(s: Slot<V>)
    requires Reachable(s) && !s.writer.Away?
    ensures s.ptr.None? && s.drainer.Idle? && s.drained == s.accepted
  {
    ReachableInv(s);
  }

  /** A drain that has seen a pointer always finds the flag set and the vtable initialised. */
  lemma ReadyWhenPointerSeen<V(!new)>(s: Slot<V>)
    requires Reachable(s)
    ensures Enabled(s, DrainReady) ==> Next(s, DrainReady).drainer.SawReady?
    ensures Enabled(s, DrainVtable) ==> Next(s, DrainVtable).drainer.HasVtable?
  {
    ReachableInv(s);
  }

  // The object, one call at a time

  /** A whole `push`, access by access. */
  function PushCall<V>(s: Slot<V>, obj: Ptr, vtable: V): Slot<V>
    requires s.writer.Away?
  {
    var loaded := Next(s, PushLoad(obj, vtable));
    if loaded.writer.Away? then loaded
    else Next(Next(Next(loaded, PushVtable), PushReady), PushPtr)
  }

  /** A whole `drain`, access by access. */
  function DrainCall<V>(s: Slot<V>): Slot<V>
    requires s.drainer.Idle?
  {
    var loaded := Next(s, DrainLoad);
    if loaded.drainer.Idle? then loaded
    else
      var ready := Next(loaded, DrainReady);
      if ready.drainer.Idle? then ready
      else
        var read := Next(ready, DrainVtable);
        if read.drainer.SawReady? then read else Next(Next(read, DrainClearReady), DrainClearPtr)
  }

  /** An uninterrupted push hands its pair over if and only if none waits. */
  lemma PushCallAccepts<V>(s: Slot<V>, obj: Ptr, vtable: V)
    requires Inv(s) && s.writer.Away?
    ensures var s' := PushCall(s, obj, vtable);
            && Inv(s') && s'.writer.Away? && s'.drainer == s.drainer && s'.drained == s.drained
            && s'.accepted == if s.accepted == s.drained then s.accepted + [(obj, vtable)] else s.accepted
  {
    if s.ptr.None? {
      var s1 := Next(s, PushLoad(obj, vtable));
      InvKept(s, PushLoad(obj, vtable));
      InvKept(s1, PushVtable);
      InvKept(Next(s1, PushVtable), PushReady);
      InvKept(Next(Next(s1, PushVtable), PushReady), PushPtr);
    }
  }

  /** A drain that loads while a pair waits goes on to return that pair and vacates the slot. */
  lemma DrainCallReturns<V>(s: Slot<V>)
    requires Inv(s) && s.drainer.Idle?
    ensures var s' := DrainCall(s);
            && Inv(s') && s'.drainer.Idle? && s'.writer == s.writer && s'.accepted == s.accepted
            && s'.drained == s.accepted && (s.accepted != s.drained ==> s'.ptr.None? && |s.accepted| == |s.drained| + 1)
  {
  }

  class EmergencySlot<V> {
    var ptr: Option<Ptr>
    var vtable: Option<V>
    var vtableReady: bool
    ghost var accepted: seq<(Ptr, V)>
    ghost var drained: seq<(Ptr, V)>

    ghost function View(): (s: Slot<V>)
      reads this
      ensures s.writer.Away? && s.drainer.Idle?
    {
      Slot(ptr, vtable, vtableReady, Away, Idle, accepted, drained)
    }

    constructor ()
      ensures View() == Initial() && Inv(View())
    {
      ptr, vtable, vtableReady, accepted, drained := None, None, false, [], [];
    }

    method IsVacant() returns (vacant: bool)
      requires Inv(View())
      ensures vacant <==> drained == accepted
    {
      vacant := ptr.None?;
    }

    method Push(obj: Ptr, newVtable: V) returns (accepts: bool)
      requires Inv(View())
      modifies this
      ensures Inv(View()) && View() == PushCall(old(View()), obj, newVtable)
      ensures accepts <==> old(drained == accepted)
      ensures accepted == (if accepts then old(accepted) + [(obj, newVtable)] else old(accepted))
      ensures drained == old(drained)
    {
      var vacant := IsVacant();
      if !vacant {
        return false;
      }
      vtable := Some(newVtable);
      vtableReady := true;
      ptr := Some(obj);
      accepted := accepted + [(obj, newVtable)];
      accepts := true;
    }

    method Drain() returns (pair: Option<(Ptr, V)>)
      requires Inv(View())
      modifies this
      ensures Inv(View()) && View() == DrainCall(old(View())) && accepted == old(accepted)
      ensures pair == if old(drained == accepted) then None else Some(accepted[|old(drained)|])
      ensures drained == if pair.Some? then old(drained) + [pair.value] else old(drained)
    {
      var p := ptr;
      if p.None? {
        return None;
      }
      if !vtableReady {
        return None;
      }
      var v := vtable.value;
      vtableReady := false;
      ptr := None;
      drained := drained + [(p.value, v)];
      pair := Some((p.value, v));
    }
  }
}
