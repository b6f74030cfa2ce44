/** What the operations on the handle do, read off the state before and after: alone, and with any other
    operations in between. */
module PublicationCalls {
  import opened Words
  import opened Wrappers
  import opened Publication
  import opened PublicationSafety

  /** Everything but the places and the actors is as before. */
  ghost predicate OnlyPlaces(s: State, s': State) {
    && s'.live == s.live && s'.births == s.births && s'.hazard == s.hazard && s'.pinActive == s.pinActive
    && s'.handleAlive == s.handleAlive
  }

  /** The pointer of `from` is now in `to`, and no other place has changed. */
  ghost predicate Carried(before: map<Place, Addr>, after: map<Place, Addr>, from: Place, to: Place) {
    && from in before && from !in after && to in after && after[to] == before[from]
    && forall p :: p != from && p != to ==> (p in after <==> p in before) && (p in after ==> after[p] == before[p])
  }

  ghost predicate OthersStay(s: State, s': State, t: nat) {
    forall u :: u != t ==> s'.At(u) == s.At(u)
  }

  // Swap

  lemma SwapBegins(s: State, t: nat, id: nat)
    requires Enabled(s, SwapBegin(t, id))
    ensures var s' := Next(s, SwapBegin(t, id));
            && Carried(s.held, s'.held, Owned(id), Incoming(t)) && OnlyPlaces(s, s') && OthersStay(s, s', t)
            && s'.At(t) == Exchanging && s'.version == s.version && s'.references == s.references
            && s'.exchanges == s.exchanges && s'.counts == s.counts && s'.stamps == s.stamps
  {
  }

  /** The exchange publishes the new graph and takes the one that was published until then. */
  lemma SwapPublishes(s: State, t: nat)
    requires Enabled(s, SwapExchange(t))
    ensures var s' := Next(s, SwapExchange(t));
            && Current in s'.held && s'.held[Current] == s.held[Incoming(t)]
            && Outgoing(t) in s'.held && s'.held[Outgoing(t)] == s.held[Current]
            && Incoming(t) !in s'.held
            && (forall p :: p != Current && p != Incoming(t) && p != Outgoing(t) ==>
                  (p in s'.held <==> p in s.held) && (p in s'.held ==> s'.held[p] == s.held[p]))
            && OnlyPlaces(s, s') && OthersStay(s, s', t)
            && s'.At(t) == Counting && s'.version == s.version && s'.references == s.references
            && s'.exchanges == s.exchanges + 1 && s'.counts == s.counts && s'.stamps == s.stamps
  {
  }

  lemma SwapCounts(s: State, t: nat)
    requires Enabled(s, SwapCount(t))
    ensures var s' := Next(s, SwapCount(t));
            && s'.version == (s.version + 1) % U64_VALUES && s'.counts == s.counts + 1
            && s'.At(t) == Retiring(Stamp(s'.version, s'.counts))
            && s'.held == s.held && OnlyPlaces(s, s') && OthersStay(s, s', t)
            && s'.references == s.references && s'.exchanges == s.exchanges && s'.stamps == s.stamps
  {
  }

  /** The token takes the old graph, the version of this swap and a reference to the shared state. */
  lemma SwapFinishes(s: State, t: nat, id: nat)
    requires Enabled(s, SwapFinish(t, id))
    ensures var s' := Next(s, SwapFinish(t, id));
            && Carried(s.held, s'.held, Outgoing(t), Token(id)) && OnlyPlaces(s, s') && OthersStay(s, s', t)
            && id in s'.stamps && s'.stamps[id] == s.At(t).stamp
            && (forall i :: i != id ==>
                  (i in s'.stamps <==> i in s.stamps) && (i in s.stamps ==> s'.stamps[i] == s.stamps[i]))
            && s'.At(t) == Idle && s'.version == s.version && s'.references == s.references + 1
            && s'.exchanges == s.exchanges && s'.counts == s.counts
  {
  }

  /** A pointer stays in the hands of a swap or a recovery until that operation's own next access. */
  ghost predicate Moves(step: Step, p: Place) {
    match p
    case Current => step.SwapExchange?
    case Incoming(t) => step == SwapExchange(t)
    case Outgoing(t) => step.SwapFinish? && step.actor == t
    case Recovered(t) => step.ReclaimFinish? && step.actor == t
    case Token(id) => (step.ReclaimCheck? && step.id == id) || step == TokenDrop(id)
    case Owned(id) => (step.SwapBegin? && step.id == id) || step == BoxDrop(id)
    case Leaked(_) => false
  }

  ghost predicate Stays(s: State, s': State, p: Place) {
    p in s.held ==> p in s'.held && s'.held[p] == s.held[p]
  }

  lemma StaysInPin(s: State, step: Step, p: Place)
    requires Enabled(s, step) && step.OfPin()
    ensures Stays(s, NextPin(s, step), p)
  {
    hide Enabled, NextPin;
    PinFrame(s, step, 0);
  }

  lemma StaysInSwap(s: State, step: Step, p: Place)
    requires Enabled(s, step) && step.OfSwap() && !Moves(step, p)
    ensures Stays(s, NextSwap(s, step), p)
  {
  }

  lemma StaysInToken(s: State, step: Step, p: Place)
    requires Enabled(s, step) && step.OfToken() && !Moves(step, p) && p != Current
    ensures Stays(s, NextToken(s, step), p)
  {
    hide Release;
  }

  lemma StaysInOwner(s: State, step: Step, p: Place)
    requires Enabled(s, step) && step.OfOwner() && !Moves(step, p) && p != Current
    ensures Stays(s, NextOwner(s, step), p)
  {
    hide Release;
  }

  /** No other step takes a pointer from where it is, the last release of the published graph apart. */
  lemma PlaceStays(s: State, step: Step, p: Place)
    requires Enabled(s, step) && !Moves(step, p) && p != Current
    ensures Stays(s, Next(s, step), p)
  {
    hide Stays, Moves, Enabled, NextPin, NextSwap, NextToken, NextOwner;
    if step.OfPin() { StaysInPin(s, step, p); }
    else if step.OfSwap() { StaysInSwap(s, step, p); }
    else if step.OfToken() { StaysInToken(s, step, p); }
    else { StaysInOwner(s, step, p); }
  }

  /** Only an exchange changes the published pointer. The last release takes it away. */
  lemma PublishedStays(s: State, step: Step)
    requires Enabled(s, step) && !step.SwapExchange? && Current in s.held && Current in Next(s, step).held
    ensures Next(s, step).held[Current] == s.held[Current]
  {
    hide Enabled, NextPin, NextSwap, NextToken, NextOwner;
    if step.OfPin() { PinFrame(s, step, 0); }
    else if step.OfSwap() { CurrentInSwap(s, step); }
    else if step.OfToken() { CurrentInToken(s, step); }
    else { CurrentInOwner(s, step); }
  }

  lemma {:induction false} PlaceStaysOverRun(s: State, steps: seq<Step>, p: Place)
    requires Run(s, steps).Some? && p != Current && p in s.held
    requires forall k :: 0 <= k < |steps| ==> !Moves(steps[k], p)
    ensures p in Run(s, steps).value.held && Run(s, steps).value.held[p] == s.held[p]
  {
    hide Next, Enabled, Moves;
    if steps != [] {
      var last := |steps| - 1;
      PlaceStaysOverRun(s, steps[..last], p);
      PlaceStays(Run(s, steps[..last]).value, steps[last], p);
    }
  }

  /** A whole `swap` with any steps of others in between: the exchange publishes the graph that was handed
      to the swap, and its token carries the graph that was published until then. */
  lemma SwapInterleaved(s: State, t: nat, id: nat, before: seq<Step>, after: seq<Step>, token: nat)
    requires Enabled(s, SwapBegin(t, id))
    requires Run(Next(s, SwapBegin(t, id)), before).Some?
    requires forall k :: 0 <= k < |before| ==> before[k] != SwapExchange(t)
    requires Enabled(Run(Next(s, SwapBegin(t, id)), before).value, SwapExchange(t))
    requires Run(Next(Run(Next(s, SwapBegin(t, id)), before).value, SwapExchange(t)), after).Some?
    requires forall k :: 0 <= k < |after| ==> !(after[k].SwapFinish? && after[k].actor == t)
    requires Enabled(Run(Next(Run(Next(s, SwapBegin(t, id)), before).value, SwapExchange(t)), after).value,
                     SwapFinish(t, token))
    ensures var s1 := Run(Next(s, SwapBegin(t, id)), before).value;
            var s2 := Next(s1, SwapExchange(t));
            var s3 := Run(s2, after).value;
            var s4 := Next(s3, SwapFinish(t, token));
            && Current in s2.held && s2.held[Current] == s.held[Owned(id)]
            && Current in s1.held && Token(token) in s4.held && s4.held[Token(token)] == s1.held[Current]
  {
    hide Next, Enabled, Run;
    var s0 := Next(s, SwapBegin(t, id));
    SwapBegins(s, t, id);
    PlaceStaysOverRun(s0, before, Incoming(t));
    var s1 := Run(s0, before).value;
    SwapPublishes(s1, t);
    ExchangeNeedsCurrent(s1, t);
    var s2 := Next(s1, SwapExchange(t));
    PlaceStaysOverRun(s2, after, Outgoing(t));
    SwapFinishes(Run(s2, after).value, t, token);
  }

  lemma ExchangeNeedsCurrent(s: State, t: nat)
    requires Enabled(s, SwapExchange(t))
    ensures Current in s.held && Incoming(t) in s.held
  {
  }

  // Pin

  /** `try_pin` is refused if and only if some actor is already in a pin. */
  lemma PinRefused(s: State, t: nat)
    requires Reachable(s) && Enabled(s, PinTry(t))
    ensures Next(s, PinTry(t)).At(t).Idle? <==>
              exists h :: s.At(h).Pinning? || s.At(h).Loaded? || s.At(h).Stored? || s.At(h).Guarded?
                          || s.At(h).Unpinning?
    ensures Next(s, PinTry(t)).At(t).Idle? ==> Next(s, PinTry(t)) == s
    ensures !Next(s, PinTry(t)).At(t).Idle? ==> Next(s, PinTry(t)).At(t) == Pinning(s.exchanges, 0)
  {
    ReachableInv(s);
    var h :| InvFor(s, h);
    assert s.pinActive <==> s.At(h).InPin();
    assert forall u :: s.At(u).InPin() ==> s.pinActive;
  }

  /** A pin changes the hazard, the flag and its own actor only. */
  ghost predicate PinOnly(s: State, s': State, t: nat) {
    && s'.held == s.held && s'.live == s.live && s'.births == s.births && s'.version == s.version
    && s'.references == s.references && s'.handleAlive == s.handleAlive && s'.exchanges == s.exchanges
    && s'.counts == s.counts && s'.stamps == s.stamps && OthersStay(s, s', t)
  }

  /** An attempt that is not refused sets the flag and starts counting exchanges. */
  lemma PinBegins(s: State, t: nat)
    requires Enabled(s, PinTry(t)) && !s.pinActive
    ensures var s' := Next(s, PinTry(t));
            s'.pinActive && s'.hazard == s.hazard && s'.At(t) == Pinning(s.exchanges, 0) && PinOnly(s, s', t)
  {
  }

  lemma PinLoads(s: State, t: nat)
    requires Enabled(s, PinLoad(t))
    ensures var pc, s' := s.At(t), Next(s, PinLoad(t));
            && s'.At(t) == Loaded(s.held[Current], pc.base, pc.retries, s.exchanges)
            && s'.hazard == s.hazard && s'.pinActive == s.pinActive && PinOnly(s, s', t)
  {
  }

  lemma PinStores(s: State, t: nat)
    requires Enabled(s, PinStore(t))
    ensures var pc, s' := s.At(t), Next(s, PinStore(t));
            && s'.At(t) == Stored(pc.ptr, pc.base, pc.retries, pc.seen)
            && s'.hazard == Some(pc.ptr) && s'.pinActive == s.pinActive && PinOnly(s, s', t)
  {
  }

  /** The validation gives a guard if the pointer is still published, and loops back otherwise. */
  lemma PinValidates(s: State, t: nat)
    requires Enabled(s, PinValidate(t))
    ensures var pc, s' := s.At(t), Next(s, PinValidate(t));
            && s'.At(t) == (if s.held[Current] == pc.ptr then Guarded(pc.ptr, s.Birth(pc.ptr))
                            else Pinning(pc.base, pc.retries + 1))
            && s'.hazard == s.hazard && s'.pinActive == s.pinActive && PinOnly(s, s', t)
  {
  }

  lemma GuardClears(s: State, t: nat)
    requires Enabled(s, GuardClearHazard(t))
    ensures var s' := Next(s, GuardClearHazard(t));
            s'.At(t) == Unpinning && s'.hazard == None && s'.pinActive == s.pinActive && PinOnly(s, s', t)
  {
  }

  lemma GuardReleases(s: State, t: nat)
    requires Enabled(s, GuardRelease(t))
    ensures var s' := Next(s, GuardRelease(t));
            s'.At(t) == Idle && s'.hazard == s.hazard && !s'.pinActive && PinOnly(s, s', t)
  {
  }

  /** A validation succeeds when no exchange came since the load. */
  lemma ValidationSucceeds(s: State, t: nat)
    requires Reachable(s) && Enabled(s, PinValidate(t)) && s.At(t).seen == s.exchanges
    ensures Next(s, PinValidate(t)).At(t) == Guarded(s.At(t).ptr, s.Birth(s.At(t).ptr))
    ensures s.held[Current] == s.At(t).ptr
  {
    ReachableInv(s);
    var h :| InvFor(s, h);
    assert Retries(s, t);
    PinValidates(s, t);
  }

  lemma CanPin(s: State, t: nat)
    requires Reachable(s) && s.handleAlive && s.At(t).Idle?
    requires forall h :: !s.At(h).Pinning? && !s.At(h).Loaded? && !s.At(h).Stored? && !s.At(h).Guarded?
                         && !s.At(h).Unpinning?
    ensures Current in s.held && !s.pinActive && Enabled(s, PinTry(t))
  {
    ReachableInv(s);
    var g :| InvFor(s, g);
    assert s.references > 0;
    assert s.pinActive <==> s.At(g).InPin();
  }

  lemma PinEnabled(s: State, t: nat)
    requires Current in s.held
    ensures s.At(t).Pinning? ==> Enabled(s, PinLoad(t))
    ensures s.At(t).Loaded? ==> Enabled(s, PinStore(t))
    ensures s.At(t).Stored? ==> Enabled(s, PinValidate(t))
    ensures s.At(t).Guarded? ==> Enabled(s, GuardClearHazard(t))
    ensures s.At(t).Unpinning? ==> Enabled(s, GuardRelease(t))
  {
  }

  /** From every reachable state with the handle alive and no pin in progress, the four accesses of
      `try_pin` in a row end in a guard on the published graph, which the hazard names. */
  lemma PinSucceeds(s: State, t: nat)
    requires Reachable(s) && s.handleAlive && s.At(t).Idle?
    requires forall h :: !s.At(h).Pinning? && !s.At(h).Loaded? && !s.At(h).Stored? && !s.At(h).Guarded?
                         && !s.At(h).Unpinning?
    ensures Current in s.held && Run(s, [PinTry(t), PinLoad(t), PinStore(t), PinValidate(t)]).Some?
    ensures var s' := Run(s, [PinTry(t), PinLoad(t), PinStore(t), PinValidate(t)]).value;
            && s'.At(t) == Guarded(s.held[Current], s.Birth(s.held[Current]))
            && s'.hazard == Some(s.held[Current]) && s'.held == s.held && s'.live == s.live
  {
    CanPin(s, t);
    hide Next, Enabled, Reachable, Run;
    PinBegins(s, t);
    var s1 := Next(s, PinTry(t));
    PinEnabled(s1, t);
    PinLoads(s1, t);
    var s2 := Next(s1, PinLoad(t));
    PinEnabled(s2, t);
    PinStores(s2, t);
    var s3 := Next(s2, PinStore(t));
    PinEnabled(s3, t);
    PinValidates(s3, t);
    RunFour(s, PinTry(t), PinLoad(t), PinStore(t), PinValidate(t));
  }

  lemma RunFour(s: State, a: Step, b: Step, c: Step, d: Step)
    requires Enabled(s, a) && Enabled(Next(s, a), b) && Enabled(Next(Next(s, a), b), c)
    requires Enabled(Next(Next(Next(s, a), b), c), d)
    ensures Run(s, [a, b, c, d]) == Some(Next(Next(Next(Next(s, a), b), c), d))
  {
    hide Next, Enabled;
    assert Run(s, []) == Some(s);
    RunSnoc(s, [], s, a);
    assert [] + [a] == [a];
    RunSnoc(s, [a], Next(s, a), b);
    assert [a] + [b] == [a, b];
    RunSnoc(s, [a, b], Next(Next(s, a), b), c);
    assert [a, b] + [c] == [a, b, c];
    RunSnoc(s, [a, b, c], Next(Next(Next(s, a), b), c), d);
    assert [a, b, c] + [d] == [a, b, c, d];
  }

  lemma RunNil(s: State)
    ensures Run(s, []) == Some(s)
  {
  }

  lemma RunSnoc(s: State, steps: seq<Step>, s1: State, step: Step)
    requires Run(s, steps) == Some(s1) && Enabled(s1, step)
    ensures Run(s, steps + [step]) == Some(Next(s1, step))
  {
    assert (steps + [step])[..|steps|] == steps;
  }

  /** Every access that comes next leads to a reachable state. */
  lemma ReachableNext(s: State, step: Step)
    requires Reachable(s) && Enabled(s, step)
    ensures Reachable(Next(s, step))
  {
    hide Next, Enabled;
    var first, steps :| Run(Initial(first), steps) == Some(s);
    RunSnoc(Initial(first), steps, s, step);
  }

  /** Dropping a guard in two accesses clears the hazard and lets the next pin in; no place changes. */
  lemma GuardDrops(s: State, t: nat)
    requires Reachable(s) && s.At(t).Guarded?
    ensures Run(s, [GuardClearHazard(t), GuardRelease(t)]).Some?
    ensures var s' := Run(s, [GuardClearHazard(t), GuardRelease(t)]).value;
            && s'.hazard == None && !s'.pinActive && s'.At(t) == Idle && OthersStay(s, s', t)
            && s'.held == s.held && s'.live == s.live
  {
    ReachableInv(s);
    var g :| InvFor(s, g);
    assert s.At(t).Borrows();
    hide Next, Enabled, Reachable, InvFor;
    assert Current in s.held by { BorrowNeedsCurrent(s, g, t); }
    RunNil(s);
    assert [] + [GuardClearHazard(t)] == [GuardClearHazard(t)];
    PinEnabled(s, t);
    GuardClears(s, t);
    var s1 := Next(s, GuardClearHazard(t));
    RunSnoc(s, [], s, GuardClearHazard(t));
    PinEnabled(s1, t);
    GuardReleases(s1, t);
    RunSnoc(s, [GuardClearHazard(t)], s1, GuardRelease(t));
    assert [GuardClearHazard(t)] + [GuardRelease(t)] == [GuardClearHazard(t), GuardRelease(t)];
  }

  lemma BorrowNeedsCurrent(s: State, h: nat, t: nat)
    requires InvFor(s, h) && s.At(t).Borrows()
    ensures Current in s.held
  {
    assert s.handleAlive;
  }

  // Recovery and owners

  /** A recovery that is not refused takes the token's graph out of the token. */
  lemma RecoveryBegins(s: State, t: nat, id: nat)
    requires Enabled(s, ReclaimCheck(t, id)) && s.hazard != Some(s.held[Token(id)])
    ensures var s' := Next(s, ReclaimCheck(t, id));
            && Carried(s.held, s'.held, Token(id), Recovered(t)) && OnlyPlaces(s, s') && OthersStay(s, s', t)
            && s'.At(t) == Recovering && s'.references == s.references
  {
  }

  /** A whole `try_into_box` with any steps of others in between hands back the token's graph as a box. */
  lemma RecoveryInterleaved(s: State, t: nat, id: nat, between: seq<Step>, box: nat)
    requires Enabled(s, ReclaimCheck(t, id)) && s.hazard != Some(s.held[Token(id)])
    requires Run(Next(s, ReclaimCheck(t, id)), between).Some?
    requires forall k :: 0 <= k < |between| ==> !(between[k].ReclaimFinish? && between[k].actor == t)
    requires Enabled(Run(Next(s, ReclaimCheck(t, id)), between).value, ReclaimFinish(t, box))
    ensures var s1 := Run(Next(s, ReclaimCheck(t, id)), between).value;
            var s2 := Next(s1, ReclaimFinish(t, box));
            Owned(box) in s2.held && s2.held[Owned(box)] == s.held[Token(id)] && s2.At(t) == Idle
  {
    hide Next, Enabled, Run;
    RecoveryBegins(s, t, id);
    var s0 := Next(s, ReclaimCheck(t, id));
    PlaceStaysOverRun(s0, between, Recovered(t));
    RecoveryFinishes(Run(s0, between).value, t, box);
  }

  lemma RecoveryFinishes(s: State, t: nat, box: nat)
    requires Enabled(s, ReclaimFinish(t, box))
    ensures var s' := Next(s, ReclaimFinish(t, box));
            && Recovered(t) in s.held && Recovered(t) !in s'.held
            && Owned(box) in s'.held && s'.held[Owned(box)] == s.held[Recovered(t)] && s'.At(t) == Idle
            && (s.references > 1 ==> s'.references == s.references - 1 && s'.live == s.live)
  {
  }

  /** Dropping a token leaks its graph: it stays allocated and nobody can free it. */
  lemma TokenLeaks(s: State, id: nat)
    requires Reachable(s) && Enabled(s, TokenDrop(id))
    ensures var s' := Next(s, TokenDrop(id));
            && Token(id) !in s'.held && Leaked(id) in s'.held && s'.held[Leaked(id)] == s.held[Token(id)]
            && s.held[Token(id)] in s'.live
            && forall p :: p in s'.held && s'.held[p] == s.held[Token(id)] ==> p == Leaked(id)
  {
    ReachableInv(s);
    var h :| InvFor(s, h);
    OwnsInToken(s, TokenDrop(id));
  }

  /** Allocation hands out an address that is not in use, perhaps one that was; the handle is dropped for good. */
  lemma OwnerActs(s: State, a: Addr, id: nat)
    ensures Enabled(s, Allocate(a, id)) ==>
              var s' := Next(s, Allocate(a, id));
              && a !in s.live && s'.live == s.live + {a} && s'.Birth(a) == s.Birth(a) + 1
              && s'.held == s.held[Owned(id) := a]
    ensures Enabled(s, HandleDrop) ==> s.handleAlive && !Next(s, HandleDrop).handleAlive
  {
  }

  lemma StartsWhen(s: State, t: nat, id: nat, a: Addr)
    requires Placed(s, t)
    ensures Enabled(s, PinTry(t)) <==> s.At(t).Idle? && s.handleAlive
    ensures Enabled(s, SwapBegin(t, id)) <==> s.At(t).Idle? && s.handleAlive && Owned(id) in s.held
    ensures Enabled(s, ReclaimCheck(t, id)) <==> s.At(t).Idle? && Token(id) in s.held
    ensures Enabled(s, TokenDrop(id)) <==> Token(id) in s.held && Leaked(id) !in s.held
    ensures Enabled(s, BoxDrop(id)) <==> Owned(id) in s.held
    ensures Enabled(s, Allocate(a, id)) <==> a !in s.live && Owned(id) !in s.held
  {
  }

  /** When an operation can begin. */
  lemma OperationsStart(s: State, t: nat, id: nat, a: Addr)
    requires Reachable(s)
    ensures Enabled(s, PinTry(t)) <==> s.At(t).Idle? && s.handleAlive
    ensures Enabled(s, SwapBegin(t, id)) <==> s.At(t).Idle? && s.handleAlive && Owned(id) in s.held
    ensures Enabled(s, ReclaimCheck(t, id)) <==> s.At(t).Idle? && Token(id) in s.held
    ensures Enabled(s, TokenDrop(id)) <==> Token(id) in s.held && Leaked(id) !in s.held
    ensures Enabled(s, BoxDrop(id)) <==> Owned(id) in s.held
    ensures Enabled(s, Allocate(a, id)) <==> a !in s.live && Owned(id) !in s.held
  {
    hide Enabled, Owns, Counted, Borrowed, Pins, GuardSafe, Retries, Placed;
    ReachableInv(s);
    var h :| InvFor(s, h);
    StartsWhen(s, t, id, a);
  }

  /** The handle can be dropped when no operation borrows it. */
  lemma HandleDropStarts(s: State)
    ensures Enabled(s, HandleDrop) <==> s.handleAlive && forall u :: s.At(u).Idle? || s.At(u).Recovering?
  {
    if Enabled(s, HandleDrop) {
      forall u ensures s.At(u).Idle? || s.At(u).Recovering? {
        assert u in s.pcs ==> !s.pcs[u].Borrows();
      }
    } else if s.handleAlive {
      var u :| u in s.pcs && s.pcs[u].Borrows();
      assert s.At(u).Borrows();
    }
  }
}
