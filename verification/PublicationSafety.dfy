/** What every interleaving of the publication protocol keeps. */
module PublicationSafety {
  import opened Wrappers
  import opened Publication

  /** Every live graph is held by exactly one place, and every place holds a live graph. */
  ghost predicate Owns(held: map<Place, Addr>, live: set<Addr>) {
    && (forall p, q :: p in held && q in held && held[p] == held[q] ==> p == q)
    && (forall p :: p in held ==> held[p] in live)
    && (forall a :: a in live ==> exists p :: p in held && held[p] == a)
  }

  lemma MoveOwns(held: map<Place, Addr>, live: set<Addr>, from: Place, to: Place)
    requires Owns(held, live) && from in held && to !in held
    ensures Owns(Move(held, from, to), live)
  {
    hide Move;
    var moved := Move(held, from, to);
    forall a | a in live ensures exists p :: p in moved && moved[p] == a {
      var p :| p in held && held[p] == a;
      if p == from { assert to in moved && moved[to] == a; } else { assert p in moved && moved[p] == a; }
    }
  }

  lemma FreeOwns(held: map<Place, Addr>, live: set<Addr>, place: Place)
    requires Owns(held, live) && place in held
    ensures Owns(held - {place}, live - {held[place]})
  {
    var rest := held - {place};
    forall a | a in live - {held[place]} ensures exists p :: p in rest && rest[p] == a {
      var p :| p in held && held[p] == a;
      assert p in rest && rest[p] == a;
    }
  }

  lemma AllocateOwns(held: map<Place, Addr>, live: set<Addr>, place: Place, a: Addr)
    requires Owns(held, live) && place !in held && a !in live
    ensures Owns(held[place := a], live + {a})
  {
    var more := held[place := a];
    forall b | b in live + {a} ensures exists p :: p in more && more[p] == b {
      if b == a { assert place in more && more[place] == b; }
      else { var p :| p in held && held[p] == b; assert p in more && more[p] == b; }
    }
  }

  /** An actor owns a graph exactly in the middle of a swap or of a recovery. */
  ghost predicate Placed(s: State, t: nat) {
    && (Incoming(t) in s.held <==> s.At(t).Exchanging?)
    && (Outgoing(t) in s.held <==> s.At(t).Counting? || s.At(t).Retiring?)
    && (Recovered(t) in s.held <==> s.At(t).Recovering?)
  }

  ghost predicate Places(s: State) {
    forall t :: Placed(s, t)
  }

  function Holders(held: map<Place, Addr>): set<Place> {
    set p | p in held && p.HoldsState()
  }

  /** The reference count is the handle plus the tokens; while it is positive a graph is published. */
  ghost predicate Counted(s: State) {
    && s.references == |Holders(s.held)| + (if s.handleAlive then 1 else 0)
    && (Current in s.held <==> s.references > 0)
  }

  ghost predicate Borrowed(s: State) {
    forall t :: s.At(t).Borrows() ==> s.handleAlive
  }

  /** `h` is the only actor that can be in a pin. While its pointer is stored, the hazard announces
      it; when no pin is active there is no hazard. */
  ghost predicate Pins(s: State, h: nat) {
    && (forall t :: s.At(t).InPin() <==> s.pinActive && t == h)
    && (!s.pinActive ==> s.hazard == None)
    && (s.At(h).Stored? || s.At(h).Guarded? ==> s.hazard == Some(s.At(h).ptr))
    && (s.At(h).Unpinning? ==> s.hazard == None)
    && (s.At(h).Pinning? || s.At(h).Loaded? ==> s.At(h).retries == 0 ==> s.hazard == None)
  }

  ghost predicate Retained(s: State, a: Addr) {
    exists p :: p in s.held && p.Retains() && s.held[p] == a
  }

  /** The graph of the guard is the allocation it was when the guard was taken, and it is held where
      nobody may free it. */
  ghost predicate GuardSafe(s: State, h: nat) {
    s.At(h).Guarded? ==> Retained(s, s.At(h).ptr) && s.Birth(s.At(h).ptr) == s.At(h).birth
  }

  /** A failed validation needs an exchange since the load. */
  ghost predicate Retries(s: State, t: nat) {
    && (s.At(t).Pinning? ==> s.At(t).base + s.At(t).retries <= s.exchanges)
    && (s.At(t).Loaded? || s.At(t).Stored? ==>
          && s.At(t).base + s.At(t).retries <= s.At(t).seen <= s.exchanges
          && (s.At(t).seen == s.exchanges && Current in s.held ==> s.held[Current] == s.At(t).ptr))
  }

  ghost predicate InvFor(s: State, h: nat) {
    && Owns(s.held, s.live) && Places(s) && Counted(s) && Borrowed(s)
    && Pins(s, h) && GuardSafe(s, h) && forall t :: Retries(s, t)
  }

  ghost predicate Inv(s: State) {
    exists h :: InvFor(s, h)
  }

  lemma InitialInv(first: Addr)
    ensures Inv(Initial(first))
  {
    var s := Initial(first);
    assert forall t :: s.At(t) == Idle;
    assert Current in s.held;
    assert Holders(s.held) == {};
    assert InvFor(s, 0);
  }

  // Preservation, one invariant at a time

  /** A pin touches the hazard, the flag and its own actor. */
  ghost predicate PinTouches(s: State, s': State, t: nat) {
    && s' == s.(hazard := s'.hazard, pinActive := s'.pinActive, pcs := s'.pcs)
    && (s'.At(t) == s.At(t)
        || ((s.At(t).Idle? || s.At(t).InPin()) && (s'.At(t).Idle? || s'.At(t).InPin())))
  }

  lemma PinEntryFrame(s: State, step: Step, t: nat)
    requires Enabled(s, step) && (step.PinTry? || step.PinLoad? || step.PinStore?)
    ensures PinTouches(s, NextPin(s, step), t)
  {
  }

  lemma PinExitFrame(s: State, step: Step, t: nat)
    requires Enabled(s, step) && (step.PinValidate? || step.GuardClearHazard? || step.GuardRelease?)
    ensures PinTouches(s, NextPin(s, step), t)
  {
  }

  lemma PinFrame(s: State, step: Step, t: nat)
    requires Enabled(s, step) && step.OfPin()
    ensures PinTouches(s, NextPin(s, step), t)
  {
    hide PinTouches, Enabled, NextPin;
    if step.PinTry? || step.PinLoad? || step.PinStore? { PinEntryFrame(s, step, t); } else { PinExitFrame(s, step, t); }
  }

  /** A recovery touches the places, the references and its own actor. */
  lemma TokenFrame(s: State, step: Step, t: nat)
    requires Enabled(s, step) && step.OfToken()
    ensures var s' := NextToken(s, step);
            && s' == s.(held := s'.held, live := s'.live, references := s'.references, pcs := s'.pcs)
            && (s'.At(t) == s.At(t)
                || ((s.At(t).Idle? || s.At(t).Recovering?) && (s'.At(t).Idle? || s'.At(t).Recovering?)))
  {
    hide Move, Release;
  }

  lemma ReleaseOwns(s: State)
    requires Owns(s.held, s.live)
    ensures Owns(Release(s).held, Release(s).live)
  {
    if Current in s.held {
      FreeOwns(s.held, s.live, Current);
    }
  }

  lemma OwnsInSwap(s: State, step: Step)
    requires Owns(s.held, s.live) && Enabled(s, step) && step.OfSwap()
    ensures Owns(NextSwap(s, step).held, NextSwap(s, step).live)
  {
    hide Owns;
    match step
    case SwapBegin(t, id) => MoveOwns(s.held, s.live, Owned(id), Incoming(t));
    case SwapExchange(t) =>
      MoveOwns(s.held, s.live, Current, Outgoing(t));
      MoveOwns(Move(s.held, Current, Outgoing(t)), s.live, Incoming(t), Current);
    case SwapCount(_) =>
    case SwapFinish(t, id) => MoveOwns(s.held, s.live, Outgoing(t), Token(id));
  }

  lemma OwnsInToken(s: State, step: Step)
    requires Owns(s.held, s.live) && Enabled(s, step) && step.OfToken()
    ensures Owns(NextToken(s, step).held, NextToken(s, step).live)
  {
    hide Owns, Release;
    match step
    case ReclaimCheck(t, id) => MoveOwns(s.held, s.live, Token(id), Recovered(t));
    case ReclaimFinish(t, id) =>
      MoveOwns(s.held, s.live, Recovered(t), Owned(id));
      ReleaseOwns(s.(held := Move(s.held, Recovered(t), Owned(id))).To(t, Idle));
    case TokenDrop(id) =>
      MoveOwns(s.held, s.live, Token(id), Leaked(id));
      ReleaseOwns(s.(held := Move(s.held, Token(id), Leaked(id))));
  }

  lemma OwnsInOwner(s: State, step: Step)
    requires Owns(s.held, s.live) && Enabled(s, step) && step.OfOwner()
    ensures Owns(NextOwner(s, step).held, NextOwner(s, step).live)
  {
    hide Owns, Release;
    match step
    case Allocate(a, id) => AllocateOwns(s.held, s.live, Owned(id), a);
    case BoxDrop(id) => FreeOwns(s.held, s.live, Owned(id));
    case HandleDrop => ReleaseOwns(s.(handleAlive := false));
  }

  lemma OwnsKept(s: State, step: Step)
    requires Owns(s.held, s.live) && Enabled(s, step)
    ensures Owns(Next(s, step).held, Next(s, step).live)
  {
    hide Owns, NextPin, NextSwap, NextToken, NextOwner, Enabled;
    if step.OfPin() { PinFrame(s, step, 0); }
    else if step.OfSwap() { OwnsInSwap(s, step); }
    else if step.OfToken() { OwnsInToken(s, step); }
    else { OwnsInOwner(s, step); }
  }

  lemma PlacedInPin(s: State, step: Step, t: nat)
    requires Placed(s, t) && Enabled(s, step) && step.OfPin()
    ensures Placed(NextPin(s, step), t)
  {
    hide NextPin, Enabled;
    PinFrame(s, step, t);
  }

  lemma PlacedInExchange(s: State, step: Step, t: nat)
    requires Placed(s, t) && Enabled(s, step) && (step.SwapBegin? || step.SwapExchange?)
    ensures Placed(NextSwap(s, step), t)
  {
    hide Move;
  }

  lemma PlacedInRetirement(s: State, step: Step, t: nat)
    requires Placed(s, t) && Enabled(s, step) && (step.SwapCount? || step.SwapFinish?)
    ensures Placed(NextSwap(s, step), t)
  {
    hide Move;
  }

  lemma PlacedInSwap(s: State, step: Step, t: nat)
    requires Placed(s, t) && Enabled(s, step) && step.OfSwap()
    ensures Placed(NextSwap(s, step), t)
  {
    hide Placed, Enabled, NextSwap;
    if step.SwapBegin? || step.SwapExchange? { PlacedInExchange(s, step, t); } else { PlacedInRetirement(s, step, t); }
  }

  lemma PlacedInCheck(s: State, step: Step, t: nat)
    requires Placed(s, t) && Enabled(s, step) && step.ReclaimCheck?
    ensures Placed(NextToken(s, step), t)
  {
    hide Move;
  }

  lemma PlacedInFinish(s: State, step: Step, t: nat)
    requires Placed(s, t) && Enabled(s, step) && step.ReclaimFinish?
    ensures Placed(NextToken(s, step), t)
  {
    hide Release, Move;
  }

  lemma PlacedInDrop(s: State, step: Step, t: nat)
    requires Placed(s, t) && Enabled(s, step) && step.TokenDrop?
    ensures Placed(NextToken(s, step), t)
  {
    hide Release, Move;
  }

  lemma PlacedInToken(s: State, step: Step, t: nat)
    requires Placed(s, t) && Enabled(s, step) && step.OfToken()
    ensures Placed(NextToken(s, step), t)
  {
    hide Placed, Enabled, NextToken;
    if step.ReclaimCheck? { PlacedInCheck(s, step, t); }
    else if step.ReclaimFinish? { PlacedInFinish(s, step, t); }
    else { PlacedInDrop(s, step, t); }
  }

  lemma PlacedInOwner(s: State, step: Step, t: nat)
    requires Placed(s, t) && Enabled(s, step) && step.OfOwner()
    ensures Placed(NextOwner(s, step), t)
  {
    hide Release;
  }

  lemma PlacesKept(s: State, step: Step)
    requires Places(s) && Enabled(s, step)
    ensures Places(Next(s, step))
  {
    hide Placed, Enabled, NextPin, NextSwap, NextToken, NextOwner;
    forall t ensures Placed(Next(s, step), t) {
      if step.OfPin() { PlacedInPin(s, step, t); }
      else if step.OfSwap() { PlacedInSwap(s, step, t); }
      else if step.OfToken() { PlacedInToken(s, step, t); }
      else { PlacedInOwner(s, step, t); }
    }
  }

  // Reference count

  function One(b: bool): nat { if b then 1 else 0 }

  lemma MoveHolders(held: map<Place, Addr>, from: Place, to: Place)
    requires from in held && to !in held
    ensures |Holders(Move(held, from, to))| + One(from.HoldsState()) == |Holders(held)| + One(to.HoldsState())
  {
    var rest := Holders(held) - {from};
    assert from in Holders(held) <==> from.HoldsState();
    assert Holders(Move(held, from, to)) == if to.HoldsState() then rest + {to} else rest;
  }

  lemma SameHolders(held: map<Place, Addr>, held': map<Place, Addr>)
    requires forall p: Place :: p.HoldsState() ==> (p in held <==> p in held')
    ensures Holders(held) == Holders(held')
  {
  }

  /** A state with one reference too many, just before that reference is dropped. */
  ghost predicate Overcounted(s: State) {
    && s.references == |Holders(s.held)| + One(s.handleAlive) + 1
    && Current in s.held
  }

  lemma ReleaseCounted(s: State)
    requires Overcounted(s)
    ensures Counted(Release(s))
  {
    SameHolders(s.held, s.held - {Current});
  }

  lemma CountedInSwap(s: State, step: Step)
    requires Counted(s) && Enabled(s, step) && step.OfSwap() && (step.SwapFinish? ==> s.references > 0)
    ensures Counted(NextSwap(s, step))
  {
    match step
    case SwapBegin(t, id) => MoveHolders(s.held, Owned(id), Incoming(t));
    case SwapExchange(t) =>
      MoveHolders(s.held, Current, Outgoing(t));
      MoveHolders(Move(s.held, Current, Outgoing(t)), Incoming(t), Current);
    case SwapCount(t) =>
    case SwapFinish(t, id) => MoveHolders(s.held, Outgoing(t), Token(id));
  }

  lemma HolderCounts(held: map<Place, Addr>, p: Place)
    requires p in held && p.HoldsState()
    ensures |Holders(held)| > 0
  {
    assert p in Holders(held);
  }

  lemma CountedInToken(s: State, step: Step)
    requires Counted(s) && Enabled(s, step) && step.OfToken()
    ensures Counted(NextToken(s, step))
  {
    hide Release, Move, Holders;
    match step
    case ReclaimCheck(t, id) => MoveHolders(s.held, Token(id), Recovered(t));
    case ReclaimFinish(t, id) =>
      HolderCounts(s.held, Recovered(t));
      MoveHolders(s.held, Recovered(t), Owned(id));
      ReleaseCounted(s.(held := Move(s.held, Recovered(t), Owned(id))).To(t, Idle));
    case TokenDrop(id) =>
      HolderCounts(s.held, Token(id));
      MoveHolders(s.held, Token(id), Leaked(id));
      ReleaseCounted(s.(held := Move(s.held, Token(id), Leaked(id))));
  }

  lemma CountedInPin(s: State, step: Step)
    requires Counted(s) && Enabled(s, step) && step.OfPin()
    ensures Counted(NextPin(s, step))
  {
    hide Holders;
  }

  lemma CountedInOwner(s: State, step: Step)
    requires Counted(s) && Enabled(s, step) && step.OfOwner()
    ensures Counted(NextOwner(s, step))
  {
    hide Release, Holders;
    match step
    case Allocate(a, id) => SameHolders(s.held, s.held[Owned(id) := a]);
    case BoxDrop(id) => SameHolders(s.held, s.held - {Owned(id)});
    case HandleDrop => ReleaseCounted(s.(handleAlive := false));
  }

  lemma BorrowedInPin(s: State, step: Step, t: nat)
    requires Borrowed(s) && Enabled(s, step) && step.OfPin()
    ensures NextPin(s, step).At(t).Borrows() ==> NextPin(s, step).handleAlive
  {
    assert s.At(step.actor).Borrows() || s.handleAlive;
    assert s.At(t).Borrows() ==> s.handleAlive;
  }

  lemma BorrowedInSwap(s: State, step: Step, t: nat)
    requires Borrowed(s) && Enabled(s, step) && step.OfSwap()
    ensures NextSwap(s, step).At(t).Borrows() ==> NextSwap(s, step).handleAlive
  {
    hide Move;
    assert s.At(step.actor).Borrows() || s.handleAlive;
    assert s.At(t).Borrows() ==> s.handleAlive;
  }

  lemma BorrowedInToken(s: State, step: Step, t: nat)
    requires Borrowed(s) && Enabled(s, step) && step.OfToken()
    ensures NextToken(s, step).At(t).Borrows() ==> NextToken(s, step).handleAlive
  {
    hide NextToken, Enabled;
    TokenFrame(s, step, t);
    assert s.At(t).Borrows() ==> s.handleAlive;
  }

  lemma BorrowedInOwner(s: State, step: Step, t: nat)
    requires Borrowed(s) && Enabled(s, step) && step.OfOwner()
    ensures NextOwner(s, step).At(t).Borrows() ==> NextOwner(s, step).handleAlive
  {
    assert s.At(t).Borrows() ==> s.handleAlive;
  }

  lemma BorrowedKept(s: State, step: Step)
    requires Borrowed(s) && Enabled(s, step)
    ensures Borrowed(Next(s, step))
  {
    forall t ensures Next(s, step).At(t).Borrows() ==> Next(s, step).handleAlive {
      hide Enabled, NextPin, NextSwap, NextToken, NextOwner, Borrowed;
      if step.OfPin() { BorrowedInPin(s, step, t); }
      else if step.OfSwap() { BorrowedInSwap(s, step, t); }
      else if step.OfToken() { BorrowedInToken(s, step, t); }
      else { BorrowedInOwner(s, step, t); }
    }
  }

  // The pin

  /** The actor that may be in a pin after the step. */
  function NextPinner(s: State, step: Step, h: nat): nat {
    if step.PinTry? && !s.pinActive then step.actor else h
  }

  lemma PinsInPin(s: State, step: Step, h: nat)
    requires Pins(s, h) && Enabled(s, step) && step.OfPin()
    ensures Pins(NextPin(s, step), NextPinner(s, step, h))
  {
    var s', h' := NextPin(s, step), NextPinner(s, step, h);
    assert !step.PinTry? ==> s.At(step.actor).InPin();
    forall t ensures s'.At(t).InPin() <==> s'.pinActive && t == h' {
      assert s.At(t).InPin() <==> s.pinActive && t == h;
      assert t == step.actor || s'.At(t) == s.At(t);
    }
  }

  /** The fields that only a pin changes, and the pin of actor `t`. */
  ghost predicate SamePin(s: State, s': State, t: nat) {
    && s'.hazard == s.hazard && s'.pinActive == s.pinActive
    && s'.At(t).InPin() == s.At(t).InPin() && (s.At(t).InPin() ==> s'.At(t) == s.At(t))
  }

  lemma ExchangeKeepsPin(s: State, step: Step, t: nat)
    requires Enabled(s, step) && (step.SwapBegin? || step.SwapExchange?)
    ensures SamePin(s, NextSwap(s, step), t)
  {
    hide Move;
  }

  lemma RetirementKeepsPin(s: State, step: Step, t: nat)
    requires Enabled(s, step) && (step.SwapCount? || step.SwapFinish?)
    ensures SamePin(s, NextSwap(s, step), t)
  {
    hide Move;
  }

  lemma SwapKeepsPin(s: State, step: Step, t: nat)
    requires Enabled(s, step) && step.OfSwap()
    ensures SamePin(s, NextSwap(s, step), t)
  {
    hide SamePin, Enabled, NextSwap;
    if step.SwapBegin? || step.SwapExchange? { ExchangeKeepsPin(s, step, t); } else { RetirementKeepsPin(s, step, t); }
  }

  lemma TokenKeepsPin(s: State, step: Step, t: nat)
    requires Enabled(s, step) && step.OfToken()
    ensures SamePin(s, NextToken(s, step), t)
  {
    hide NextToken, Enabled;
    TokenFrame(s, step, t);
  }

  /** Swaps, recoveries and owners touch neither the hazard nor the pin. */
  lemma OthersKeepPin(s: State, step: Step, t: nat)
    requires Enabled(s, step) && !step.OfPin()
    ensures SamePin(s, Next(s, step), t)
  {
    hide NextSwap, NextToken;
    if step.OfSwap() { SwapKeepsPin(s, step, t); }
    if step.OfToken() { TokenKeepsPin(s, step, t); }
  }

  lemma PinsInOther(s: State, step: Step, h: nat)
    requires Pins(s, h) && Enabled(s, step) && !step.OfPin()
    ensures Pins(Next(s, step), h)
  {
    hide Next;
    var s' := Next(s, step);
    OthersKeepPin(s, step, h);
    forall t ensures s'.At(t).InPin() <==> s'.pinActive && t == h {
      OthersKeepPin(s, step, t);
      assert s.At(t).InPin() <==> s.pinActive && t == h;
    }
  }

  // The guard

  lemma MoveRetained(s: State, s': State, from: Place, to: Place, a: Addr)
    requires Retained(s, a) && from in s.held
    requires s'.held == Move(s.held, from, to) && to !in s.held
    requires from.Retains() ==> to.Retains() || s.held[from] != a
    ensures Retained(s', a)
  {
    var p :| p in s.held && p.Retains() && s.held[p] == a;
    if p == from { assert to in s'.held; } else { assert p in s'.held; }
  }

  lemma GuardInPin(s: State, step: Step, h: nat)
    requires Pins(s, h) && GuardSafe(s, h) && Enabled(s, step) && step.OfPin()
    ensures GuardSafe(NextPin(s, step), NextPinner(s, step, h))
  {
    var s', h' := NextPin(s, step), NextPinner(s, step, h);
    assert !step.PinTry? ==> step.actor == h;
    if s'.At(h').Guarded? {
      if step.PinValidate? {
        assert Current in s'.held && Current.Retains();
      } else {
        assert Retained(s, s.At(h).ptr);
        var p :| p in s.held && p.Retains() && s.held[p] == s.At(h).ptr;
        assert p in s'.held;
      }
    }
  }

  lemma SameRetained(s: State, s': State, a: Addr)
    requires Retained(s, a)
    requires forall p :: p in s.held && p.Retains() && s.held[p] == a ==> p in s'.held && s'.held[p] == a
    ensures Retained(s', a)
  {
    var p :| p in s.held && p.Retains() && s.held[p] == a;
    assert p in s'.held;
  }

  lemma GuardInExchange(s: State, t: nat, h: nat)
    requires Pins(s, h) && GuardSafe(s, h) && Enabled(s, SwapExchange(t))
    ensures GuardSafe(NextSwap(s, SwapExchange(t)), h)
  {
    hide Move, Retained;
    var s' := NextSwap(s, SwapExchange(t));
    if s'.At(h).Guarded? {
      assert s.At(h) == s'.At(h);
      var middle := s.(held := Move(s.held, Current, Outgoing(t)));
      MoveRetained(s, middle, Current, Outgoing(t), s.At(h).ptr);
      MoveRetained(middle, s', Incoming(t), Current, s.At(h).ptr);
    }
  }

  lemma GuardInOtherSwap(s: State, step: Step, h: nat)
    requires Pins(s, h) && GuardSafe(s, h) && Enabled(s, step) && step.OfSwap() && !step.SwapExchange?
    ensures GuardSafe(NextSwap(s, step), h)
  {
    hide Move, Retained;
    var s' := NextSwap(s, step);
    if s'.At(h).Guarded? {
      assert s.At(h) == s'.At(h);
      var a := s.At(h).ptr;
      match step
      case SwapBegin(t, id) => MoveRetained(s, s', Owned(id), Incoming(t), a);
      case SwapCount(t) => SameRetained(s, s', a);
      case SwapFinish(t, id) => MoveRetained(s, s', Outgoing(t), Token(id), a);
    }
  }

  lemma GuardInSwap(s: State, step: Step, h: nat)
    requires Pins(s, h) && GuardSafe(s, h) && Enabled(s, step) && step.OfSwap()
    ensures GuardSafe(NextSwap(s, step), h)
  {
    hide Pins, GuardSafe, NextSwap;
    if step.SwapExchange? { GuardInExchange(s, step.actor, h); } else { GuardInOtherSwap(s, step, h); }
  }

  lemma GuardInCheck(s: State, t: nat, id: nat, h: nat)
    requires Pins(s, h) && GuardSafe(s, h) && Enabled(s, ReclaimCheck(t, id))
    ensures GuardSafe(NextToken(s, ReclaimCheck(t, id)), h)
  {
    hide Move, Retained;
    var s' := NextToken(s, ReclaimCheck(t, id));
    if s'.At(h).Guarded? && s' != s {
      assert s.At(h) == s'.At(h);
      MoveRetained(s, s', Token(id), Recovered(t), s.At(h).ptr);
    }
  }

  /** A state in which another reference than the one to be dropped exists keeps the published graph. */
  lemma ReleaseKeeps(s: State)
    requires s.references > 1
    ensures Release(s) == s.(references := s.references - 1)
  {
  }

  lemma GuardInFinish(s: State, t: nat, id: nat, h: nat)
    requires Pins(s, h) && GuardSafe(s, h) && Enabled(s, ReclaimFinish(t, id)) && s.references > 1
    ensures GuardSafe(NextToken(s, ReclaimFinish(t, id)), h)
  {
    hide Move, Retained, Release;
    var s' := NextToken(s, ReclaimFinish(t, id));
    ReleaseKeeps(s.(held := Move(s.held, Recovered(t), Owned(id))).To(t, Idle));
    if s'.At(h).Guarded? {
      assert s.At(h) == s'.At(h);
      MoveRetained(s, s', Recovered(t), Owned(id), s.At(h).ptr);
    }
  }

  lemma GuardInDrop(s: State, id: nat, h: nat)
    requires Pins(s, h) && GuardSafe(s, h) && Enabled(s, TokenDrop(id)) && s.references > 1
    ensures GuardSafe(NextToken(s, TokenDrop(id)), h)
  {
    hide Move, Retained, Release;
    var s' := NextToken(s, TokenDrop(id));
    ReleaseKeeps(s.(held := Move(s.held, Token(id), Leaked(id))));
    if s'.At(h).Guarded? {
      MoveRetained(s, s', Token(id), Leaked(id), s.At(h).ptr);
    }
  }

  lemma NoGuardAfter(s: State, step: Step, h: nat)
    requires Enabled(s, step) && step.OfToken() && !s.At(h).Guarded?
    ensures !NextToken(s, step).At(h).Guarded?
  {
    hide NextToken, Enabled;
    TokenFrame(s, step, h);
  }

  lemma HolderShares(s: State, p: Place)
    requires Counted(s) && s.handleAlive && p in s.held && p.HoldsState()
    ensures s.references > 1
  {
    HolderCounts(s.held, p);
  }

  /** While a guard exists the handle is alive, so dropping a token never drops the last reference. */
  lemma GuardInToken(s: State, step: Step, h: nat)
    requires Pins(s, h) && GuardSafe(s, h) && Counted(s) && Borrowed(s) && Enabled(s, step) && step.OfToken()
    ensures GuardSafe(NextToken(s, step), h)
  {
    hide NextToken, Counted, Pins;
    if !s.At(h).Guarded? {
      NoGuardAfter(s, step, h);
    } else {
      assert s.handleAlive;
      hide GuardSafe, Borrowed;
      match step
      case ReclaimCheck(t, id) => GuardInCheck(s, t, id, h);
      case ReclaimFinish(t, id) =>
        HolderShares(s, Recovered(t));
        GuardInFinish(s, t, id, h);
      case TokenDrop(id) =>
        HolderShares(s, Token(id));
        GuardInDrop(s, id, h);
    }
  }

  lemma GuardInOwner(s: State, step: Step, h: nat)
    requires Pins(s, h) && GuardSafe(s, h) && Owns(s.held, s.live) && Enabled(s, step) && step.OfOwner()
    ensures GuardSafe(NextOwner(s, step), h)
  {
    var s' := NextOwner(s, step);
    if s'.At(h).Guarded? {
      assert s.At(h).Borrows();
      var a := s.At(h).ptr;
      var p :| p in s.held && p.Retains() && s.held[p] == a;
      assert a in s.live;
      assert p in s'.held && s'.held[p] == a;
    }
  }

  // Retries

  lemma RetriesInPin(s: State, step: Step, t: nat)
    requires Retries(s, t) && Enabled(s, step) && step.OfPin()
    ensures Retries(NextPin(s, step), t)
  {
  }

  /** The published pointer changes with an exchange only. */
  ghost predicate SameCurrent(s: State, s': State) {
    && s'.exchanges == s.exchanges
    && (Current in s'.held ==> Current in s.held && s'.held[Current] == s.held[Current])
  }

  lemma CurrentInSwap(s: State, step: Step)
    requires Enabled(s, step) && step.OfSwap()
    ensures if step.SwapExchange? then NextSwap(s, step).exchanges == s.exchanges + 1
            else SameCurrent(s, NextSwap(s, step))
  {
    hide Move;
  }

  lemma CurrentInToken(s: State, step: Step)
    requires Enabled(s, step) && step.OfToken()
    ensures SameCurrent(s, NextToken(s, step))
  {
    hide Move, Release;
  }

  lemma CurrentInOwner(s: State, step: Step)
    requires Enabled(s, step) && step.OfOwner()
    ensures SameCurrent(s, NextOwner(s, step))
  {
  }

  lemma RetriesInOther(s: State, step: Step, t: nat)
    requires Retries(s, t) && Enabled(s, step) && !step.OfPin()
    ensures Retries(Next(s, step), t)
  {
    hide Enabled, NextSwap, NextToken, NextOwner;
    OthersKeepPin(s, step, t);
    if step.OfSwap() { CurrentInSwap(s, step); }
    else if step.OfToken() { CurrentInToken(s, step); }
    else { CurrentInOwner(s, step); }
  }

  // Every step, every run

  lemma InvKept(s: State, step: Step, h: nat)
    requires InvFor(s, h) && Enabled(s, step)
    ensures InvFor(Next(s, step), NextPinner(s, step, h))
  {
    OwnsKept(s, step);
    PlacesKept(s, step);
    BorrowedKept(s, step);
    assert step.SwapFinish? ==> s.references > 0 by { assert step.SwapFinish? ==> s.At(step.actor).Borrows(); }
    hide NextPin, NextSwap, NextToken, NextOwner, Enabled, Owns, Counted, Borrowed, Pins, GuardSafe, Retries, Places;
    if step.OfPin() {
      CountedInPin(s, step);
      PinsInPin(s, step, h);
      GuardInPin(s, step, h);
    } else {
      PinsInOther(s, step, h);
      if step.OfSwap() {
        CountedInSwap(s, step);
        GuardInSwap(s, step, h);
      } else if step.OfToken() {
        CountedInToken(s, step);
        GuardInToken(s, step, h);
      } else {
        CountedInOwner(s, step);
        GuardInOwner(s, step, h);
      }
    }
    forall t ensures Retries(Next(s, step), t) {
      if step.OfPin() { RetriesInPin(s, step, t); } else { RetriesInOther(s, step, t); }
    }
  }

  lemma {:induction false} RunInv(first: Addr, steps: seq<Step>)
    requires Run(Initial(first), steps).Some?
    ensures Inv(Run(Initial(first), steps).value)
  {
    if steps == [] {
      InitialInv(first);
    } else {
      var last := |steps| - 1;
      RunInv(first, steps[..last]);
      hide Next, Enabled, InvFor, Initial;
      var s := Run(Initial(first), steps[..last]).value;
      var h :| InvFor(s, h);
      InvKept(s, steps[last], h);
    }
  }

  /** A state that some run from a fresh handle reaches. */
  ghost predicate Reachable(s: State) {
    exists first, steps :: Run(Initial(first), steps) == Some(s)
  }

  lemma ReachableInv(s: State)
    requires Reachable(s)
    ensures Inv(s)
  {
    var first, steps :| Run(Initial(first), steps) == Some(s);
    RunInv(first, steps);
  }

  // The guarantees

  /** A guard's graph is alive, it is the very allocation the guard was taken on, the hazard names
      it, no box, swap argument or recovery holds it, and there is no other guard. */
  lemma HazardSafety(s: State, t: nat)
    requires Reachable(s) && s.At(t).Guarded?
    ensures var a := s.At(t).ptr;
            && a in s.live && s.Birth(a) == s.At(t).birth
            && s.hazard == Some(a) && s.pinActive
            && (forall p :: p in s.held && s.held[p] == a ==> p.Current? || p.Outgoing? || p.Token? || p.Leaked?)
            && (forall u :: s.At(u).Guarded? ==> u == t)
  {
    ReachableInv(s);
    var h :| InvFor(s, h);
    assert s.At(t).InPin();
    assert forall u :: s.At(u).Guarded? ==> s.At(u).InPin();
    var p :| p in s.held && p.Retains() && s.held[p] == s.At(t).ptr;
  }

  /** Only the guard's own drop ends it; no other step touches its graph or its address. */
  lemma GuardSurvives(s: State, step: Step, t: nat)
    requires Reachable(s) && Enabled(s, step) && s.At(t).Guarded? && step != GuardClearHazard(t)
    ensures var s' := Next(s, step);
            s'.At(t) == s.At(t) && s.At(t).ptr in s'.live && s'.Birth(s.At(t).ptr) == s.At(t).birth
  {
    ReachableInv(s);
    var h :| InvFor(s, h);
    assert s.At(t).InPin();
    InvKept(s, step, h);
    assert Next(s, step).At(t) == s.At(t) by {
      if !step.OfPin() { OthersKeepPin(s, step, t); } else { assert s.At(step.actor).InPin() || step.PinTry?; }
    }
    hide Next, NextPin, NextSwap, NextToken, NextOwner;
    assert InvFor(Next(s, step), NextPinner(s, step, h));
  }

  /** Every live graph is in exactly one place of the program. */
  lemma OwnershipIsUnique(s: State, a: Addr)
    requires Reachable(s)
    ensures a in s.live <==> exists p :: p in s.held && s.held[p] == a
    ensures forall p, q :: p in s.held && q in s.held && s.held[p] == a && s.held[q] == a ==> p == q
  {
    ReachableInv(s);
    var h :| InvFor(s, h);
  }

  /** Dropping a box frees one live graph, which no one else holds. */
  lemma BoxDropFreesOnce(s: State, id: nat)
    requires Reachable(s) && Enabled(s, BoxDrop(id))
    ensures var a, s' := s.held[Owned(id)], Next(s, BoxDrop(id));
            && a in s.live && s'.live == s.live - {a}
            && forall p :: p in s'.held ==> s'.held[p] != a
  {
    ReachableInv(s);
    var h :| InvFor(s, h);
    assert Owned(id) in s.held;
  }

  lemma ReferencesGrow(s: State, step: Step)
    requires Enabled(s, step) && (step.OfPin() || step.OfSwap() || step.Allocate? || step.BoxDrop?)
    ensures Next(s, step).references >= s.references
  {
    hide Move;
  }

  lemma LastToken(s: State, step: Step)
    requires Enabled(s, step) && step.OfToken()
    requires s.references > 0 && NextToken(s, step).references == 0 && Current in s.held
    ensures NextToken(s, step).live == s.live - {s.held[Current]}
  {
    hide Move;
  }

  lemma LastHandle(s: State)
    requires Enabled(s, HandleDrop)
    requires s.references > 0 && NextOwner(s, HandleDrop).references == 0 && Current in s.held
    ensures NextOwner(s, HandleDrop).live == s.live - {s.held[Current]}
  {
  }

  lemma NobodyLeft(s: State)
    requires Counted(s) && Borrowed(s) && s.references == 0
    ensures !s.handleAlive && (forall p :: p in s.held ==> !p.Token? && !p.Recovered?)
    ensures forall t :: s.At(t).Idle? || s.At(t).Recovering?
  {
    assert Holders(s.held) == {};
    forall p | p in s.held ensures !p.Token? && !p.Recovered? {
      assert p !in Holders(s.held);
    }
    forall t ensures s.At(t).Idle? || s.At(t).Recovering? {
      assert !s.At(t).Borrows();
    }
  }

  /** The step that drops the last reference frees exactly the published graph; by then there is no
      token, no operation and no guard. Before that step no reference is dropped to zero. */
  lemma LastReleaseFreesCurrent(s: State, step: Step)
    requires Reachable(s) && Enabled(s, step) && s.references > 0 && Next(s, step).references == 0
    ensures var s' := Next(s, step);
            && Current in s.held && s.held[Current] in s.live
            && s'.live == s.live - {s.held[Current]}
            && !s'.handleAlive && (forall p :: p in s'.held ==> !p.Token? && !p.Recovered?)
            && forall t :: s'.At(t).Idle? || s'.At(t).Recovering?
  {
    ReachableInv(s);
    var h :| InvFor(s, h);
    InvKept(s, step, h);
    if step.OfToken() { LastToken(s, step); }
    else if step.HandleDrop? { LastHandle(s); }
    else { ReferencesGrow(s, step); }
    hide Next, Owns, Places, Pins, GuardSafe, Retries, Enabled;
    var s' := Next(s, step);
    hide Counted, Borrowed;
    NobodyLeft(s');
  }

  /** A pin loops back at most once for every exchange during it. */
  lemma PinRetriesAreBounded(s: State, t: nat)
    requires Reachable(s)
    ensures s.At(t).Pinning? || s.At(t).Loaded? || s.At(t).Stored? ==>
              s.At(t).retries <= s.exchanges - s.At(t).base
  {
    ReachableInv(s);
    var h :| InvFor(s, h);
    assert Retries(s, t);
  }

  /** A recovery is refused exactly when the hazard names its graph, and then a pin is in progress
      that has announced this graph: as a guard, before its validation, or before a failed one. */
  lemma ReclaimRefused(s: State, t: nat, id: nat)
    requires Reachable(s) && Enabled(s, ReclaimCheck(t, id))
    ensures var a := s.held[Token(id)];
            Next(s, ReclaimCheck(t, id)) == s <==> s.hazard == Some(a)
    ensures s.hazard == Some(s.held[Token(id)]) ==>
              exists h :: (s.At(h).Pinning? || s.At(h).Loaded? || s.At(h).Stored? || s.At(h).Guarded?)
                && (s.At(h).Guarded? || s.At(h).Stored? ==> s.At(h).ptr == s.held[Token(id)])
                && (s.At(h).Pinning? || s.At(h).Loaded? ==> s.At(h).retries > 0)
  {
    ReachableInv(s);
    var h :| InvFor(s, h);
    if s.hazard == Some(s.held[Token(id)]) {
      assert s.At(h).InPin();
    } else {
      assert Next(s, ReclaimCheck(t, id)).At(t) == Recovering;
    }
  }

  /** The next access of every operation is always possible. */
  lemma OperationsProceed(s: State, t: nat, id: nat)
    requires Reachable(s)
    requires Token(id) !in s.held && Leaked(id) !in s.held && Owned(id) !in s.held
    ensures match s.At(t)
            case Idle => true
            case Pinning(_, _) => Enabled(s, PinLoad(t))
            case Loaded(_, _, _, _) => Enabled(s, PinStore(t))
            case Stored(_, _, _, _) => Enabled(s, PinValidate(t))
            case Guarded(_, _) => Enabled(s, GuardClearHazard(t))
            case Unpinning => Enabled(s, GuardRelease(t))
            case Exchanging => Enabled(s, SwapExchange(t))
            case Counting => Enabled(s, SwapCount(t))
            case Retiring(_) => Enabled(s, SwapFinish(t, id))
            case Recovering => Enabled(s, ReclaimFinish(t, id))
  {
    ReachableInv(s);
    var h :| InvFor(s, h);
    assert Placed(s, t);
    assert s.At(t).Borrows() ==> s.handleAlive;
  }
}
