/** Hazard-pointer publication of graphs as an interleaving of atomic accesses.

    An actor is one operation in progress: a pin, a swap or a reclamation. Any number of actors
    interleave, one atomic access a step, under sequential consistency. Addresses are reused by the
    allocator, and a recovered graph may be published again. */
module Publication {
  import opened Words
  import opened Wrappers

  type Addr = nat

  /** The version that a swap obtained from its increment. The number says which increment of the
      run that was; it is not part of the program. */
  datatype Stamp = Stamp(version: nat, number: nat)

  /** Where an actor stands; each case names the access that comes next. The counters in a pin
      record the exchanges seen at its start, its failed validations and the exchanges at its load. */
  datatype Pc =
    | Idle
    | Pinning(base: nat, retries: nat)
    | Loaded(ptr: Addr, base: nat, retries: nat, seen: nat)
    | Stored(ptr: Addr, base: nat, retries: nat, seen: nat)
    | Guarded(ptr: Addr, birth: nat)
    | Unpinning
    | Exchanging
    | Counting
    | Retiring(stamp: Stamp)
    | Recovering
  {
    predicate InPin() { Pinning? || Loaded? || Stored? || Guarded? || Unpinning? }

    /** The operation borrows the handle. */
    predicate Borrows() { InPin() || Exchanging? || Counting? || Retiring? }
  }

  /** The variables of the program that own a graph through a raw pointer or a `Box`. */
  datatype Place =
    | Current
    | Incoming(actor: nat)
    | Outgoing(actor: nat)
    | Token(id: nat)
    | Recovered(actor: nat)
    | Owned(id: nat)
    | Leaked(id: nat)
  {
    /** The token keeps the shared state alive until its recovery is complete. */
    predicate HoldsState() { Token? || Recovered? }

    /** A guard may still be reading a graph that is held here. */
    predicate Retains() { Current? || Outgoing? || Token? || Leaked? }
  }

  /** `stamps` is `retired_at_version` of every token. `exchanges` and `counts` are the exchanges and
      the version increments so far and are not part of the program. */
  datatype State = State(
    held: map<Place, Addr>,
    live: set<Addr>,
    births: map<Addr, nat>,
    hazard: Option<Addr>,
    pinActive: bool,
    version: nat,
    references: nat,
    handleAlive: bool,
    exchanges: nat,
    counts: nat,
    stamps: map<nat, Stamp>,
    pcs: map<nat, Pc>)
  {
    function Birth(a: Addr): nat { if a in births then births[a] else 0 }

    /** An actor that is in no operation is idle. */
    function At(actor: nat): Pc { if actor in pcs then pcs[actor] else Idle }

    function To(actor: nat, pc: Pc): State { this.(pcs := pcs[actor := pc]) }
  }

  /** The handle as created, with one graph published. */
  function Initial(first: Addr): State {
    State(map[Current := first], {first}, map[first := 1], None, false, 1, 1, true, 0, 0, map[], map[])
  }

  datatype Step =
    | PinTry(actor: nat)
    | PinLoad(actor: nat)
    | PinStore(actor: nat)
    | PinValidate(actor: nat)
    | GuardClearHazard(actor: nat)
    | GuardRelease(actor: nat)
    | SwapBegin(actor: nat, id: nat)
    | SwapExchange(actor: nat)
    | SwapCount(actor: nat)
    | SwapFinish(actor: nat, id: nat)
    | ReclaimCheck(actor: nat, id: nat)
    | ReclaimFinish(actor: nat, id: nat)
    | TokenDrop(id: nat)
    | Allocate(addr: Addr, id: nat)
    | BoxDrop(id: nat)
    | HandleDrop
  {
    predicate OfPin() { PinTry? || PinLoad? || PinStore? || PinValidate? || GuardClearHazard? || GuardRelease? }

    predicate OfSwap() { SwapBegin? || SwapExchange? || SwapCount? || SwapFinish? }

    predicate OfToken() { ReclaimCheck? || ReclaimFinish? || TokenDrop? }

    predicate OfOwner() { Allocate? || BoxDrop? || HandleDrop? }
  }

  predicate Enabled(s: State, step: Step) {
    match step
    case PinTry(t) => s.At(t).Idle? && s.handleAlive
    case PinLoad(t) => s.At(t).Pinning? && Current in s.held
    case PinStore(t) => s.At(t).Loaded?
    case PinValidate(t) => s.At(t).Stored? && Current in s.held
    case GuardClearHazard(t) => s.At(t).Guarded?
    case GuardRelease(t) => s.At(t).Unpinning?
    case SwapBegin(t, id) => s.At(t).Idle? && s.handleAlive && Owned(id) in s.held && Incoming(t) !in s.held
    case SwapExchange(t) => s.At(t).Exchanging? && Incoming(t) in s.held && Current in s.held && Outgoing(t) !in s.held
    case SwapCount(t) => s.At(t).Counting?
    case SwapFinish(t, id) =>
      s.At(t).Retiring? && Outgoing(t) in s.held && Token(id) !in s.held && Leaked(id) !in s.held
    case ReclaimCheck(t, id) => s.At(t).Idle? && Token(id) in s.held && Recovered(t) !in s.held
    case ReclaimFinish(t, id) => s.At(t).Recovering? && Recovered(t) in s.held && Owned(id) !in s.held
    case TokenDrop(id) => Token(id) in s.held && Leaked(id) !in s.held
    case Allocate(a, id) => a !in s.live && Owned(id) !in s.held
    case BoxDrop(id) => Owned(id) in s.held
    case HandleDrop => s.handleAlive && forall t :: t in s.pcs ==> !s.pcs[t].Borrows()
  }

  /** The pointer in `from` moves to `to`. */
  function Move(held: map<Place, Addr>, from: Place, to: Place): (moved: map<Place, Addr>)
    requires from in held
    ensures forall p :: p in moved <==> p == to || (p in held && p != from)
    ensures forall p :: p in moved ==> moved[p] == held[if p == to then from else p]
  {
    (held - {from})[to := held[from]]
  }

  function Free(s: State, place: Place): State
    requires place in s.held
  {
    s.(held := s.held - {place}, live := s.live - {s.held[place]})
  }

  /** Drop one reference to the shared state; the last one frees the published graph. */
  function Release(s: State): (r: State)
    ensures r == s.(held := r.held, live := r.live, references := r.references)
    ensures forall p :: p in r.held ==> p in s.held && r.held[p] == s.held[p]
    ensures forall p :: p in s.held && p != Current ==> p in r.held
  {
    if s.references == 1 && Current in s.held then Free(s, Current).(references := 0)
    else if s.references > 0 then s.(references := s.references - 1)
    else s
  }

  function Next(s: State, step: Step): State
    requires Enabled(s, step)
  {
    if step.OfPin() then NextPin(s, step)
    else if step.OfSwap() then NextSwap(s, step)
    else if step.OfToken() then NextToken(s, step)
    else NextOwner(s, step)
  }

  /** `try_pin` and the drop of its guard. */
  function NextPin(s: State, step: Step): State
    requires Enabled(s, step) && step.OfPin()
  {
    var t, pc := step.actor, s.At(step.actor);
    match step
    case PinTry(_) => if s.pinActive then s else s.(pinActive := true).To(t, Pinning(s.exchanges, 0))
    case PinLoad(_) => s.To(t, Loaded(s.held[Current], pc.base, pc.retries, s.exchanges))
    case PinStore(_) => s.(hazard := Some(pc.ptr)).To(t, Stored(pc.ptr, pc.base, pc.retries, pc.seen))
    case PinValidate(_) =>
      if s.held[Current] == pc.ptr then s.To(t, Guarded(pc.ptr, s.Birth(pc.ptr)))
      else s.To(t, Pinning(pc.base, pc.retries + 1))
    case GuardClearHazard(_) => s.(hazard := None).To(t, Unpinning)
    case GuardRelease(_) => s.(pinActive := false).To(t, Idle)
  }

  /** `swap`: move the box in, exchange the pointers, count the version, make the token. */
  function NextSwap(s: State, step: Step): State
    requires Enabled(s, step) && step.OfSwap()
  {
    match step
    case SwapBegin(t, id) => s.(held := Move(s.held, Owned(id), Incoming(t))).To(t, Exchanging)
    case SwapExchange(t) =>
      s.(held := Move(Move(s.held, Current, Outgoing(t)), Incoming(t), Current),
         exchanges := s.exchanges + 1).To(t, Counting)
    case SwapCount(t) =>
      var version := (s.version + 1) % U64_VALUES;
      s.(version := version, counts := s.counts + 1).To(t, Retiring(Stamp(version, s.counts + 1)))
    case SwapFinish(t, id) =>
      s.(held := Move(s.held, Outgoing(t), Token(id)), references := s.references + 1,
         stamps := s.stamps[id := s.At(t).stamp]).To(t, Idle)
  }

  /** `try_into_box`: it gives up when the hazard names its graph; otherwise it rebuilds the box and
      drops its reference. A token may also be dropped, which leaks the graph. */
  function NextToken(s: State, step: Step): State
    requires Enabled(s, step) && step.OfToken()
  {
    match step
    case ReclaimCheck(t, id) =>
      if s.hazard == Some(s.held[Token(id)]) then s
      else s.(held := Move(s.held, Token(id), Recovered(t))).To(t, Recovering)
    case ReclaimFinish(t, id) =>
      Release(s.(held := Move(s.held, Recovered(t), Owned(id))).To(t, Idle))
    case TokenDrop(id) => Release(s.(held := Move(s.held, Token(id), Leaked(id))))
  }

  /** The owners of boxes and of the handle. */
  function NextOwner(s: State, step: Step): State
    requires Enabled(s, step) && step.OfOwner()
  {
    match step
    case Allocate(a, id) =>
      s.(held := s.held[Owned(id) := a], live := s.live + {a}, births := s.births[a := s.Birth(a) + 1])
    case BoxDrop(id) => Free(s, Owned(id))
    case HandleDrop => Release(s.(handleAlive := false))
  }

  /** The state after a run, if every step of it was possible. */
  function Run(s: State, steps: seq<Step>): Option<State> {
    if steps == [] then Some(s)
    else
      var before := Run(s, steps[..|steps| - 1]);
      if before.Some? && Enabled(before.value, steps[|steps| - 1])
      then Some(Next(before.value, steps[|steps| - 1]))
      else None
  }
}
