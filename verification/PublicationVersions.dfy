/** The version counter, and the versions that retired graphs carry. */
module PublicationVersions {
  import opened Words
  import opened Wrappers
  import opened Publication
  import opened PublicationSafety
  import NumberTheory

  function Exchanges(steps: seq<Step>): nat {
    if steps == [] then 0
    else Exchanges(steps[..|steps| - 1]) + One(steps[|steps| - 1].SwapExchange?)
  }

  function VersionSteps(steps: seq<Step>): nat {
    if steps == [] then 0
    else VersionSteps(steps[..|steps| - 1]) + One(steps[|steps| - 1].SwapCount?)
  }

  /** What a step does to the version and to the two counts of the history. */
  ghost predicate Counts(s: State, s': State, step: Step) {
    && s'.version == (if step.SwapCount? then (s.version + 1) % U64_VALUES else s.version)
    && s'.exchanges == s.exchanges + One(step.SwapExchange?)
    && s'.counts == s.counts + One(step.SwapCount?)
  }

  lemma CountsInSwap(s: State, step: Step)
    requires Enabled(s, step) && step.OfSwap()
    ensures Counts(s, NextSwap(s, step), step)
  {
    hide Move;
  }

  lemma CountsInOwner(s: State, step: Step)
    requires Enabled(s, step) && step.OfOwner()
    ensures Counts(s, NextOwner(s, step), step)
  {
    hide Release;
  }

  lemma VersionStep(s: State, step: Step)
    requires Enabled(s, step)
    ensures Counts(s, Next(s, step), step)
  {
    hide NextPin, NextSwap, NextToken, NextOwner, Enabled;
    if step.OfPin() { PinFrame(s, step, 0); }
    else if step.OfSwap() { CountsInSwap(s, step); }
    else if step.OfToken() { TokenFrame(s, step, 0); }
    else { CountsInOwner(s, step); }
  }

  /** The version is one plus the number of completed increments, modulo 2^64. */
  lemma {:induction false} VersionCounts(first: Addr, steps: seq<Step>)
    requires Run(Initial(first), steps).Some?
    ensures var s := Run(Initial(first), steps).value;
            && s.version == (1 + VersionSteps(steps)) % U64_VALUES
            && s.counts == VersionSteps(steps) && s.exchanges == Exchanges(steps)
  {
    hide Next, Enabled;
    if steps != [] {
      var last := |steps| - 1;
      VersionCounts(first, steps[..last]);
      VersionStep(Run(Initial(first), steps[..last]).value, steps[last]);
      NumberTheory.AddMod(1 + VersionSteps(steps[..last]), 1, U64_VALUES);
    }
  }

  // Stamps

  /** Where a stamp is: in a swap that is about to make its token, or in the token. */
  datatype Bearer = Swap(actor: nat) | Retired(id: nat)

  predicate Bears(s: State, b: Bearer) {
    match b
    case Swap(t) => s.At(t).Retiring?
    case Retired(id) => Token(id) in s.held && id in s.stamps
  }

  function StampOf(s: State, b: Bearer): Stamp
    requires Bears(s, b)
  {
    match b
    case Swap(t) => s.At(t).stamp
    case Retired(id) => s.stamps[id]
  }

  /** A stamp names a past increment and the version that it produced. */
  predicate Genuine(s: State, stamp: Stamp) {
    0 < stamp.number <= s.counts && stamp.version == (1 + stamp.number) % U64_VALUES
  }

  /** Every token has a stamp, and no two stamps come from the same increment. */
  ghost predicate Stamped(s: State) {
    && s.version == (1 + s.counts) % U64_VALUES
    && (forall id :: Token(id) in s.held ==> Bears(s, Retired(id)))
    && (forall b :: Bears(s, b) ==> Genuine(s, StampOf(s, b)))
    && (forall b, c :: Bears(s, b) && Bears(s, c) && StampOf(s, b).number == StampOf(s, c).number ==> b == c)
  }

  /** Who bore the stamp of `b` before the step. */
  function Before(step: Step, b: Bearer): Bearer {
    if step.SwapFinish? && b == Retired(step.id) then Swap(step.actor) else b
  }

  /** After the step, bearers are the old ones, the new token in place of its swap, and a swap that
      has just counted. */
  ghost predicate PassedOn(s: State, s': State, step: Step, b: Bearer) {
    if step.SwapCount? && b == Swap(step.actor)
    then Bears(s', b) && StampOf(s', b) == Stamp(s'.version, s'.counts)
    else Bears(s', b) ==> Bears(s, Before(step, b)) && StampOf(s', b) == StampOf(s, Before(step, b))
  }

  lemma PassedOnInPin(s: State, step: Step, b: Bearer)
    requires Enabled(s, step) && step.OfPin()
    ensures PassedOn(s, NextPin(s, step), step, b)
  {
    hide NextPin, Enabled;
    if b.Swap? { PinFrame(s, step, b.actor); } else { PinFrame(s, step, 0); }
  }

  lemma PassedOnInSwap(s: State, step: Step, b: Bearer)
    requires Enabled(s, step) && step.OfSwap()
    ensures PassedOn(s, NextSwap(s, step), step, b)
    ensures step.SwapFinish? ==> Bears(NextSwap(s, step), Retired(step.id))
  {
    hide Move;
  }

  lemma PassedOnInToken(s: State, step: Step, b: Bearer)
    requires Enabled(s, step) && step.OfToken()
    ensures PassedOn(s, NextToken(s, step), step, b)
  {
    hide NextToken, Enabled, Move;
    match b
    case Swap(t) => TokenFrame(s, step, t);
    case Retired(id) => TokenFrame(s, step, 0); NoNewToken(s, step, id);
  }

  lemma NoNewToken(s: State, step: Step, id: nat)
    requires Enabled(s, step) && step.OfToken()
    ensures Token(id) in NextToken(s, step).held ==> Token(id) in s.held
  {
    hide Move, Release;
  }

  lemma PassedOnInOwner(s: State, step: Step, b: Bearer)
    requires Enabled(s, step) && step.OfOwner()
    ensures PassedOn(s, NextOwner(s, step), step, b)
  {
    hide Release;
  }

  lemma StampsPassOn(s: State, step: Step, b: Bearer)
    requires Enabled(s, step)
    ensures PassedOn(s, Next(s, step), step, b)
    ensures step.SwapFinish? ==> Bears(Next(s, step), Retired(step.id))
  {
    hide PassedOn, NextPin, NextSwap, NextToken, NextOwner, Enabled;
    if step.OfPin() { PassedOnInPin(s, step, b); }
    else if step.OfSwap() { PassedOnInSwap(s, step, b); }
    else if step.OfToken() { PassedOnInToken(s, step, b); }
    else { PassedOnInOwner(s, step, b); }
  }

  /** Tokens appear only when a swap finishes, and no stamp is taken away. */
  ghost predicate TokensKept(s: State, s': State, step: Step, id: nat) {
    && (Token(id) in s'.held ==> Token(id) in s.held || (step.SwapFinish? && step.id == id))
    && (id in s.stamps ==> id in s'.stamps)
  }

  lemma TokensInSwap(s: State, step: Step, id: nat)
    requires Enabled(s, step) && step.OfSwap()
    ensures TokensKept(s, NextSwap(s, step), step, id)
    ensures step.SwapFinish? ==> !Bears(NextSwap(s, step), Swap(step.actor))
  {
    hide Move;
  }

  lemma TokensInOther(s: State, step: Step, id: nat)
    requires Enabled(s, step) && !step.OfSwap()
    ensures TokensKept(s, Next(s, step), step, id)
  {
    hide Move, Release;
  }

  lemma TokenBears(s: State, step: Step, id: nat)
    requires Stamped(s) && Enabled(s, step) && Token(id) in Next(s, step).held
    ensures Bears(Next(s, step), Retired(id))
  {
    StampsPassOn(s, step, Retired(id));
    hide Enabled, NextPin, NextSwap, NextToken, NextOwner, PassedOn;
    if step.OfSwap() { TokensInSwap(s, step, id); } else { TokensInOther(s, step, id); }
  }

  lemma StaysGenuine(s: State, step: Step, b: Bearer)
    requires Stamped(s) && Enabled(s, step) && Bears(Next(s, step), b)
    ensures Genuine(Next(s, step), StampOf(Next(s, step), b))
  {
    hide Next, Enabled;
    VersionStep(s, step);
    StampsPassOn(s, step, b);
    NumberTheory.AddMod(1 + s.counts, 1, U64_VALUES);
    hide Bears, StampOf;
  }

  lemma StaysDistinct(s: State, step: Step, b: Bearer, c: Bearer)
    requires Stamped(s) && Enabled(s, step)
    requires var s' := Next(s, step); Bears(s', b) && Bears(s', c) && StampOf(s', b).number == StampOf(s', c).number
    ensures b == c
  {
    StampsPassOn(s, step, b);
    StampsPassOn(s, step, c);
    VersionStep(s, step);
    if step.SwapFinish? { TokensInSwap(s, step, step.id); }
    hide Next, Enabled, NextSwap, Bears, StampOf;
  }

  lemma StampedKept(s: State, step: Step)
    requires Stamped(s) && Enabled(s, step)
    ensures Stamped(Next(s, step))
  {
    hide Next, Enabled, Bears, StampOf, Genuine;
    var s' := Next(s, step);
    VersionStep(s, step);
    NumberTheory.AddMod(1 + s.counts, 1, U64_VALUES);
    forall id | Token(id) in s'.held ensures Bears(s', Retired(id)) {
      TokenBears(s, step, id);
    }
    forall b | Bears(s', b) ensures Genuine(s', StampOf(s', b)) {
      StaysGenuine(s, step, b);
    }
    forall b, c | Bears(s', b) && Bears(s', c) && StampOf(s', b).number == StampOf(s', c).number ensures b == c {
      StaysDistinct(s, step, b, c);
    }
  }

  lemma {:induction false} RunStamped(first: Addr, steps: seq<Step>)
    requires Run(Initial(first), steps).Some?
    ensures Stamped(Run(Initial(first), steps).value)
  {
    if steps == [] {
      InitialStamped(first);
    } else {
      hide Next, Enabled, Stamped;
      var last := |steps| - 1;
      RunStamped(first, steps[..last]);
      StampedKept(Run(Initial(first), steps[..last]).value, steps[last]);
    }
  }

  lemma InitialStamped(first: Addr)
    ensures Stamped(Initial(first))
  {
  }

  /** `retired_at_version` of every token is the version produced by one past increment of its own,
      modulo 2^64. As long as the counter has not wrapped it is at most the current version, and no
      two tokens carry the same one. */
  lemma RetiredVersions(s: State, i: nat, j: nat)
    requires Reachable(s) && Token(i) in s.held && Token(j) in s.held
    ensures i in s.stamps && j in s.stamps
    ensures 0 < s.stamps[i].number <= s.counts && s.stamps[i].version == (1 + s.stamps[i].number) % U64_VALUES
    ensures i != j ==> s.stamps[i].number != s.stamps[j].number
    ensures s.counts + 1 < U64_VALUES ==>
              1 < s.stamps[i].version <= s.version && (i != j ==> s.stamps[i].version != s.stamps[j].version)
  {
    hide Run;
    var first, steps :| Run(Initial(first), steps) == Some(s);
    RunStamped(first, steps);
    hide Initial;
    assert Bears(s, Retired(i)) && Bears(s, Retired(j));
    assert Genuine(s, StampOf(s, Retired(i))) && Genuine(s, StampOf(s, Retired(j)));
  }
}
