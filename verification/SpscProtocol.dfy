/** The single-producer single-consumer ring as an interleaving of atomic accesses, with indices
    that wrap at the machine width and slots that are the index modulo the ring size. */
module SpscProtocol {
  import opened Wrappers

  /** The producer between two accesses. `tail` is its own copy of the index. */
  datatype Producer<T> =
    | Resting
    | KnowsTail(value: T, tail: nat)
    | MayWrite(value: T, tail: nat)
    | HasWritten(value: T, tail: nat)

  /** The consumer between two accesses, in `pop` or in `pop_slice_copy` of `wanted` values. */
  datatype Consumer<T> =
    | Waiting
    | KnowsHead(head: nat)
    | MayRead(head: nat)
    | HasRead(head: nat, value: T)
    | SliceKnowsHead(head: nat, wanted: nat)
    | SliceReading(head: nat, wanted: nat, taken: seq<T>)

  /** `size` is the number of slots, `modulus` the number of index values of the machine. The
      histories of published and consumed values are not part of the program. */
  datatype State<T> = State(
    size: nat,
    modulus: nat,
    head: nat,
    tail: nat,
    cells: seq<Option<T>>,
    producer: Producer<T>,
    consumer: Consumer<T>,
    pushed: seq<T>,
    popped: seq<T>)
  {
    predicate Sized() { 0 < size < modulus && |cells| == size }
  }

  function Initial<T>(size: nat, modulus: nat): State<T> {
    State(size, modulus, 0, 0, seq(size, _ => None), Resting, Waiting, [], [])
  }

  function WrappingSub(a: nat, b: nat, modulus: nat): nat
    requires modulus > 0
  {
    (a - b) % modulus
  }

  function WrappingAdd(a: nat, b: nat, modulus: nat): nat
    requires modulus > 0
  {
    (a + b) % modulus
  }

  datatype Step<T> =
    | PushLoadTail(value: T)
    | PushLoadHead
    | PushWrite
    | PushPublish
    | PopLoadHead
    | PopLoadTail
    | PopRead
    | PopPublish
    | SliceLoadHead(wanted: nat)
    | SliceLoadTail
    | SliceRead
    | SlicePublish
  {
    predicate OfProducer() { PushLoadTail? || PushLoadHead? || PushWrite? || PushPublish? }
  }

  predicate Enabled<T>(s: State<T>, step: Step<T>) {
    match step
    case PushLoadTail(_) => s.producer.Resting?
    case PushLoadHead => s.producer.KnowsTail?
    case PushWrite => s.producer.MayWrite?
    case PushPublish => s.producer.HasWritten?
    case PopLoadHead => s.consumer.Waiting?
    case PopLoadTail => s.consumer.KnowsHead?
    case PopRead => s.consumer.MayRead?
    case PopPublish => s.consumer.HasRead?
    case SliceLoadHead(_) => s.consumer.Waiting?
    case SliceLoadTail => s.consumer.SliceKnowsHead?
    case SliceRead => s.consumer.SliceReading? && |s.consumer.taken| < s.consumer.wanted
    case SlicePublish => s.consumer.SliceReading? && |s.consumer.taken| == s.consumer.wanted
  }

  /** Whether the ring is full, as `push` decides it from its copy of the tail and the head it loads. */
  predicate SeesFull<T>(s: State<T>, tail: nat)
    requires s.Sized()
  {
    WrappingSub(tail, s.head, s.modulus) == s.size
  }

  function NextProducer<T>(s: State<T>, step: Step<T>): State<T>
    requires s.Sized() && Enabled(s, step) && step.OfProducer()
  {
    match step
    case PushLoadTail(value) => s.(producer := KnowsTail(value, s.tail))
    case PushLoadHead =>
      if SeesFull(s, s.producer.tail) then s.(producer := Resting)
      else s.(producer := MayWrite(s.producer.value, s.producer.tail))
    case PushWrite =>
      s.(cells := s.cells[s.producer.tail % s.size := Some(s.producer.value)],
         producer := HasWritten(s.producer.value, s.producer.tail))
    case PushPublish =>
      s.(tail := WrappingAdd(s.producer.tail, 1, s.modulus), producer := Resting,
         pushed := s.pushed + [s.producer.value])
  }

  /** The value in a slot. Reading an uninitialised slot would be undefined; the model stops there. */
  function CellAt<T>(s: State<T>, index: nat): Option<T>
    requires s.Sized()
  {
    s.cells[index % s.size]
  }

  function NextConsumer<T>(s: State<T>, step: Step<T>): State<T>
    requires s.Sized() && Enabled(s, step) && !step.OfProducer()
  {
    var c := s.consumer;
    match step
    case PopLoadHead => s.(consumer := KnowsHead(s.head))
    case PopLoadTail => s.(consumer := if s.tail == c.head then Waiting else MayRead(c.head))
    case PopRead =>
      (match CellAt(s, c.head) case Some(v) => s.(consumer := HasRead(c.head, v)) case None => s)
    case PopPublish =>
      s.(head := WrappingAdd(c.head, 1, s.modulus), consumer := Waiting, popped := s.popped + [c.value])
    case SliceLoadHead(wanted) => s.(consumer := SliceKnowsHead(s.head, wanted))
    case SliceLoadTail =>
      s.(consumer := if WrappingSub(s.tail, c.head, s.modulus) < c.wanted then Waiting
                     else SliceReading(c.head, c.wanted, []))
    case SliceRead =>
      (match CellAt(s, WrappingAdd(c.head, |c.taken|, s.modulus))
       case Some(v) => s.(consumer := SliceReading(c.head, c.wanted, c.taken + [v]))
       case None => s)
    case SlicePublish =>
      s.(head := WrappingAdd(c.head, c.wanted, s.modulus), consumer := Waiting, popped := s.popped + c.taken)
  }

  function Next<T>(s: State<T>, step: Step<T>): (s': State<T>)
    requires s.Sized() && Enabled(s, step)
    ensures s'.Sized() && s'.size == s.size && s'.modulus == s.modulus
  {
    if step.OfProducer() then NextProducer(s, step) else NextConsumer(s, step)
  }

  /** The state after a run, if every step of it was possible. */
  function Run<T>(s: State<T>, steps: seq<Step<T>>): (r: Option<State<T>>)
    requires s.Sized()
    ensures r.Some? ==> r.value.Sized() && r.value.size == s.size && r.value.modulus == s.modulus
  {
    if steps == [] then Some(s)
    else
      var before := Run(s, steps[..|steps| - 1]);
      if before.Some? && Enabled(before.value, steps[|steps| - 1])
      then Some(Next(before.value, steps[|steps| - 1]))
      else None
  }
}
