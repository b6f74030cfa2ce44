/** What one host callback does to the adapter, as functions on values. */
module AdapterModel {
  import opened Words
  import opened Wrappers
  import opened Samples
  import opened NumberTheory

  /** The DSP callback. It reads a block, may also read what the output slice held before, and
      writes a slice of that same length. `C` is whatever state the callback carries along. */
  datatype Callback<!C> = Callback(
    next: (C, seq<Sample>, seq<Sample>) -> C,
    sample: (C, seq<Sample>, seq<Sample>, nat) -> Sample)
  {
    function Render(env: C, block: seq<Sample>, before: seq<Sample>): (slice: seq<Sample>)
      ensures |slice| == |before|
    {
      seq(|before|, k requires 0 <= k < |before| => sample(env, block, before, k))
    }
  }

  /** The result of feeding a stream to the callback one block at a time. */
  datatype Rendering<C> = Rendering(env: C, scratch: seq<Sample>, rest: seq<Sample>, rendered: seq<Sample>)

  /** The callback sees exactly the consecutive complete blocks of `input`, in order. */
  function RenderBlocks<C>(cb: Callback<C>, env: C, scratch: seq<Sample>, input: seq<Sample>): (r: Rendering<C>)
    requires |scratch| > 0
    ensures |r.scratch| == |scratch|
    ensures |r.rest| < |scratch| && |r.rest| + |r.rendered| == |input|
    decreases |input|
  {
    var d := |scratch|;
    if |input| < d then
      Rendering(env, scratch, input, [])
    else
      var slice := cb.Render(env, input[..d], scratch);
      var tail := RenderBlocks(cb, cb.next(env, input[..d], scratch), slice, input[d..]);
      tail.(rendered := slice + tail.rendered)
  }

  /** The adapter between two calls; the block size D is the length of the scratch slices. */
  datatype Adapter<C> = Adapter(
    capacity: nat,
    input: seq<Sample>,
    output: seq<Sample>,
    scratch: seq<Sample>,
    quantum: Option<nat>,
    latency: nat,
    env: C)
  {
    function Block(): nat { |scratch| }

    predicate Ready() {
      && 0 < Block()
      && 2 * Block() <= capacity
      && |input| < Block()
      && |output| <= capacity
    }
  }

  function Fresh<C>(block: nat, capacity: nat, env: C): Adapter<C> {
    Adapter(capacity, [], [], Silence(block), None, 0, env)
  }

  // Priming

  predicate NeedsPriming<C>(a: Adapter<C>, hostQuantum: nat) {
    hostQuantum != 0 && a.quantum != Some(hostQuantum)
  }

  function Reserve<C>(a: Adapter<C>, hostQuantum: nat): int {
    if a.quantum == None then a.Block() - Gcd(hostQuantum, a.Block()) else a.Block() - 1
  }

  /** Silence added before a callback of `hostQuantum` samples. */
  function Inserted<C>(a: Adapter<C>, hostQuantum: nat): (inserted: nat)
    requires a.Ready()
    ensures |a.output| + inserted <= a.capacity
  {
    if NeedsPriming(a, hostQuantum) then
      Min(Max(Reserve(a, hostQuantum) - |a.output|, 0), a.capacity - |a.output|)
    else 0
  }

  function Primed<C>(a: Adapter<C>, hostQuantum: nat): Adapter<C>
    requires a.Ready()
  {
    if NeedsPriming(a, hostQuantum) then
      a.(quantum := Some(hostQuantum),
         latency := Max(a.latency, Reserve(a, hostQuantum)),
         output := a.output + Silence(Inserted(a, hostQuantum)))
    else a
  }

  // The host callback

  datatype Report = Report(
    acceptedInput: nat,
    droppedInput: nat,
    blocks: nat,
    droppedOutput: nat,
    underrun: nat,
    latencyAdded: nat)

  datatype Outcome<C> = Outcome(adapter: Adapter<C>, outputs: seq<Sample>, report: Report)

  /** All complete input blocks rendered into the output FIFO, as far as that has room. */
  function Drained<C>(cb: Callback<C>, a: Adapter<C>): (drained: Adapter<C>)
    requires a.Block() > 0
    ensures drained.Block() == a.Block() && |drained.input| < a.Block()
    ensures |drained.output| <= a.capacity
    ensures |drained.input| <= |a.input|
    ensures |drained.output| + |drained.input| <= |a.output| + |a.input|
  {
    var r := RenderBlocks(cb, a.env, a.scratch, a.input);
    a.(input := r.rest, output := Clip(a.output + r.rendered, a.capacity), scratch := r.scratch, env := r.env)
  }

  /** The oldest complete block rendered. */
  function OneBlock<C>(cb: Callback<C>, a: Adapter<C>): Adapter<C>
    requires 0 < a.Block() <= |a.input|
  {
    var block := a.input[..a.Block()];
    var slice := cb.Render(a.env, block, a.scratch);
    a.(input := a.input[a.Block()..],
       output := Clip(a.output + slice, a.capacity),
       scratch := slice,
       env := cb.next(a.env, block, a.scratch))
  }

  /** Draining block by block, each block clipped on its own, clips the whole rendering. */
  lemma DrainOne<C>(cb: Callback<C>, a: Adapter<C>)
    requires 0 < a.Block() <= |a.input|
    ensures Drained(cb, OneBlock(cb, a)) == Drained(cb, a)
  {
    var slice := OneBlock(cb, a).scratch;
    var r := RenderBlocks(cb, OneBlock(cb, a).env, slice, OneBlock(cb, a).input);
    ClipAppend(a.output + slice, r.rendered, a.capacity);
    ClipAppend(Clip(a.output + slice, a.capacity), r.rendered, a.capacity);
    assert a.output + slice + r.rendered == a.output + (slice + r.rendered);
  }

  /** Nothing is left to drain once no complete block is queued. */
  lemma DrainNone<C>(cb: Callback<C>, a: Adapter<C>)
    requires |a.input| < a.Block() && |a.output| <= a.capacity
    ensures Drained(cb, a) == a
  {
    assert a.output + [] == a.output;
  }

  /** The input samples that still fit, queued. */
  function Filled<C>(a: Adapter<C>, inputs: seq<Sample>): (filled: Adapter<C>)
    ensures |a.input| <= |filled.input| <= |a.input| + |inputs|
  {
    a.(input := Clip(a.input + inputs, Max(a.capacity, |a.input|)))
  }

  /** The state after the host took `wanted` samples, or all there are. */
  function Served<C>(a: Adapter<C>, wanted: nat): Adapter<C> {
    a.(output := a.output[Min(wanted, |a.output|)..])
  }

  /** `wanted` samples: the oldest of the queue, then silence. */
  function Taken(queued: seq<Sample>, wanted: nat): (outputs: seq<Sample>)
    ensures |outputs| == wanted
  {
    Clip(queued, wanted) + Silence(Max(wanted - |queued|, 0))
  }

  lemma TakenNext(queued: seq<Sample>, k: nat)
    ensures Taken(queued, k + 1) == Taken(queued, k) + [if k < |queued| then queued[k] else SILENCE]
  {
  }

  /** The host's output slice. */
  function Delivery<C>(a: Adapter<C>, wanted: nat): (outputs: seq<Sample>)
    ensures |outputs| == wanted
  {
    Taken(a.output, wanted)
  }

  function Processed<C>(cb: Callback<C>, a: Adapter<C>, inputs: seq<Sample>, wanted: nat): Outcome<C>
    requires a.Ready()
  {
    hide RenderBlocks, Clip, Silence, Inserted;
    var filled := Filled(Primed(a, wanted), inputs);
    var drained := Drained(cb, filled);
    var accepted := |filled.input| - |a.input|;
    Outcome(
      Served(drained, wanted),
      Delivery(drained, wanted),
      Report(accepted, |inputs| - accepted, |filled.input| / a.Block(),
             |filled.output| + |filled.input| - |drained.input| - |drained.output|,
             Max(wanted - |drained.output|, 0), Inserted(a, wanted)))
  }

  /** The remainder followed by silence up to a complete block. */
  function Padded<C>(a: Adapter<C>): (block: seq<Sample>)
    requires a.Ready()
    ensures |block| == a.Block()
  {
    a.input + Silence(a.Block() - |a.input|)
  }

  /** The samples `flush` returns: the pending output, then the rendering of the padded
      remainder cut to the length of the remainder and to the room left in the output FIFO. */
  function Flushed<C>(cb: Callback<C>, a: Adapter<C>): seq<Sample>
    requires a.Ready()
  {
    if a.input == [] then a.output
    else Clip(a.output + cb.Render(a.env, Padded(a), a.scratch)[..|a.input|], a.capacity)
  }

  function AfterFlush<C>(cb: Callback<C>, a: Adapter<C>): Adapter<C>
    requires a.Ready()
  {
    if a.input == [] then a.(output := [])
    else
      a.(input := [], output := [],
         scratch := cb.Render(a.env, Padded(a), a.scratch),
         env := cb.next(a.env, Padded(a), a.scratch))
  }
}
