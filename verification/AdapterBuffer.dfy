/** The adapter object: two FIFOs, two scratch slices and the priming state, updated in place. */
module AdapterBuffers {
  import opened Words
  import opened Wrappers
  import opened Sequences
  import opened Samples
  import opened NumberTheory
  import opened SampleFifos
  import opened AdapterModel

  method GreatestCommonDivisor(left: nat, right: nat) returns (gcd: nat)
    ensures gcd == Gcd(left, right)
    ensures left > 0 || right > 0 ==> IsGcd(gcd, left, right)
  {
    gcd := left;
    var divisor: nat := right;
    while divisor != 0
      invariant Gcd(gcd, divisor) == Gcd(left, right)
      decreases divisor
    {
      gcd, divisor := divisor, gcd % divisor;
    }
    if left > 0 || right > 0 {
      GcdIsGreatest(left, right);
    }
  }

  class AdapterBuffer {
    const inputFifo: SampleFifo
    const outputFifo: SampleFifo
    const scratchIn: array<Sample>
    const scratchOut: array<Sample>
    const targetBlockSize: nat
    var hostQuantum: Option<nat>
    var latencySamples: nat

    ghost function Repr(): set<object> {
      {this, inputFifo, outputFifo, inputFifo.storage, outputFifo.storage, scratchIn, scratchOut}
    }

    /** Everything but the bound on the input FIFO, which only holds between public calls. */
    ghost predicate Consistent()
      reads Repr()
    {
      && inputFifo != outputFifo
      && inputFifo.storage != outputFifo.storage
      && scratchIn != inputFifo.storage && scratchIn != outputFifo.storage
      && scratchOut != inputFifo.storage && scratchOut != outputFifo.storage
      && scratchIn != scratchOut
      && inputFifo.Valid() && outputFifo.Valid()
      && 0 < targetBlockSize == scratchIn.Length == scratchOut.Length
      && inputFifo.storage.Length == outputFifo.storage.Length
      && 2 * targetBlockSize <= inputFifo.storage.Length
    }

    ghost predicate Valid()
      reads Repr()
    {
      Consistent() && inputFifo.len < targetBlockSize
    }

    /** The adapter as a value, given the callback's own state. */
    ghost function View<C>(env: C): (a: Adapter<C>)
      reads Repr()
      requires Consistent()
    {
      Adapter(outputFifo.storage.Length, inputFifo.Contents(), outputFifo.Contents(),
              scratchOut[..], hostQuantum, latencySamples, env)
    }

    /** The bounds are the constructor's own assertions; both FIFOs must fit in memory. */
    constructor (blockSize: nat, capacity: nat)
      requires blockSize > 0
      requires Min(2 * blockSize, USIZE_MAX) <= capacity < USIZE_MAX
      ensures Valid() && fresh(Repr())
      ensures forall env: () :: View(env) == Fresh(blockSize, capacity, env)
    {
      inputFifo := new SampleFifo(capacity);
      outputFifo := new SampleFifo(capacity);
      scratchIn := new Sample[blockSize](_ => SILENCE);
      scratchOut := new Sample[blockSize](_ => SILENCE);
      targetBlockSize := blockSize;
      hostQuantum := None;
      latencySamples := 0;
      new;
      assert scratchOut[..] == Silence(blockSize);
    }

    method PrimeForQuantum<C>(quantum: nat, ghost env: C) returns (inserted: nat)
      requires Valid()
      modifies this, outputFifo, outputFifo.storage
      ensures Valid()
      ensures View(env) == Primed(old(View(env)), quantum)
      ensures inserted == Inserted(old(View(env)), quantum)
    {
      if quantum == 0 {
        return 0;
      }
      var required: nat;
      match hostQuantum {
        case None =>
          var gcd := GreatestCommonDivisor(quantum, targetBlockSize);
          GcdRange(quantum, targetBlockSize);
          required := targetBlockSize - gcd;
        case Some(previous) =>
          if previous == quantum {
            return 0;
          }
          required := targetBlockSize - 1;
      }
      hostQuantum := Some(quantum);
      latencySamples := Max(latencySamples, required);
      var needed := Max(required - outputFifo.len, 0);
      inserted := outputFifo.PushZeros(needed);
    }

    /** Run the callback on the input scratch slice; it overwrites the output scratch slice. */
    method Render<C>(cb: Callback<C>, env: C) returns (env': C)
      requires scratchIn != scratchOut
      modifies scratchOut
      ensures env' == cb.next(env, scratchIn[..], old(scratchOut[..]))
      ensures scratchOut[..] == cb.Render(env, scratchIn[..], old(scratchOut[..]))
    {
      var block, before := scratchIn[..], scratchOut[..];
      var slice := cb.Render(env, block, before);
      forall k | 0 <= k < scratchOut.Length {
        scratchOut[k] := slice[k];
      }
      assert scratchIn[..] == block && scratchOut[..] == slice;
      env' := cb.next(env, block, before);
    }

    method AcceptInput<C>(inputs: seq<Sample>, ghost env: C) returns (accepted: nat)
      requires Valid()
      modifies inputFifo, inputFifo.storage
      ensures Consistent()
      ensures View(env) == Filled(old(View(env)), inputs)
      ensures accepted == |inputFifo.Contents()| - |old(inputFifo.Contents())| <= |inputs|
    {
      ClipAppend(inputFifo.Contents(), inputs, inputFifo.storage.Length);
      accepted := inputFifo.PushSlice(inputs);
    }

    method DrainOneBlock<C>(cb: Callback<C>, env: C) returns (env': C, written: nat)
      requires Consistent() && inputFifo.len >= targetBlockSize
      modifies inputFifo, inputFifo.storage, outputFifo, outputFifo.storage, scratchIn, scratchOut
      ensures Consistent()
      ensures View(env') == OneBlock(cb, old(View(env)))
      ensures written == |outputFifo.Contents()| - |old(outputFifo.Contents())| <= targetBlockSize
    {
      ghost var a := View(env);
      PopInto(inputFifo, scratchIn, targetBlockSize);
      assert scratchIn[..] == a.input[..a.Block()];
      env' := Render(cb, env);
      ClipAppend(outputFifo.Contents(), scratchOut[..], outputFifo.storage.Length);
      written := outputFifo.PushSlice(scratchOut[..]);
    }

    method DrainCompleteBlocks<C>(cb: Callback<C>, env: C)
      returns (env': C, blocks: nat, droppedOutput: nat)
      requires Consistent()
      modifies inputFifo, inputFifo.storage, outputFifo, outputFifo.storage, scratchIn, scratchOut
      ensures Valid()
      ensures View(env') == Drained(cb, old(View(env)))
      ensures blocks == old(inputFifo.len) / targetBlockSize
      ensures droppedOutput ==
        old(outputFifo.len) + old(inputFifo.len) - inputFifo.len - outputFifo.len
    {
      env', blocks, droppedOutput := env, 0, 0;
      ghost var start := View(env);
      while inputFifo.len >= targetBlockSize
        invariant Consistent()
        invariant Drained(cb, View(env')) == Drained(cb, start)
        invariant droppedOutput == old(outputFifo.len) + old(inputFifo.len) - inputFifo.len - outputFifo.len
        invariant blocks * targetBlockSize == old(inputFifo.len) - inputFifo.len
        decreases inputFifo.len
      {
        DrainOne(cb, View(env'));
        var written: nat;
        env', written := DrainOneBlock(cb, env');
        droppedOutput := droppedOutput + (targetBlockSize - written);
        blocks := blocks + 1;
        MulAdd(blocks - 1, 1, targetBlockSize);
      }
      DrainNone(cb, View(env'));
      ModUnique(old(inputFifo.len), targetBlockSize, blocks, inputFifo.len);
    }

    /** Fill the host's output slice from the output FIFO, with silence for what is missing. */
    method Deliver<C>(outputs: array<Sample>, ghost env: C) returns (underrun: nat)
      requires Valid() && outputs !in Repr()
      modifies outputFifo, outputs
      ensures Valid()
      ensures underrun == Max(outputs.Length - |old(outputFifo.Contents())|, 0)
      ensures View(env) == Served(old(View(env)), outputs.Length)
      ensures outputs[..] == Delivery(old(View(env)), outputs.Length)
    {
      hide Queued, Slot, Taken;
      ghost var queued := outputFifo.Contents();
      underrun := 0;
      for k := 0 to outputs.Length
        invariant Valid()
        invariant underrun == Max(k - |queued|, 0)
        invariant outputFifo.Contents() == queued[k - underrun..]
        invariant outputs[..k] == Taken(queued, k)
      {
        TakenNext(queued, k);
        var sample := outputFifo.Pop();
        match sample {
          case Some(value) =>
            outputs[k] := value;
          case None =>
            outputs[k] := SILENCE;
            underrun := underrun + 1;
        }
        assert outputs[..k + 1] == outputs[..k] + [outputs[k]];
      }
      assert outputs[..outputs.Length] == outputs[..];
    }

    method ProcessHostBlock<C>(inputs: seq<Sample>, outputs: array<Sample>, cb: Callback<C>, env: C)
      returns (env': C, report: Report)
      requires Valid() && outputs !in Repr()
      modifies Repr(), outputs
      ensures Valid()
      ensures Outcome(View(env'), outputs[..], report) == Processed(cb, old(View(env)), inputs, outputs.Length)
    {
      hide Drained, Filled, Primed, Served, Delivery, Inserted, Queued, Slot;
      var inserted := PrimeForQuantum(outputs.Length, env);
      var accepted := AcceptInput(inputs, env);
      var blocks, dropped, underrun: nat;
      env', blocks, dropped := DrainCompleteBlocks(cb, env);
      underrun := Deliver(outputs, env');
      report := Report(accepted, |inputs| - accepted, blocks, dropped, underrun, inserted);
    }

    /** Graceful shutdown: render the zero-padded remainder and return everything pending. */
    method Flush<C>(cb: Callback<C>, env: C) returns (env': C, output: seq<Sample>)
      requires Valid()
      modifies Repr()
      ensures Valid()
      ensures output == Flushed(cb, old(View(env)))
      ensures View(env') == AfterFlush(cb, old(View(env)))
    {
      env' := env;
      if inputFifo.len > 0 {
        env' := RenderRemainder(cb, env);
      }
      output := TakeAll(env');
    }

    method PadRemainder<C>(ghost env: C)
      requires Valid()
      modifies inputFifo, scratchIn
      ensures Valid()
      ensures View(env) == old(View(env)).(input := [])
      ensures scratchIn[..] == Padded(old(View(env)))
    {
      ghost var input := inputFifo.Contents();
      var remainder := inputFifo.len;
      PopInto(inputFifo, scratchIn, remainder);
      forall k | remainder <= k < targetBlockSize {
        scratchIn[k] := SILENCE;
      }
      assert scratchIn[..] == input + Silence(targetBlockSize - remainder);
    }

    method RenderRemainder<C>(cb: Callback<C>, env: C) returns (env': C)
      requires Valid() && inputFifo.len > 0
      modifies inputFifo, inputFifo.storage, outputFifo, outputFifo.storage, scratchIn, scratchOut
      ensures Valid()
      ensures View(env').output == Flushed(cb, old(View(env)))
      ensures View(env').(output := []) == AfterFlush(cb, old(View(env)))
    {
      ghost var a := View(env);
      assert |a.input| == inputFifo.len;
      var remainder := inputFifo.len;
      PadRemainder(env);
      env' := Render(cb, env);
      var slice := scratchOut[..remainder];
      ClipAppend(a.output, slice, a.capacity);
      var written := outputFifo.PushSlice(slice);
    }

    method TakeAll<C>(ghost env: C) returns (output: seq<Sample>)
      requires Valid()
      modifies outputFifo
      ensures Valid()
      ensures output == old(outputFifo.Contents())
      ensures View(env) == old(View(env)).(output := [])
    {
      hide Queued, Slot;
      output := [];
      while true
        invariant Valid()
        invariant output + outputFifo.Contents() == old(outputFifo.Contents())
        decreases outputFifo.len
      {
        ghost var queued := outputFifo.Contents();
        var sample := outputFifo.Pop();
        if sample == None {
          break;
        }
        MoveFirst(output, queued);
        output := output + [sample.value];
      }
    }
  }

  /** Move the oldest `count` samples of `fifo` to the front of `slice`. */
  method PopInto(fifo: SampleFifo, slice: array<Sample>, count: nat)
    requires fifo.Valid() && slice != fifo.storage && count <= fifo.len && count <= slice.Length
    modifies fifo, slice
    ensures fifo.Valid()
    ensures fifo.Contents() == old(fifo.Contents())[count..]
    ensures slice[..] == old(fifo.Contents())[..count] + old(slice[..])[count..]
  {
    ghost var queued := fifo.Contents();
    for k := 0 to count
      invariant fifo.Valid() && fifo.Contents() == queued[k..]
      invariant slice[..k] == queued[..k] && slice[k..] == old(slice[..])[k..]
    {
      var sample := fifo.Pop();
      slice[k] := sample.value;
    }
    assert slice[..] == slice[..count] + slice[count..];
  }
}
