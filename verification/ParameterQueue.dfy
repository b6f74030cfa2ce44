/** The parameter queue and the gain node, one call at a time. */
module ParameterQueues {
  import opened Words
  import opened Sequences
  import opened Samples
  import opened SpscCounting
  import opened SpscSafety
  import opened SpscCalls
  import opened SpscRings

  class ParameterQueue<T> {
    const ring: SpscRing<T>

    ghost function Repr(): set<object> {
      {this, ring, ring.cells}
    }

    ghost predicate Valid()
      reads Repr()
    {
      CountInv(ring.View())
    }

    /** Every published value is still in its slot. */
    ghost predicate Sound()
      reads Repr()
    {
      Inv(ring.View())
    }

    ghost function Published(): seq<T>
      reads Repr()
      requires Valid()
    {
      Queue(ring.View())
    }

    constructor (size: nat, modulus: nat)
      requires 0 < size < modulus
      ensures Valid() && Sound() && fresh(Repr()) && Published() == [] && ring.size == size
    {
      ring := new SpscRing(size, modulus);
    }

    method TryPush(value: T) returns (accepted: bool)
      requires Valid()
      modifies ring, ring.cells
      ensures old(Sound() && Continuous(|ring.pushed|, ring.size, ring.modulus)) ==> Sound()
      ensures Valid() && accepted == (|old(Published())| < ring.size)
      ensures Published() == if accepted then old(Published()) + [value] else old(Published())
    {
      CountBounds(ring.View());
      hide Inv, CountInv, PushCall, Queue;
      var r := ring.Push(value);
      accepted := r.Ok?;
    }

    method DrainTo(dst: T) returns (latest: T, updated: bool)
      requires Valid() && Sound()
      modifies ring, ring.cells
      ensures Valid() && Sound() && Published() == []
      ensures updated == (old(Published()) != [])
      ensures latest == if updated then old(Published())[|old(Published())| - 1] else dst
    {
      hide Inv, Queue, CountInv;
      latest, updated := dst, false;
      ghost var before: seq<T> := [];
      while true
        invariant Valid() && Sound() && before + Published() == old(Published())
        invariant updated == (before != [])
        invariant latest == if updated then before[|before| - 1] else dst
        decreases |Published()|
      {
        ghost var published := Published();
        var value := ring.Pop();
        if value.None? {
          break;
        }
        MoveFirst(before, published);
        latest, updated := value.value, true;
        before := before + [value.value];
      }
    }
  }

  /** Gain and conversion are arbitrary functions on samples. */
  datatype GainArithmetic = GainArithmetic(toLinear: Sample -> Sample, multiply: (Sample, Sample) -> Sample)

  class GainNode {
    const arithmetic: GainArithmetic
    const parameter: ParameterQueue<Sample>
    var gainDb: Sample
    var gainLin: Sample

    ghost function Repr(): set<object> {
      {this} + parameter.Repr()
    }

    ghost predicate Valid()
      reads Repr()
    {
      parameter.Valid() && parameter.Sound() && gainLin == arithmetic.toLinear(gainDb)
    }

    constructor (arithmetic: GainArithmetic, gainDb: Sample, modulus: nat)
      requires 16 < modulus
      ensures Valid() && fresh(Repr()) && this.arithmetic == arithmetic && this.gainDb == gainDb
      ensures parameter.Published() == [] && parameter.ring.size == 16
    {
      this.arithmetic := arithmetic;
      this.gainDb := gainDb;
      gainLin := arithmetic.toLinear(gainDb);
      parameter := new ParameterQueue(16, modulus);
    }

    /** The block is multiplied by the latest published gain; an output slice of the input's length
        is written completely. */
    method Process(inputs: seq<Sample>, outputs: array<Sample>)
      requires Valid() && outputs as object !in Repr()
      modifies Repr(), outputs
      ensures Valid() && parameter.Published() == []
      ensures var queued := old(parameter.Published());
              gainDb == if queued == [] then old(gainDb) else queued[|queued| - 1]
      ensures forall k :: 0 <= k < outputs.Length ==>
                outputs[k] == if k < |inputs| then arithmetic.multiply(inputs[k], arithmetic.toLinear(gainDb))
                              else old(outputs[k])
    {
      var db, updated := parameter.DrainTo(gainDb);
      if updated {
        gainDb := db;
        gainLin := arithmetic.toLinear(db);
      }
      ApplyGain(arithmetic, inputs, outputs, gainLin);
    }
  }

  /** Multiply as far as both slices reach; the rest of the output slice is left alone. */
  method ApplyGain(arithmetic: GainArithmetic, inputs: seq<Sample>, outputs: array<Sample>, gain: Sample)
    modifies outputs
    ensures forall k :: 0 <= k < outputs.Length ==>
              outputs[k] == if k < |inputs| then arithmetic.multiply(inputs[k], gain) else old(outputs[k])
  {
    for k := 0 to Min(outputs.Length, |inputs|)
      invariant forall j :: 0 <= j < k ==> outputs[j] == arithmetic.multiply(inputs[j], gain)
      invariant forall j :: k <= j < outputs.Length ==> outputs[j] == old(outputs[j])
    {
      outputs[k] := arithmetic.multiply(inputs[k], gain);
    }
  }
}
