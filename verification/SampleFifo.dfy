/** The single-threaded, fixed-capacity ring that holds interleaved samples. */
module SampleFifos {
  import opened Words
  import opened Wrappers
  import opened Samples

  /** Index of the k-th sample of a ring of `capacity` slots that is read from `read`. */
  function Slot(read: nat, k: nat, capacity: nat): (s: nat)
    requires read < capacity && k <= capacity
    ensures s < capacity
  {
    if read + k < capacity then read + k else read + k - capacity
  }

  /** The queue that the ring `cells` represents: `len` samples from slot `read` on. */
  function Queued(cells: seq<Sample>, read: nat, len: nat): (s: seq<Sample>)
    requires read < |cells| && len <= |cells|
    ensures |s| == len
  {
    seq(len, k requires 0 <= k < len => cells[Slot(read, k, |cells|)])
  }

  /** Writing the slot after the last queued sample appends to the queue. */
  lemma WriteAppends(cells: seq<Sample>, read: nat, len: nat, sample: Sample)
    requires read < |cells| && len < |cells|
    ensures Queued(cells[Slot(read, len, |cells|) := sample], read, len + 1)
         == Queued(cells, read, len) + [sample]
  {
  }

  /** Advancing the read index removes the oldest sample. */
  lemma ReadRemoves(cells: seq<Sample>, read: nat, len: nat)
    requires read < |cells| && 0 < len <= |cells|
    ensures Queued(cells, read, len) == [cells[read]] + Queued(cells, Slot(read, 1, |cells|), len - 1)
  {
  }

  class SampleFifo {
    const storage: array<Sample>
    var read: nat
    var write: nat
    var len: nat

    ghost predicate Valid()
      reads this
    {
      && read < storage.Length
      && len <= storage.Length
      && write == Slot(read, len, storage.Length)
    }

    /** The queued samples, oldest first. */
    ghost function Contents(): (s: seq<Sample>)
      reads this, storage
      requires Valid()
    {
      Queued(storage[..], read, len)
    }

    constructor (capacity: nat)
      requires capacity > 0
      ensures Valid() && fresh(storage)
      ensures storage.Length == capacity && Contents() == []
    {
      storage := new Sample[capacity](_ => SILENCE);
      read, write, len := 0, 0, 0;
    }

    /** Store `sample` in the write slot and advance the write index, wrapping at the end. */
    method Put(sample: Sample)
      requires write < storage.Length
      modifies this`write, storage
      ensures storage[..] == old(storage[..])[old(write) := sample]
      ensures write == if old(write) + 1 == storage.Length then 0 else old(write) + 1
    {
      storage[write] := sample;
      write := write + 1;
      if write == storage.Length {
        write := 0;
      }
    }

    method PushSlice(samples: seq<Sample>) returns (accepted: nat)
      requires Valid()
      modifies this, storage
      ensures Valid()
      ensures accepted == Min(|samples|, storage.Length - |old(Contents())|)
      ensures Contents() == old(Contents()) + samples[..accepted]
    {
      accepted := Min(|samples|, storage.Length - len);
      for i := 0 to accepted
        invariant read == old(read) && len == old(len)
        invariant write == Slot(read, len + i, storage.Length)
        invariant Queued(storage[..], read, len + i) == old(Contents()) + samples[..i]
      {
        WriteAppends(storage[..], read, len + i, samples[i]);
        Put(samples[i]);
        assert samples[..i + 1] == samples[..i] + [samples[i]];
      }
      len := len + accepted;
    }

    method PushZeros(count: nat) returns (accepted: nat)
      requires Valid()
      modifies this, storage
      ensures Valid()
      ensures accepted == Min(count, storage.Length - |old(Contents())|)
      ensures Contents() == old(Contents()) + Silence(accepted)
    {
      accepted := Min(count, storage.Length - len);
      for i := 0 to accepted
        invariant read == old(read) && len == old(len)
        invariant write == Slot(read, len + i, storage.Length)
        invariant Queued(storage[..], read, len + i) == old(Contents()) + Silence(i)
      {
        WriteAppends(storage[..], read, len + i, SILENCE);
        Put(SILENCE);
        SilenceAppend(i, 1);
      }
      len := len + accepted;
    }

    method Pop() returns (sample: Option<Sample>)
      requires Valid()
      modifies this
      ensures Valid()
      ensures old(Contents()) == [] ==> sample == None && Contents() == []
      ensures old(Contents()) != [] ==>
        sample == Some(old(Contents())[0]) && Contents() == old(Contents())[1..]
    {
      if len == 0 {
        return None;
      }
      ReadRemoves(storage[..], read, len);
      var value := storage[read];
      read := read + 1;
      if read == storage.Length {
        read := 0;
      }
      len := len - 1;
      sample := Some(value);
    }
  }
}
