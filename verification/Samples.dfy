/** Audio samples. A sample is the bit pattern of an IEEE single and nothing more:
    the arithmetic on samples is always a parameter, without any algebraic law. */
module Samples {
  import opened Words

  newtype Bits = x: int | 0 <= x < 0x1_0000_0000

  datatype Sample = Sample(bits: Bits)

  const SILENCE: Sample := Sample(0)

  function Silence(count: nat): (s: seq<Sample>)
    ensures |s| == count
    ensures forall k :: 0 <= k < count ==> s[k] == SILENCE == Sample(0)
  {
    seq(count, _ => SILENCE)
  }

  /** Silences of length m and n concatenate. */
  lemma SilenceAppend(m: nat, n: nat)
    ensures Silence(m) + Silence(n) == Silence(m + n)
  {
  }

  /** The first `limit` elements of `s`, or all of it when it is shorter. */
  function Clip<T>(s: seq<T>, limit: nat): (r: seq<T>)
    ensures |r| == Min(|s|, limit)
    ensures r <= s
  {
    s[..Min(|s|, limit)]
  }

  /** Appending what still fits to a clipped sequence clips the whole concatenation. */
  lemma ClipAppend<T>(s: seq<T>, t: seq<T>, limit: nat)
    ensures Clip(s + t, limit) == Clip(s, limit) + t[..Min(|t|, limit - |Clip(s, limit)|)]
  {
  }
}
