/** Facts about sequences that several components need. */
module Sequences {
  /** Moving the first element of `s` to the end of `a` does not change their concatenation. */
  lemma MoveFirst<T>(a: seq<T>, s: seq<T>)
    requires s != []
    ensures a + [s[0]] + s[1..] == a + s
  {
  }
}
