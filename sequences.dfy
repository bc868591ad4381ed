/** Facts about sequence concatenation that the byte-level proofs use step by step. */
module Sequences {
  /** Concatenation is associative; stated once so that proofs can regroup appended output cheaply. */
  lemma AppendAssoc<T>(a: seq<T>, b: seq<T>, c: seq<T>)
    ensures (a + b) + c == a + (b + c)
  {
  }
}
