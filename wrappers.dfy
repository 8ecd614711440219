/** The optional value used by the parsers and the register tables, and
    the associativity of sequence concatenation, which the proofs about
    strings and event lists cite by name. */
module Wrappers {
  datatype Option<T> = None | Some(value: T)

  lemma AppendAssoc<T>(a: seq<T>, b: seq<T>, c: seq<T>)
    ensures a + (b + c) == a + b + c
  {
  }
}
