/** Small facts about sequences shared by the decoder and the packager. */
module Sequences {

  /** Appending is associative; the loops use it to move one element from the remaining stream to the result. */
  lemma AppendAssoc<T>(a: seq<T>, b: seq<T>, c: seq<T>)
    ensures (a + b) + c == a + (b + c)
  {
  }
}
