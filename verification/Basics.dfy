/** What the other modules share: bytes, and a law of sequences. */
module Basics {

  type Byte = b: nat | b < 256

  lemma Assoc<T>(a: seq<T>, b: seq<T>, c: seq<T>)
    ensures a + b + c == a + (b + c)
  {
  }
}
