/** Sequence facts the other modules share. */
module Seqs {

  /** Concatenation is associative; called where the verifier would otherwise search for it. */
  lemma AppendAssoc<T>(a: seq<T>, b: seq<T>, c: seq<T>)
    ensures a + (b + c) == (a + b) + c
  {
  }
}
