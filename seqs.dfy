/** Facts about sequences that the loops building result lists rely on. */
module Seqs {
  /**
   * Concatenation is associative: what a loop appending to an accumulator
   * needs at each step. The door scans of pipeline.dfy and the gap loops of
   * quality.dfy call it to move one element from the specification's rest to
   * the accumulator.
   */
  lemma AppendAssoc<T>(a: seq<T>, b: seq<T>, c: seq<T>)
    ensures a + (b + c) == (a + b) + c
  {
  }
}
