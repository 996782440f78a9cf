/**
  Facts about multiplication of naturals that the offset and repetition
  arithmetic needs and the solver does not find on its own.
 */
module Arith {

  /** Multiplying by the same factor keeps the order. */
  lemma MulLeftMonotone(x: nat, y: nat, c: nat)
    requires x <= y
    ensures x * c <= y * c
  {
  }
}
