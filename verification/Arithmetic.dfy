/** Facts about products that several modules need. */
module Arithmetic {

  lemma MulMonotone(x: int, y: int, z: int)
    requires x <= y && z >= 0
    ensures x * z <= y * z
  {}
}
