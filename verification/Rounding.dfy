/** Go's math.Ceil and math.Round on exact reals. */
module Rounding {
  function Ceil(x: real): int {
    -((-x).Floor)
  }

  // math.Round on a non-negative value: halves go up.
  function Round(x: real): int
    requires x >= 0.0
  {
    (x + 0.5).Floor
  }
}
