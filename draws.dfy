/** The random draws of `System.Random`, modelled as nondeterministic choices within the
    range each call can return. Nothing is assumed about their distribution. */
module Draws {

  /** `Random.Next()`: any non-negative integer. */
  method Next() returns (r: nat)
  {
    r := *;
  }

  /** `Random.Next(lo, hi)`: an integer in [lo, hi). */
  method NextInRange(lo: int, hi: int) returns (r: int)
    requires lo < hi
    ensures lo <= r < hi
  {
    r :| lo <= r < hi;
  }

  /** `Random.NextDouble()`: a real in [0, 1). */
  method NextDouble() returns (r: real)
    ensures 0.0 <= r < 1.0
  {
    r := *;
    if !(0.0 <= r < 1.0) {
      r := 0.0;
    }
  }
}
