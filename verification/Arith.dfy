/** Machine arithmetic shared by the scheduler and the profiler. */
module Arith {
  /** One more than the largest `unsigned long`. */
  const TWO64: nat := 0x1_0000_0000_0000_0000
}
