/** Machine integers, and times as a number of nanoseconds. */
module Integers {
  const MAX_INT64: int := 0x7FFF_FFFF_FFFF_FFFF
  const MIN_INT64: int := -0x8000_0000_0000_0000
  const TWO32: int := 0x1_0000_0000
  const TWO64: int := 0x1_0000_0000_0000_0000

  type Int64 = x: int | MIN_INT64 <= x <= MAX_INT64

  type Uint32 = x: int | 0 <= x < TWO32

  type Uint64 = x: int | 0 <= x < TWO64

  type Time = int
}
