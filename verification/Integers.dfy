/** The machine integers of the programs: a byte, and the bounds of an int64. */
module Integers {
  type byte = x: int | 0 <= x < 256

  const MIN_INT64 := -0x8000_0000_0000_0000
  const MAX_INT64 := 0x7fff_ffff_ffff_ffff
}
