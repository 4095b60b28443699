/** The range of the source's 64-bit counters and positions. */
module Widths {
  const MAX_UINT64: nat := 0xFFFF_FFFF_FFFF_FFFF
}
