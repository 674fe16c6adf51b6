/** Sizes of the machine's unsigned integers. */
module Widths {
  const U32: nat := 0x1_0000_0000
  const U64: nat := 0x1_0000_0000_0000_0000
}
