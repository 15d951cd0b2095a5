/** The limits of the unsigned integers of the program. */
module Widths {
  const TWO_32: nat := 0x1_0000_0000
  const TWO_64: nat := 0x1_0000_0000_0000_0000
}
