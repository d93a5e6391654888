/** The widths of the machine's integers. */
module Integers {

  const TWO_TO_16: nat := 0x1_0000
  const TWO_TO_31: nat := 0x8000_0000
  const TWO_TO_32: nat := 0x1_0000_0000
  const TWO_TO_64: nat := 0x1_0000_0000_0000_0000

  type Uint16 = n: int | 0 <= n < TWO_TO_16

  type Uint32 = n: int | 0 <= n < TWO_TO_32
}
