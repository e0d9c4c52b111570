/** The machine's integers: bytes, and the moduli of 32-bit and 64-bit arithmetic. */
module Widths {

  type Byte = x: int | 0 <= x < 256

  const WRAP: nat := 0x1_0000_0000
  const WRAP64: nat := 0x1_0000_0000_0000_0000
}
