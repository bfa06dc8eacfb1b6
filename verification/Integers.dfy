/** The machine integers of the program. */
module Integers {
  const LIMIT16 := 0x1_0000
  const LIMIT32 := 0x1_0000_0000
  const LIMIT64 := 0x1_0000_0000_0000_0000

  type u8 = n: int | 0 <= n < 0x100
  type u16 = n: int | 0 <= n < LIMIT16
  type u32 = n: int | 0 <= n < LIMIT32
  type u64 = n: int | 0 <= n < LIMIT64
  type i32 = n: int | -0x8000_0000 <= n < 0x8000_0000
}
