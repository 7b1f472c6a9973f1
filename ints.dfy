/** The fixed-width unsigned integers of the source and the saturating arithmetic it uses on them. */
module Ints {
  newtype u8 = x: int | 0 <= x < 0x100
  newtype u32 = x: int | 0 <= x < 0x1_0000_0000

  const U32_MAX: u32 := 0xFFFF_FFFF

  /** `u32::saturating_sub`: the difference, or 0 where it would be negative. */
  function SaturatingSub(a: u32, b: u32): u32 {
    if a >= b then a - b else 0
  }

  /** `u32::saturating_add`: the sum, or `u32::MAX` where it would overflow. */
  function SaturatingAdd(a: u32, b: u32): u32 {
    if a as int + b as int > U32_MAX as int then U32_MAX else a + b
  }
}
