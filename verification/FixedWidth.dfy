/** The C integer widths the wallet core works in, and the wrap-around of the operations that are left to overflow
    in the code. */
module FixedWidth {
  type u8 = x: int | 0 <= x < 0x100
  type u16 = x: int | 0 <= x < 0x1_0000
  type u32 = x: int | 0 <= x < 0x1_0000_0000
  type u64 = x: int | 0 <= x < 0x1_0000_0000_0000_0000
  type u128 = x: int | 0 <= x < 0x1_0000_0000_0000_0000_0000_0000_0000_0000

  const U32_MAX: u32 := 0xFFFF_FFFF

  function Wrap8(x: int): u8 { x % 0x100 }

  function Wrap32(x: int): u32 { x % 0x1_0000_0000 }

  function Min(a: int, b: int): int { if a < b then a else b }

  function Max(a: int, b: int): int { if a < b then b else a }
}
