/** Unsigned 64-bit counters that wrap. */
module Wrapping {
  const MOD: nat := 0x1_0000_0000_0000_0000
  const INT64_MAX: nat := 0x7FFF_FFFF_FFFF_FFFF

  type U64 = x: int | 0 <= x < 0x1_0000_0000_0000_0000

  /** Wrapping subtraction: how far b is behind a. */
  function Sub(a: U64, b: U64): U64 { if a >= b then a - b else a + MOD - b }

  /** Wrapping addition. */
  function Add(a: U64, b: U64): U64 { if a + b < MOD then a + b else a + b - MOD }
}
