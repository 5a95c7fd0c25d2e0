/**
 The machine integer types of the source: signed 32-bit values (`i32`) for
 matrix cells and Collatz values, and the range of the unsigned 32-bit step
 counter (`u32`).
 */
module Int32 {

  const I32_MIN: int := -0x8000_0000
  const I32_MAX: int := 0x7fff_ffff
  const U32_MAX: int := 0xffff_ffff

  /** A value that fits in a Rust `i32`. */
  type I32 = x: int | I32_MIN <= x <= I32_MAX
}
