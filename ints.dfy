/** The machine integer ranges of the Rust types the model needs. */
module Ints {
  const I64Min: int := -0x8000_0000_0000_0000
  const I64Max: int := 0x7fff_ffff_ffff_ffff

  /** Rust's `i64`, also SQLite's INTEGER storage class. */
  type Int64 = x: int | -0x8000_0000_0000_0000 <= x <= 0x7fff_ffff_ffff_ffff

  /** Rust's `u32`. */
  type U32 = x: int | 0 <= x < 0x1_0000_0000
}
