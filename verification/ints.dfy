/** Fixed-width unsigned integers of the Rust source, as bounded subsets of `int`.
    Dafny integers are unbounded, so every truncation or wrap-around the source
    performs is written out explicitly where it happens. */
module Ints {

  const TWO_TO_THE_8: int := 0x100
  const TWO_TO_THE_32: int := 0x1_0000_0000
  const TWO_TO_THE_63: int := 0x8000_0000_0000_0000
  const TWO_TO_THE_64: int := 0x1_0000_0000_0000_0000

  /** Rust `u8`. */
  type uint8 = x: int | 0 <= x < TWO_TO_THE_8

  /** Rust `u32`: IDs and the universe size. */
  type uint32 = x: int | 0 <= x < TWO_TO_THE_32

  /** Rust `u64`: the varint value type (and `usize` on a 64-bit target). */
  type uint64 = x: int | 0 <= x < TWO_TO_THE_64
}
