/** Fixed-width unsigned integers of the Rust source, as subsets of `int`. */
module BoundedInts {
  /** Rust `u8`. */
  type uint8 = x: int | 0 <= x < 0x100

  /** Rust `u16`, the width of an APDU status word. */
  type uint16 = x: int | 0 <= x < 0x1_0000
}
