/** The fixed-width unsigned integers of the source. */
module Ints {

  /** A byte, Rust's `u8`. */
  newtype u8 = b: int | 0 <= b < 0x100

  /** A TCP port number, Rust's `u16`. */
  newtype u16 = p: int | 0 <= p < 0x1_0000
}
