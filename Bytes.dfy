/** Bytes and byte strings as they cross the C ABI boundary. */
module Bytes {

  /** A C `uint8_t` / Rust `u8`. */
  newtype uint8 = x: int | 0 <= x < 256

  /**
   * A Rust `String` or `&str`, as its UTF-8 bytes. The bridge never checks
   * that the bytes are valid UTF-8: it trusts the caller.
   */
  type Str = seq<uint8>

  /** The field separator of the newline-separated key/value format, `'\n'`. */
  const NEWLINE: uint8 := 10
}
