/** The Rust primitive types the lexer record is built from. */
module RustTypes {

  /** Rust `u8`: one byte of a UTF-8 encoded text. */
  newtype u8 = x: int | 0 <= x < 0x100

  /** Rust `usize` on a 64-bit target. */
  newtype usize = x: int | 0 <= x < 0x1_0000_0000_0000_0000

  /** No Rust allocation, hence no `&str` and no `Vec<u8>`, holds more bytes than `isize::MAX`. */
  const ISIZE_MAX: int := 0x7FFF_FFFF_FFFF_FFFF

  /** Rust's `Result<T, E>`. */
  datatype Result<T, E> = Ok(value: T) | Err(error: E)
}
