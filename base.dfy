/** Primitive types shared by the decoder and the extraction pipeline. */
module Base {

  /** An unsigned 8-bit value, as Rust's `u8`. */
  type byte = x: int | 0 <= x < 256

  /** Rust's `u32`. */
  type uint32 = x: int | 0 <= x < 0x1_0000_0000

  /** Rust's `u64`. */
  type uint64 = x: int | 0 <= x < 0x1_0000_0000_0000_0000

  datatype Option<T> = None | Some(value: T)

  /** Rust's `Result<T, E>`. */
  datatype Result<T, E> = Ok(value: T) | Err(error: E)
}
