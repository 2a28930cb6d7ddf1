/** Shared value types: optional values, results with an error, and the byte. */
module Wrappers {

  /** An octet, as Rust's `u8` and a `Uint8Array` element hold it. */
  type byte = x: int | 0 <= x < 256

  datatype Option<+T> = None | Some(value: T)

  datatype Result<+T, +E> = Ok(value: T) | Err(error: E)
}
