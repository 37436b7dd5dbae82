/** Small value types shared by every module of the model. */
module Common {

  /** Rust's `Option`. */
  datatype Option<+T> = None | Some(value: T)

  /** Rust's `Result`. */
  datatype Result<+T, +E> = Ok(value: T) | Err(error: E)

  /** Rust's `u8`. */
  type byte = x: int | 0 <= x < 256
}
