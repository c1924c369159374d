/** Small value types shared by the whole model. */
module Types {
  /** Rust's `Option<T>`. */
  datatype Option<T> = None | Some(value: T)

  /** Rust's `Result<T, E>`. */
  datatype Result<T, E> = Ok(value: T) | Err(error: E)

  /** An octet (`u8`). */
  type byte = x: int | 0 <= x < 256
}
