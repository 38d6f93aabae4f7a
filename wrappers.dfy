/** Option and Result, the two failure-carrying shapes the model returns. */
module Wrappers {

  /** A value that may be absent (Rust's `Option`). */
  datatype Option<+T> = None | Some(value: T)

  /** A value or an error (used where the source panics on corrupt data). */
  datatype Result<+T, +E> = Ok(value: T) | Err(error: E)
}
