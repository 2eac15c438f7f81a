/** Option and Result, the two failure-carrying wrappers the model uses. */
module Wrappers {

  /** Rust's `Option<T>`. */
  datatype Option<+T> = None | Some(value: T)

  /** An outcome that either produced a value or stopped with an error (a Rust panic). */
  datatype Result<+T, +E> = Ok(value: T) | Err(error: E)
}
