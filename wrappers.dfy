/** Failure-carrying result types shared by every module of the model. */
module Wrappers {

  /** Rust's `Option<T>`. */
  datatype Option<+T> = None | Some(value: T)

  /** Rust's `Result<T, E>`, used where the source returns `anyhow::Result`. */
  datatype Result<+T, +E> = Ok(value: T) | Err(error: E)
}
