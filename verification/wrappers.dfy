/** Failure-carrying values shared by the puzzle models. */
module Wrappers {

  /** A value that may be absent (Rust's `Option`). */
  datatype Option<T> = None | Some(value: T)

  /** A value or an error (Rust's `Result`, and the explicit form of a panic path). */
  datatype Result<T, E> = Ok(value: T) | Err(error: E)
}
