/** Failure-carrying shapes shared by the whole model: Rust's `Option` and
    `Result`, and the outcome of a call that may panic (abort the process). */
module Wrappers {

  /** Rust's `Option<T>`. */
  datatype Option<+T> = None | Some(value: T)

  /** Rust's `Result<T, E>`. */
  datatype Result<+T, +E> = Ok(value: T) | Err(error: E)

  /** A call that either returns normally or panics; a panic ends the process,
      so nothing of the caller's state survives it. */
  datatype Outcome<+T> = Returned(value: T) | Panicked
}
