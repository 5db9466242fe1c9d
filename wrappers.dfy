/** Failure-compatible result types shared by the whole model. */
module Wrappers {

  /** Rust's `Option<T>`. */
  datatype Option<+T> = None | Some(value: T)

  /**
   * The outcome of an operation that either returns normally or aborts
   * the program with a Rust panic (an `unwrap` on `None`, an `unreachable!`,
   * an out-of-bounds index, an `expect`, an explicit `panic!`).
   */
  datatype Outcome<+T> = Return(value: T) | Panic

  /** Rust's `Result<T, E>`. */
  datatype Result<+T, +E> = Ok(value: T) | Err(error: E)
}
