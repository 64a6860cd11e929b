/** Failure-compatible result types shared by every module of the model. */
module Wrappers {

  /** A value that may be absent: Java's `null` and `Optional.empty()`. */
  datatype Option<+T> = None | Some(value: T)

  /** The outcome of an operation that can throw: `Err` stands for the exception. */
  datatype Result<+T, +E> = Ok(value: T) | Err(error: E)
}
