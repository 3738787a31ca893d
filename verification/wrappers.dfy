/** Option and Result datatypes used for JavaScript's `undefined` values and thrown errors. */
module Wrappers {

  /** A value that may be absent (JavaScript `undefined`). */
  datatype Option<+T> = None | Some(value: T)

  /** The result of an operation that may throw. */
  datatype Result<+T, +E> = Ok(value: T) | Err(error: E)
}
