/** Failure-carrying datatypes shared by every component. */
module Wrappers {

  /** A value that may be absent (JavaScript `null`/`undefined`, Python `None`). */
  datatype Option<+T> = None | Some(value: T)

  /** The outcome of an operation that either succeeds with a value or
      stops with an error (the scripts' `sys.exit(...)` and thrown errors). */
  datatype Result<+T, +E> = Success(value: T) | Failure(error: E)
}
