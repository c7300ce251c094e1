/** Optional values and error results shared by the other modules. */
module Wrappers {

  /** A value that may be absent; `None` stands for a Java `null`. */
  datatype Option<+T> = None | Some(value: T)

  /** The outcome of an operation that returns a value or fails. */
  datatype Result<+T, +E> = Success(value: T) | Failure(error: E)

  /** The outcome of an operation that returns nothing or fails. */
  datatype Outcome<+E> = Pass | Fail(error: E)
}
