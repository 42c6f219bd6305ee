/** Option and Result: absent JSON members and raised Python exceptions. */
module Wrappers {

  /** A value that may be absent (a JSON member that is not present, or Python's None). */
  datatype Option<+T> = None | Some(value: T)

  /** The outcome of an operation that can raise: its value, or the error it raises. */
  datatype Result<+T, +E> = Success(value: T) | Failure(error: E)
}
