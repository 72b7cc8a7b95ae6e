/** Null-free stand-ins for the Java references that may be `null`, and for exceptions. */
module Wrappers {

  /** A reference that may be null: `None` plays the part of `null`. */
  datatype Option<+T> = None | Some(value: T)

  /** The outcome of an operation that can end in an exception. */
  datatype Result<+T, +E> = Success(value: T) | Failure(error: E)
}
