/** The Option and Result datatypes shared by the other modules. */
module Wrappers {

  /** A value that may be absent: Java's `Optional` and nullable references. */
  datatype Option<+T> = None | Some(value: T)

  /** The outcome of an operation that either yields a value or fails with an error. */
  datatype Result<+T, +E> = Success(value: T) | Failure(error: E)
}
