/** Option and Result values, used where the Java code returns null or throws. */
module Wrappers {

  /** A nullable Java reference: absent (null) or present. */
  datatype Option<+T> = None | Some(value: T)

  /** The outcome of an operation that either returns a value or throws. */
  datatype Result<+T, +E> = Success(value: T) | Failure(error: E)
}
