/** Wrappers used for the Java code's nulls and exceptions. */
module Wrappers {

  /** A value that may be absent; stands for a Java reference that may be null. */
  datatype Option<+T> = None | Some(value: T)

  /** Either a value or the error that a Java method throws instead of returning it. */
  datatype Result<+R, +E> = Success(value: R) | Failure(error: E)

  /** The outcome of a Java `void` method that may throw. */
  datatype Outcome<+E> = Pass | Fail(error: E)
}
