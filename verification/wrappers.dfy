/** Wrappers for Java's nullable values and for operations that throw. */
module Wrappers {

  /** A value that may be absent; stands for a Java reference that may be null. */
  datatype Option<+T> = None | Some(value: T)

  /** Either a value or the error a Java method would have thrown instead. */
  datatype Result<+R, +E> = Success(value: R) | Failure(error: E)
}
