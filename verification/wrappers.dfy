/** Failure-carrying results used where the Java code returns an empty
    `Optional` or throws. */
module Wrappers {

  /** An optional value, as in `java.util.Optional`. */
  datatype Option<+T> = None | Some(value: T)

  /** Either a value or the error the Java code would have thrown. */
  datatype Result<+T, +E> = Success(value: T) | Failure(error: E)
}
