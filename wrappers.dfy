/** Failure-compatible value types shared by the other modules. */
module Wrappers {

  /** A value that may be absent; PHP's `string|false` results are `Option<Bytes>`. */
  datatype Option<+T> = None | Some(value: T)

  /** A value or the error that replaced it; a thrown exception becomes `Failure`. */
  datatype Result<+T, +E> = Success(value: T) | Failure(error: E)

  /** The outcome of an operation that returns nothing but may throw. */
  datatype Outcome<+E> = Pass | Fail(error: E)
}
