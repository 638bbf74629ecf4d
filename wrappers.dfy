/** The optional-value and outcome types used by every other module. */
module Wrappers {

  /** A value that may be absent: SQLAlchemy's `.first()` on an empty result, a failed decode. */
  datatype Option<+T> = None | Some(value: T)

  /** The outcome of an operation that either returns a value or raises an exception. */
  datatype Result<+R, +E> = Success(value: R) | Failure(error: E)
}
