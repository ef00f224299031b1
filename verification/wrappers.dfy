/** The optional-value and value-or-error types the model's lookups and guards return. */
module Wrappers {

  /** An optional value: a row that may be absent, a session that may be empty. */
  datatype Option<+T> = None | Some(value: T)

  /** Either a value or the reason it could not be produced. */
  datatype Result<+R, +E> = Success(value: R) | Failure(error: E)
}
