/** Failure-compatible wrappers shared by the model: an optional value and a
    success-or-error result. */
module Wrappers {

  /** A value that may be absent (`undefined` in the extension's TypeScript). */
  datatype Option<+T> = None | Some(value: T)

  /** The outcome of an operation that can throw: either a value or the
      message of the error it raised. */
  datatype Result<+T> = Success(value: T) | Failure(error: string)
}
