/** Failure-carrying values shared by every module: JavaScript's `undefined`
    results become `None`, and thrown strings become `Err`. */
module Wrappers {

  datatype Option<T> = None | Some(value: T)

  /** A computation that either yields a value or throws the given message. */
  datatype Result<T> = Ok(value: T) | Err(msg: string)

  /** A computation with no result value that may throw. */
  datatype Outcome = Pass | Fail(msg: string)
}
