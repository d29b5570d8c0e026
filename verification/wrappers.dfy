/** Failure-carrying datatypes used by the registry model. */
module Wrappers {

  /** An optional value: JavaScript's `undefined` for an absent optional field. */
  datatype Option<T> = None | Some(value: T)

  /** The outcome of an operation: a value, or the error it raised. */
  datatype Result<T, E> = Success(value: T) | Failure(error: E)
}
