/** Failure-compatible wrappers shared by the stores and the views. */
module Wrappers {

  /** An optional value: a TypeScript optional field or a `T | null` slot. */
  datatype Option<+T> = None | Some(value: T)

  /** The outcome of an operation that may throw. */
  datatype Result<+R, +E> = Success(value: R) | Failure(error: E)
}
