/** Kotlin's nullable values and thrown exceptions, as values. */
module Wrappers {

  /** A Kotlin `T?`: `None` stands for `null`. */
  datatype Option<+T> = None | Some(value: T)

  /** The outcome of a handler that may throw. */
  datatype Result<+R, +E> = Success(value: R) | Failure(error: E)
}
