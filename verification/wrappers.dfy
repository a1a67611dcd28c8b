/** Failure-compatible result types shared by the game and the to-do list. */
module Wrappers {

  datatype Option<T> = None | Some(value: T)

  /** The outcome of an operation that returns nothing but may fail. */
  datatype Outcome<E> = Pass | Fail(error: E)

  datatype Result<T, E> = Success(value: T) | Failure(error: E)
}
