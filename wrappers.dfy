/** Failure-carrying result types shared by the modules of this model. */
module Wrappers {

  datatype Option<+T> = None | Some(value: T)

  /** The outcome of an operation that the program ends by raising. */
  datatype Result<+R, +E> = Success(value: R) | Failure(error: E)
}
