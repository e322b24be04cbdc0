/** Option and Result values shared by the registry model. */
module Wrappers {

  datatype Option<+T> = None | Some(value: T)

  /** The outcome of a service call: a value, or the error it raises. */
  datatype Result<+T, +E> = Success(value: T) | Failure(error: E)
}
