/** Small failure-carrying datatypes shared by the model. */
module Wrappers {

  /** A value that may be missing; `None` stands for the probe's "no slot" answer. */
  datatype Option<T> = None | Some(value: T)

  /** The outcome of an operation that can fail with an error `E`. */
  datatype Result<T, E> = Success(value: T) | Failure(error: E)
}
