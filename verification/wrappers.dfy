/** Option and Result, the two failure-carrying wrappers the model uses for
    missing values and for the exceptions the source throws. */
module Wrappers {

  datatype Option<+T> = None | Some(value: T)

  /** `Failure` stands for an exception thrown by the source. */
  datatype Result<+T, +E> = Success(value: T) | Failure(error: E)
}
