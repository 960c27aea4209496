/** Option and Result, the two failure-carrying shapes used by the model. */
module Wrappers {

  /** A value that may be absent, as MediaPipe's optional landmark lists are. */
  datatype Option<+T> = None | Some(value: T)

  /** The outcome of a step that either succeeds or raises an exception. */
  datatype Result<+R, +E> = Success(value: R) | Failure(error: E)
}
