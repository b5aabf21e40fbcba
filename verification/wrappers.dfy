/** Failure-carrying result types shared by the whole model. */
module Wrappers {

  /** A value that may be absent; `None` stands for the source's "no answer" sentinels. */
  datatype Option<+T> = None | Some(value: T)

  /** Either a value or the reason the computation could not produce one. */
  datatype Result<+T, +E> = Success(value: T) | Failure(error: E)
}
