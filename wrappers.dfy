/** Option and Result: the absent value and the rejected promise of the source. */
module Wrappers {

  datatype Option<+T> = None | Some(value: T)

  /** A value, or the error that the source throws or rejects with. */
  datatype Result<+R, +E> = Success(value: R) | Failure(error: E)
}
