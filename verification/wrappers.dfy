/** Option and Result carriers for the searches that may find nothing and
    for the failures of the demonstration pipeline. */
module Wrappers {

  /** An optional value: Python's implicit `None` return becomes `None`. */
  datatype Option<+T> = None | Some(value: T)

  /** Either a value or the reason the computation stopped. */
  datatype Result<+T, +E> = Success(value: T) | Failure(error: E)
}
