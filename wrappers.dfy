/** Optional values and results shared by every module of the model. */
module Wrappers {

  /** A value that may be absent: Python's `None` or a `-1` sentinel index. */
  datatype Option<+T> = None | Some(value: T)

  /** A computation that either produced a value or stopped with an error
      (an early return or a raised exception of the source). */
  datatype Result<+T, +E> = Success(value: T) | Failure(error: E)
}
