/** Optional values and results with an error, used for the nullable numeric
    columns of a book record and for the pass that can raise. */
module Wrappers {

  /** A value that may be missing (pandas NaN / `None`). */
  datatype Option<+T> = None | Some(value: T)

  /** The outcome of a step that may raise instead of returning. */
  datatype Result<+R, +E> = Success(value: R) | Failure(error: E)
}
