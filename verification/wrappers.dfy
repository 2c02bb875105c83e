/** Optional values and success-or-error results shared by the model. */
module Wrappers {

  /** `None` stands for JavaScript's `undefined` (or a query that found nothing). */
  datatype Option<+T> = None | Some(value: T)

  /** The outcome of a controller step: a value, or the error it throws. */
  datatype Result<+T, +E> = Success(value: T) | Failure(error: E)
}
