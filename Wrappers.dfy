/** Optional values and results with an error, used for JavaScript's
    `null`/`undefined` and for exceptions thrown while the report is built. */
module Wrappers {

  /** `None` stands for a JSON field that is missing, `null` or `undefined`. */
  datatype Option<+T> = None | Some(value: T)

  /** `Failure` stands for an exception; `Success` for a normal completion. */
  datatype Result<+T, +E> = Success(value: T) | Failure(error: E)
}
