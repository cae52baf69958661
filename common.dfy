/** Optional values and results with an error case, shared by the model. */
module Common {

  /** A value that may be missing: pandas' NaN after a coercion or a dropped cell. */
  datatype Option<+T> = None | Some(value: T)

  /** The outcome of an operation that can raise. */
  datatype Result<+R, +E> = Success(value: R) | Failure(error: E)
}
