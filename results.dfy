/** Optional values and fallible results, used for missing cells and for
    the ranking's error path. */
module Results {

  /** A value that may be missing (pandas' NA / NaN marker). */
  datatype Option<+T> = None | Some(value: T)

  /** Either a value or an error (the source raises where this is Failure). */
  datatype Result<+R, +E> = Success(value: R) | Failure(error: E)
}
