/** Failure-carrying values used where the source returns `None` or raises. */
module Results {

  /** A value that may be absent, like a `dict.get` that finds nothing. */
  datatype Option<+T> = None | Some(value: T)

  /** A value, or the error the source would raise instead of producing it. */
  datatype Result<+R, +E> = Success(value: R) | Failure(error: E)
}
