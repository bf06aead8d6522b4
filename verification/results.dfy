/** Failure-carrying return values: the Go `(T, error)` and `error` results of the
    feature-flag service, made explicit. */
module Results {

  /** A value of type T, or the error that prevented computing it. */
  datatype Result<+T, +E> = Success(value: T) | Failure(error: E)

  /** The outcome of an operation that returns only an error (Go's `error`, nil on success). */
  datatype Outcome<+E> = Pass | Fail(error: E)

  /** Zero or one value: a lookup that may find nothing. */
  datatype Option<+T> = None | Some(value: T)
}
