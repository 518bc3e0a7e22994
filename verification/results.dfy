/** Failure-carrying values shared by the collector modules. */
module Results {

  /** A value that may be absent, such as a JSON field holding `null`. */
  datatype Option<+T> = None | Some(value: T)

  /** The outcome of an operation that can fail with an error of type `E`. */
  datatype Result<+T, +E> = Success(value: T) | Failure(error: E)
}
