/** Optional values and success/failure results, the two shapes the service
    layer returns: `Optional<User>` from the repository and "a value or a
    thrown exception" from every service call. */
module Wrappers {

  /** `java.util.Optional`: a value that may be absent. */
  datatype Option<+T> = None | Some(value: T)

  /** The outcome of a Java call: the value it returned or what it threw. */
  datatype Result<+T, +E> = Success(value: T) | Failure(error: E)
}
