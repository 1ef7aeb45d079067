/** Optional values and success/failure results, standing in for Java's
    `Optional` and for exceptions a call can raise. */
module Results {

  /** `Optional<T>` in Java; `None` is `Optional.empty()` (or a null reference). */
  datatype Option<+T> = None | Some(value: T)

  /** The outcome of a call that either returns a value or throws. */
  datatype Result<+T, +E> = Success(value: T) | Failure(error: E)
}
