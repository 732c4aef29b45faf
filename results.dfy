/** Optional values and success-or-error results, used where the Java code
    returns null or throws. */
module Results {

  datatype Option<+T> = None | Some(value: T)

  datatype Result<+T, +E> = Success(value: T) | Failure(error: E)
}
