/** Optional values and error-or-value results, used for the source's `None`
    fields and for the exceptions its operations raise. */
module Results {

  datatype Option<+T> = None | Some(value: T)

  datatype Result<+R, +E> = Success(value: R) | Failure(error: E)
}
