/** Optional values and the outcome of an operation that can fail.
    The store's exceptions (ValueError, KeyError) become these values. */
module Results {

  datatype Option<+T> = None | Some(value: T)

  /** Pass: the operation completed; Fail: it raised, carrying why. */
  datatype Outcome<+E> = Pass | Fail(error: E)

  datatype Result<+T, +E> = Ok(value: T) | Err(error: E)
}
