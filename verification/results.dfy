/** Optional and fallible results: `Option` for the query parser, `Result`
    for the exceptions the completion call can raise. */
module Results {

  datatype Option<+T> = None | Some(value: T)

  datatype Result<+T, +E> = Success(value: T) | Failure(error: E)
}
