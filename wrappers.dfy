/** Optional values and results with an error, as the source's `undefined`-able
    fields and Go's `(value, error)` returns need them. */
module Wrappers {

  datatype Option<+T> = None | Some(value: T)

  datatype Result<+T, +E> = Success(value: T) | Failure(error: E)
}
