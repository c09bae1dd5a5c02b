/** Optional values and results with an error, for the source's `None` / `null` returns and
    for the exceptions a call can raise. */
module Wrappers {
  datatype Option<T> = None | Some(value: T)

  datatype Result<T, E> = Ok(value: T) | Err(error: E)
}
