/** Optional values and results with an error, for the source's `None`
    returns and its raised or reported errors. */
module Wrappers {
  datatype Option<+T> = None | Some(value: T)

  datatype Result<+T, +E> = Ok(value: T) | Err(error: E)
}
