/** Optional values and results with an error, used for the optional keys of
    the provider's dictionaries and for the `KeyError` the source can raise. */
module Wrappers {

  datatype Option<+T> = None | Some(value: T)

  datatype Result<+T, +E> = Ok(value: T) | Err(error: E)
}
