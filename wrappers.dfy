/** Optional values and results with an error, used for the `undefined` returns and the error
    messages of the extension. */
module Wrappers {

  datatype Option<+T> = None | Some(value: T)

  datatype Result<+T, +E> = Ok(value: T) | Err(error: E)
}
