/** Optional values (Ruby's `nil` or a value) and results (a value or the error that aborts). */
module Wrappers {

  datatype Option<+T> = None | Some(value: T)

  datatype Result<+T, +E> = Ok(value: T) | Err(error: E)
}
