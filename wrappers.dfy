/** Optional values and success-or-error results, used wherever the source returns
    "nothing found" or raises an exception. */
module Wrappers {

  datatype Option<+T> = None | Some(value: T)

  datatype Result<+T, +E> = Ok(value: T) | Err(error: E)
}
