/** Optional values and success-or-error outcomes, used where the source
    has `None` or returns a `(False, message)` pair. */
module Wrappers {

  datatype Option<+T> = None | Some(value: T)

  datatype Result<+R, +E> = Ok(value: R) | Err(error: E)
}
