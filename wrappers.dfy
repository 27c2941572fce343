/** Optional values and error-carrying results, standing for Python's `None`
    and for the exceptions the program raises and catches. */
module Wrappers {

  datatype Option<+T> = None | Some(value: T)

  datatype Result<+T, +E> = Ok(value: T) | Err(error: E)
}
