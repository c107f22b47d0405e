/** Python's `None` / JavaScript's `undefined`, and the error outcome of an operation that raises. */
module Wrappers {

  datatype Option<+T> = None | Some(value: T)

  datatype Result<+T, +E> = Ok(value: T) | Err(error: E)
}
