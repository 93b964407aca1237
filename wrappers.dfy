/** Option and Result, used for Python's `None`/infinity and for the exceptions the maze code raises. */
module Wrappers {

  datatype Option<T> = None | Some(value: T)

  datatype Result<T, E> = Ok(value: T) | Err(error: E)
}
