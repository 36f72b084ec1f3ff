/** Option, Result and Outcome values for lookups and operations that can fail. */
module Wrappers {

  datatype Option<T> = None | Some(value: T)

  datatype Result<T, E> = Ok(value: T) | Err(error: E)

  datatype Outcome<E> = Pass | Fail(error: E)
}
