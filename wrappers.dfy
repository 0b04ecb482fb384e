/** Option and Result values used where the editor returns `undefined`, `null` or bails out early. */
module Wrappers {
  datatype Option<T> = None | Some(value: T)

  datatype Result<T, E> = Ok(value: T) | Err(error: E)
}
