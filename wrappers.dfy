/** Optional values and success/failure results, standing in for TypeScript's
    `undefined` and for exceptions that stop a loop. */
module Wrappers {

  datatype Option<T> = None | Some(value: T)

  datatype Result<T, E> = Ok(value: T) | Err(error: E)
}
