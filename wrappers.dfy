/** Optional values and the reply a route handler sends. */
module Wrappers {

  datatype Option<+T> = None | Some(value: T)

  /** What a route handler answers: a success body, or an HTTP error status with the
      `error` message of its JSON body. */
  datatype Reply<+T> = Ok(value: T) | Fail(status: int, message: string)
}
