/** Optional values and the outcome of a request handler. */
module Wrappers {

  /** A JavaScript value that may be missing: `None` stands for `null`, `undefined`
      or (where the source tests `typeof`) a value of another type. */
  datatype Option<+T> = None | Some(value: T)

  /** What a handler sends back: a 200 with a body, or one of the error statuses
      the controllers use (400, 404 with its message, 500). */
  datatype Reply<+T> = Ok(value: T) | BadRequest | NotFound(message: string) | ServerError
}
