/** Failure-carrying results shared by the other modules. */
module Wrappers {

  /** An optional value; `None` also stands for a thrown ECMAScript exception. */
  datatype Option<+T> = None | Some(value: T)

  /** A validated value, or the HTTP reply that rejects the request. */
  datatype Result<+T, +E> = Ok(value: T) | Err(error: E)

  /** The `{ error: message }` JSON reply a handler sends with a status code. */
  datatype Reply = Reply(status: int, message: string)
}
