/** The optional value and the query outcome shared by the model. */
module Wrappers {

  /** A value that may be missing: an unbound query variable, a parse that failed. */
  datatype Option<+T> = None | Some(value: T)

  /** The outcome of a query: the rows or record it produced, or the message of the
      `{"error": ...}` object the service returns instead. */
  datatype Result<+T> = Ok(value: T) | Err(message: string)
}
