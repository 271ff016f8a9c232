/** Small value wrappers shared by the rest of the model. */
module Basics {

  /** A value that may be absent: the JavaScript `null` / `undefined` of an optional field. */
  datatype Option<+T> = None | Some(value: T)

  /** The outcome of a network request: the decoded body, or the HTTP status of a failed response. */
  datatype Result<+T> = Ok(value: T) | Err(status: int)
}
