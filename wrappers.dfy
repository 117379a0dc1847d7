/** Failure-carrying wrappers shared by the whole model. */
module Wrappers {

  /** A value that may be absent: a JavaScript `null`/`undefined`, or a parse that threw. */
  datatype Option<+T> = None | Some(value: T)

  /** The outcome of a call that may throw: a value, or the message of the error it raised. */
  datatype Result<+T> = Ok(value: T) | Err(message: string)
}
