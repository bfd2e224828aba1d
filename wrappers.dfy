/** Failure-carrying wrappers shared by the other modules. */
module Wrappers {

  /** A value that may be absent; `None` stands for the `null` of the page script. */
  datatype Option<+T> = None | Some(value: T)

  /** An outcome that either carries a value or the message shown to the user. */
  datatype Result<+T> = Ok(value: T) | Err(message: string)
}
