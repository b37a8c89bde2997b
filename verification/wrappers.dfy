/** Failure-carrying datatypes shared by the whole model. */
module Wrappers {

  /** A value that may be absent (a JS `undefined` result, a failed parse). */
  datatype Option<+T> = None | Some(value: T)

  /** The outcome of one call into the ledger: its value, or the message of
      the error the call raised (`error.message` in the controller). */
  datatype Result<+T> = Ok(value: T) | Fail(message: string)
}
