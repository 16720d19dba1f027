/** The success-or-error values that stand for the scripts' exceptions. */
module Wrappers {

  datatype Option<+T> = None | Some(value: T)

  /** An operation's outcome: a value, or the error the script would raise. */
  datatype Result<+T, +E> = Ok(value: T) | Err(error: E)
}
