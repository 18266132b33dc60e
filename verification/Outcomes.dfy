/** Results of operations that the sources report by return value or by fault. */
module Outcomes {
  datatype Option<+T> = None | Some(value: T)

  datatype Result<+T, +E> = Ok(value: T) | Err(error: E)

  /** The fault codes of the XML-RPC library that the model distinguishes. */
  datatype Fault = TypeError | IndexError | ParseError | InvalidUtf8 | InternalError
}
