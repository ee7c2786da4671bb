/** Failure-carrying values shared by the whole model: the exceptions the
    generator can raise become the cases of `Error`, and every operation that
    may throw returns a `Result`. */
module Outcomes {

  datatype Option<+T> = None | Some(value: T)

  /** The failures a caller of the generator can observe. */
  datatype Error =
    | NotInitialized            // the client was used before InitializeClient succeeded
    | AddressNotFound           // no IPv4 entry among the host's addresses
    | Transport(reason: string) // the HTTP request itself failed; propagated unchanged
    | Unparsable(text: string)  // a body (quota) or a line (integers) is not a decimal int32
    | ArgumentOutOfRange        // System.Random.Next called with minValue > maxValue
    | IndexOutOfRange           // indexing an empty result array

  datatype Result<+T> = Ok(value: T) | Err(error: Error)
}
