/** Option and Result, and the exceptions the pickle core raises, one constructor per kind. */
module Wrappers {

  datatype Option<+T> = None | Some(value: T)

  /** The exceptions the modelled code throws (or lets escape from the runtime it calls). */
  datatype Error =
    | PickleError(message: string)        // PickleException with a fixed message
    | InvalidEscape(escapeChar: int)      // PickleException "invalid escape sequence char ..."
    | PrematureEnd                        // IOException "premature end of input stream"
    | SeekBeforeBegin                     // IOException from seeking before the start of a stream
    | ArgumentError(message: string)      // ArgumentException
    | ArgumentOutOfRange                  // ArgumentOutOfRangeException
    | IndexOutOfRange                     // IndexOutOfRangeException / ArrayIndexOutOfBoundsException
    | FormatError                         // FormatException from Convert.ToInt32(s, 16)
    | Overflow                            // OverflowException from Convert.ToByte
    | InvalidCast                         // InvalidCastException / ClassCastException
    | NullReference                       // NullReferenceException / NullPointerException
    | MissingMember                       // MissingMethodException from Activator.CreateInstance
    | Wrapped(message: string, cause: Error) // PickleException carrying an inner exception

  datatype Result<+T> = Ok(value: T) | Err(error: Error)
}
