/** Failure-compatible result types shared by every component, and the
    exceptions the library raises, one constructor per distinct failure. */
module Outcomes {

  datatype Option<+T> = None | Some(value: T)

  /** The exceptions of the library, by the condition that raises them. */
  datatype Error =
    | EndOfStream              // EOF before a line separator
    | Cancelled                // 0-byte read while cancellation was requested
    | InvalidCharacterEncoding // a char above 0x7F handed to the header writer
    | InvalidHeaderFormat      // a header line without ':'
    | ErrorParsingHeader       // the client's wrapping of InvalidHeaderFormat
    | InvalidResponse          // a malformed status line
    | ChunkedNotSupported      // a request asking for chunked transfer encoding
    | InvalidRequestLine       // a request line with fewer than three tokens
    | NotSupported             // NotSupportedException
    | NotImplemented           // NotImplementedException
    | CannotSeek               // InvalidOperationException("Cannot seek")

  datatype Result<+T> = Ok(value: T) | Err(error: Error) {

    predicate IsFailure() {
      Err?
    }

    function PropagateFailure<U>(): Result<U>
      requires Err?
    {
      Err(error)
    }

    function Extract(): T
      requires Ok?
    {
      value
    }
  }

  function Min(a: int, b: int): int {
    if a <= b then a else b
  }

  function Max(a: int, b: int): int {
    if a <= b then b else a
  }
}
