/** Failure values of the clipboard read path. The source returns
    `Result<String, String>`; here each error keeps the information its
    message is built from. */
module Errors {

  datatype Option<+T> = None | Some(value: T)

  datatype Error =
    /** No advertised content type equals "text/plain;charset=utf-8". */
    | NoSuitableData
    /** The roundtrip after the `receive` request failed; its own error text. */
    | RoundtripFailed(reason: string)
    /** A read from the transfer pipe failed; the errno's text. */
    | ReadFailed(reason: string)
    /** The received bytes are not UTF-8; `validUpTo` is the length of the
        longest well-formed prefix, as in Rust's `Utf8Error::valid_up_to`. */
    | InvalidUtf8(validUpTo: nat)

  datatype Result<+T> = Ok(value: T) | Err(error: Error)

  const NoSuitableDataMessage := "No suitable data found"
  const ReadErrorPrefix := "Error when reading: "

  /** The error string the source returns, where the core itself fixes it.
      The wording of a UTF-8 decoding error comes from Rust's standard
      library and is not modelled. */
  function Message(e: Error): Option<string>
  {
    match e
    case NoSuitableData => Some(NoSuitableDataMessage)
    case RoundtripFailed(reason) => Some(reason)
    case ReadFailed(reason) => Some(ReadErrorPrefix + reason)
    case InvalidUtf8(_) => None
  }
}
