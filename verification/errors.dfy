/**
 * The error values of the HTTP crate. An `io::Error` is represented by its
 * message only.
 */
module Errors {

  /** What can go wrong while reading a request. */
  datatype ParseError =
    | TooLargeHeader(currentSize: nat, maxSize: nat)
    | TooManyHeaders(maxNum: nat)
    | InvalidHeader(reason: string)
    | InvalidVersion(version: VersionByte)
    | InvalidMethod
    | InvalidUri
    | InvalidContentLength(reason: string)
    | InvalidBody(reason: string)
    | Io(cause: IoCause)

  /**
   * The `io::Error`s the codec raises, named after their messages; `Transport`
   * stands for a failure of the socket itself.
   */
  datatype IoCause =
    | ChunkSizeOverflow        // "invalid overflow chunked length"
    | ChunkSizeInvalid         // "invalid chunk size line: Invalid Size"
    | ChunkSizeLwsInvalid      // "invalid chunk size linear white space"
    | ChunkExtensionNewline    // "invalid chunk extension contains newline"
    | ChunkSizeLfInvalid       // "invalid chunk size LF"
    | ChunkBodyCrInvalid       // "invalid chunk body CR"
    | ChunkBodyLfInvalid       // "invalid chunk body LF"
    | TrailerLfInvalid         // "invalid trailer end LF"
    | ChunkEndLfInvalid        // "invalid chunk end LF"
    | Unsupported              // `ErrorKind::Unsupported`: a response version other than HTTP/1.1
    | InvalidInput             // `ErrorKind::InvalidInput`: a response message out of order
    | Transport

  /** The `Option<u8>` minor version the tokeniser reported. */
  datatype VersionByte = NoVersion | Minor(v: nat)

  /** What can go wrong while writing a response. */
  datatype SendError =
    | SendInvalidBody(reason: string)
    | SendIo(cause: IoCause)

  /** The top-level error of a connection. */
  datatype HttpError =
    | RequestError(parse: ParseError)
    | ResponseError(send: SendError)
}
