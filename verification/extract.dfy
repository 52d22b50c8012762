/**
 * Extraction of handler arguments: an extractor reads the request head and
 * may take the request body from the shared slot. The wrappers for
 * optional and fallible arguments and the unit argument, and the response
 * a request parse error becomes.
 */
module Extract {
  import opened Wrappers
  import opened Bytes
  import opened Errors
  import opened HeaderMaps
  import opened Requests
  import opened HeaderEncoder
  import opened WebBodies
  import opened Responders

  /** What an extractor returns, and the body slot after it. */
  datatype Extracted<T, E, B> = Extracted(result: Result<T, E>, slot: BodySlot<B>)

  type Extractor<T, E, !B> = (RequestHeader, BodySlot<B>) -> Extracted<T, E, B>

  /** `Option<T>`: never fails; the inner value when the inner extractor succeeds, `None` otherwise. */
  function Optional<T, E, B>(inner: Extractor<T, E, B>, req: RequestHeader, slot: BodySlot<B>): (r: Extracted<Option<T>, E, B>)
    ensures r.result.Ok?
    ensures r.result.value == inner(req, slot).result.ToOption()
    ensures r.slot == inner(req, slot).slot
  {
    var x := inner(req, slot);
    match x.result
    case Ok(t) => Extracted(Ok(Some(t)), x.slot)
    case Err(_) => Extracted(Ok(None), x.slot)
  }

  /** `Result<T, T::Error>`: never fails; the inner outcome itself. */
  function Fallible<T, E, B>(inner: Extractor<T, E, B>, req: RequestHeader, slot: BodySlot<B>): (r: Extracted<Result<T, E>, ParseError, B>)
    ensures r.result.Ok?
    ensures r.result.value == inner(req, slot).result
    ensures r.slot == inner(req, slot).slot
  {
    var x := inner(req, slot);
    Extracted(Ok(x.result), x.slot)
  }

  /** `()`: never fails and takes nothing. */
  function UnitArg<B>(req: RequestHeader, slot: BodySlot<B>): (r: Extracted<(), ParseError, B>)
    ensures r.result == Ok(()) && r.slot == slot
  {
    Extracted(Ok(()), slot)
  }

  const REQUEST_HEADER_FIELDS_TOO_LARGE: StatusCode := 431
  const BAD_REQUEST: StatusCode := 400

  /** The fixed message of each parse error's response. */
  function ErrorMessage(e: ParseError): (m: seq<Byte>)
    ensures m != []
  {
    match e
    // payload too large
    case TooLargeHeader(_, _) => [112, 97, 121, 108, 111, 97, 100, 32, 116, 111, 111, 32, 108, 97, 114, 103, 101]
    // too many headers
    case TooManyHeaders(_) => [116, 111, 111, 32, 109, 97, 110, 121, 32, 104, 101, 97, 100, 101, 114, 115]
    // invalid header
    case InvalidHeader(_) => [105, 110, 118, 97, 108, 105, 100, 32, 104, 101, 97, 100, 101, 114]
    // invalid version
    case InvalidVersion(_) => [105, 110, 118, 97, 108, 105, 100, 32, 118, 101, 114, 115, 105, 111, 110]
    // invalid method
    case InvalidMethod => [105, 110, 118, 97, 108, 105, 100, 32, 109, 101, 116, 104, 111, 100]
    // invalid uri
    case InvalidUri => [105, 110, 118, 97, 108, 105, 100, 32, 117, 114, 105]
    // invalid content length
    case InvalidContentLength(_) => [105, 110, 118, 97, 108, 105, 100, 32, 99, 111, 110, 116, 101, 110, 116, 32, 108, 101, 110, 103, 116, 104]
    // invalid body
    case InvalidBody(_) => [105, 110, 118, 97, 108, 105, 100, 32, 98, 111, 100, 121]
    // connection error
    case Io(_) => [99, 111, 110, 110, 101, 99, 116, 105, 111, 110, 32, 101, 114, 114, 111, 114]
  }

  /** `Responder for ParseError`: a status paired with the error's message. */
  function ErrorResponder(e: ParseError): (r: Responder)
    ensures r.StatusFirst? && r.inner == Text(ErrorMessage(e))
  {
    var code := if e.TooLargeHeader? then REQUEST_HEADER_FIELDS_TOO_LARGE else BAD_REQUEST;
    StatusFirst(code, Text(ErrorMessage(e)))
  }

  /**
   * A parse error answers 431 when the head was too large and 400 for every
   * other error, as plain text carrying the error's message; the message
   * depends only on the kind of error, not on the details it carries.
   */
  lemma ErrorStatus(e: ParseError)
    ensures var r := RespondTo(ErrorResponder(e));
            && (r.status == 431 <==> e.TooLargeHeader?)
            && (r.status == 400 <==> !e.TooLargeHeader?)
            && Iter(r.headers) == [(CONTENT_TYPE, TEXT_PLAIN_UTF_8)]
            && r.body == OnceOf(ErrorMessage(e))
  {
    TextResponds(ErrorMessage(e));
  }

  /** Two errors of one kind answer alike, and errors of different kinds carry different messages. */
  lemma MessagesTellKindsApart(e1: ParseError, e2: ParseError)
    ensures SameKind(e1, e2) ==> RespondTo(ErrorResponder(e1)) == RespondTo(ErrorResponder(e2))
    ensures !SameKind(e1, e2) ==> ErrorMessage(e1) != ErrorMessage(e2)
  {
    if !SameKind(e1, e2) {
      assert ErrorMessage(e1)[..] != ErrorMessage(e2)[..] by {
        DistinctMessages(e1, e2);
      }
    }
  }

  predicate SameKind(e1: ParseError, e2: ParseError)
  {
    match e1
    case TooLargeHeader(_, _) => e2.TooLargeHeader?
    case TooManyHeaders(_) => e2.TooManyHeaders?
    case InvalidHeader(_) => e2.InvalidHeader?
    case InvalidVersion(_) => e2.InvalidVersion?
    case InvalidMethod => e2.InvalidMethod?
    case InvalidUri => e2.InvalidUri?
    case InvalidContentLength(_) => e2.InvalidContentLength?
    case InvalidBody(_) => e2.InvalidBody?
    case Io(_) => e2.Io?
  }

  lemma DistinctMessages(e1: ParseError, e2: ParseError)
    requires !SameKind(e1, e2)
    ensures ErrorMessage(e1) != ErrorMessage(e2)
  {
    var m1 := ErrorMessage(e1);
    var m2 := ErrorMessage(e2);
    if |m1| == |m2| {
      // equal lengths: "invalid header" / "invalid method" (14), "too many headers" / "connection error" (16)
      assert m1[8] != m2[8] || m1[0] != m2[0];
    }
  }
}
