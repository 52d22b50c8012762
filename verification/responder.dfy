/**
 * Responders of the web crate: the values a handler may return, and the
 * response each becomes. None of these look at the request.
 */
module Responders {
  import opened Wrappers
  import opened Bytes
  import opened HeaderMaps
  import opened HeaderEncoder
  import opened WebBodies

  /** `content-type` */
  const CONTENT_TYPE: seq<Byte> := [99, 111, 110, 116, 101, 110, 116, 45, 116, 121, 112, 101]
  /** `text/plain; charset=utf-8` */
  const TEXT_PLAIN_UTF_8: seq<Byte> := [116, 101, 120, 116, 47, 112, 108, 97, 105, 110, 59, 32, 99, 104, 97, 114, 115, 101, 116, 61, 117, 116, 102, 45, 56]

  const OK: StatusCode := 200

  datatype WebResponse = WebResponse(status: StatusCode, headers: HeaderMap, body: ResponseBody)

  /** `Response::new`: 200, no fields. */
  function Plain(body: ResponseBody): (r: WebResponse)
    ensures r.status == OK && Valid(r.headers) && Iter(r.headers) == [] && r.body == body
  {
    WebResponse(OK, HeaderMaps.Empty(), body)
  }

  /** A handler's return value, one case per `Responder` implementation. */
  datatype Responder =
    | Text(text: seq<Byte>)                           // &'static str
    | Owned(text: seq<Byte>)                          // String
    | Unit                                            // ()
    | Optional(option: Option<Responder>)             // Option<T>
    | Outcome(result: Result<Responder, Responder>)   // Result<T, E>
    | StatusFirst(code: StatusCode, inner: Responder) // (StatusCode, T)
    | StatusLast(inner: Responder, code: StatusCode)  // (T, StatusCode)
    | Boxed(inner: Responder)                         // Box<T>
    | Prebuilt(response: WebResponse)                 // Response<B>

  /** 200, `content-type: text/plain; charset=utf-8`, and the text as the body. */
  function TextResponse(body: ResponseBody): WebResponse
  {
    WebResponse(OK, Insert(HeaderMaps.Empty(), CONTENT_TYPE, TEXT_PLAIN_UTF_8), body)
  }

  /** `Responder::response_to`. */
  function RespondTo(r: Responder): WebResponse
    decreases r
  {
    match r
    case Text(s) => TextResponse(FromStr(s))
    case Owned(s) => TextResponse(FromString(s))
    case Unit => Plain(EmptyBody())
    case Optional(None) => Plain(EmptyBody())
    case Optional(Some(t)) => RespondTo(t)
    case Outcome(Ok(t)) => RespondTo(t)
    case Outcome(Err(e)) => RespondTo(e)
    case StatusFirst(code, t) => RespondTo(t).(status := code)
    case StatusLast(t, code) => RespondTo(t).(status := code)
    case Boxed(t) => RespondTo(t)
    case Prebuilt(resp) => resp
  }

  /** The responder `r` hands its work to, through any nesting of `Option`, `Result` and `Box`. */
  function Final(r: Responder): (f: Responder)
    ensures !(f.Optional? && f.option.Some?) && !f.Outcome? && !f.Boxed?
    decreases r
  {
    match r
    case Optional(Some(t)) => Final(t)
    case Outcome(Ok(t)) => Final(t)
    case Outcome(Err(e)) => Final(e)
    case Boxed(t) => Final(t)
    case _ => r
  }

  /**
   * Text, in either form, becomes a 200 response with exactly one field,
   * the plain-text content type, and the text as its body; the two forms
   * differ only for the empty text.
   */
  lemma TextResponds(s: seq<Byte>)
    ensures var r := RespondTo(Text(s));
            && r.status == OK && Valid(r.headers)
            && Iter(r.headers) == [(CONTENT_TYPE, TEXT_PLAIN_UTF_8)]
            && r.body == FromStr(s)
    ensures RespondTo(Owned(s)) == RespondTo(Text(s)).(body := OnceOf(s))
    ensures RespondTo(Owned(s)) == RespondTo(Text(s)) <==> s != []
  {
    var m := Insert(HeaderMaps.Empty(), CONTENT_TYPE, TEXT_PLAIN_UTF_8);
    assert m == HeaderMap([Entry(CONTENT_TYPE, [TEXT_PLAIN_UTF_8])]);
    assert m.entries[1..] == [];
    assert Iter(m) == Pairs(CONTENT_TYPE, [TEXT_PLAIN_UTF_8]) + [];
    if s == [] {
      assert RespondTo(Owned(s)).body != RespondTo(Text(s)).body;
    }
  }

  /**
   * A status pair, in either order, builds the inner response and replaces
   * its status and nothing else.
   */
  lemma StatusPairsOverride(code: StatusCode, t: Responder)
    ensures RespondTo(StatusFirst(code, t)) == RespondTo(t).(status := code)
    ensures RespondTo(StatusLast(t, code)) == RespondTo(StatusFirst(code, t))
  {
  }

  /**
   * `Option`, `Result` and `Box` add nothing: a responder answers as the one
   * it finally delegates to, so it answers 200 unless that one is a status
   * pair or a prebuilt response.
   */
  lemma {:induction false} DelegationIsTransparent(r: Responder)
    ensures RespondTo(r) == RespondTo(Final(r))
    ensures !Final(r).StatusFirst? && !Final(r).StatusLast? && !Final(r).Prebuilt? ==> RespondTo(r).status == OK
    decreases r
  {
    match r
    case Optional(Some(t)) => DelegationIsTransparent(t);
    case Outcome(Ok(t)) => DelegationIsTransparent(t);
    case Outcome(Err(e)) => DelegationIsTransparent(e);
    case Boxed(t) => DelegationIsTransparent(t);
    case _ =>
  }
}
