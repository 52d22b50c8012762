/**
 * One HTTP/1.1 connection, as a sequential function over the messages the
 * request decoder yields: each head starts one exchange (an optional
 * `100 Continue`, the handler, the request body drained, the response
 * written through the response encoder), and the connection ends when the
 * stream does or at the first error, after a 400 response when the error
 * is the client's. The handler is a function of the request head; what it
 * reads of the body is read from the same stream the drain continues on,
 * so the drain starts at the body's first event.
 */
module Connection {
  import opened Wrappers
  import opened Bytes
  import opened Errors
  import opened Messages
  import opened HeaderMaps
  import opened Requests
  import opened SizeHints
  import opened RequestDecoder
  import opened HeaderEncoder
  import ResponseEncoder
  import PayloadEncoder
  import ChunkedEncoder
  import ChunkedCoding
  import BodyChannel
  import ReqBody

  /** What `frame()` on a response body returns: data, a frame without data (trailers), or an error. */
  datatype BodyFrame = Data(bytes: seq<Byte>) | NonData | FrameError(message: string)

  /** A response body: its size hint and the frames it yields before it ends. */
  datatype RespBody = RespBody(hint: SizeHint, frames: seq<BodyFrame>)

  datatype Response = Response(head: ResponseHead, body: RespBody)

  /** A handler's answer to a request head: a response, or an error it reports. */
  type Handler = RequestHeader -> Result<Response, string>

  /** The bytes written so far, and the response encoder's state. */
  datatype Writer = Writer(encoder: ResponseEncoder.State, out: seq<Byte>)

  /** `HTTP/1.1 100 Continue` CRLF CRLF */
  const CONTINUE: seq<Byte> := [72, 84, 84, 80, 47, 49, 46, 49, 32, 49, 48, 48, 32, 67, 111, 110, 116, 105, 110, 117, 101, CR, LF, CR, LF]
  /** `expect` */
  const EXPECT: seq<Byte> := [101, 120, 112, 101, 99, 116]
  /** `100-` */
  const CONTINUE_PREFIX: seq<Byte> := [49, 48, 48, 45]

  const BAD_REQUEST: StatusCode := 400
  const INTERNAL_SERVER_ERROR: StatusCode := 500

  const HEADER_EXPECTED: string := "need header while receive body"
  const NON_DATA_FRAME: string := "resolve body response error"
  const FRAME_FAILED: string := "resolve response body error: "
  const CHUNK_REFUSED: string := "can't send response"
  const EOF_REFUSED: string := "can't send eof response"

  /** The response heads a caller may hand the encoder. */
  predicate Sendable(resp: Response, reason: StatusCode -> Option<seq<Byte>>)
  {
    Valid(resp.head.headers) && (resp.head.version == Http11 ==> reason(resp.head.status).Some?)
  }

  /** The request asks for `100 Continue`: its first `Expect` value starts with `100-`. */
  predicate ExpectsContinue(h: RequestHeader)
  {
    var values := GetAll(h.headers, EXPECT);
    values != [] && |values[0]| >= 4 && values[0][..4] == CONTINUE_PREFIX
  }

  /** `build_error_response`: the status alone, HTTP/1.1, no fields, an empty body. */
  function ErrorResponse(status: StatusCode): (r: Response)
    ensures r.head.status == status && r.head.version == Http11 && Iter(r.head.headers) == []
    ensures Exact(r.body.hint) == Some(0) && r.body.frames == []
  {
    Response(ResponseHead(status, Http11, HeaderMaps.Empty()), RespBody(WithExact(0), []))
  }

  /** Hands one message to the response encoder and keeps what it writes. */
  function Feed(w: Writer, item: ResponseEncoder.Item, reason: StatusCode -> Option<seq<Byte>>, lengthDone: PayloadEncoder.LengthDone): (r: (Writer, Result<(), SendError>))
    requires ResponseEncoder.Writable(item, reason)
  {
    var s := ResponseEncoder.Encode(w.encoder, item, reason, lengthDone);
    match s.result
    case Ok(bytes) => (Writer(s.state, w.out + bytes), Ok(()))
    case Err(e) => (Writer(s.state, w.out), Err(e))
  }

  /**
   * `do_send_response`: the head, framed after the body's size hint, then
   * one chunk per data frame and `Eof`; a frame without data or a failing
   * body ends it with an error.
   */
  function SendResponse(w: Writer, resp: Response, reason: StatusCode -> Option<seq<Byte>>, lengthDone: PayloadEncoder.LengthDone): (r: (Writer, Result<(), HttpError>))
    requires Sendable(resp, reason)
  {
    var size := ToPayloadSize(resp.body.hint);
    var (w1, sent) := Feed(w, Header((resp.head, size)), reason, lengthDone);
    if sent.Err? then (w1, Err(ResponseError(sent.error)))
    else SendFrames(w1, resp.body.frames, reason, lengthDone)
  }

  /** The body loop of `do_send_response`. */
  function SendFrames(w: Writer, frames: seq<BodyFrame>, reason: StatusCode -> Option<seq<Byte>>, lengthDone: PayloadEncoder.LengthDone): (r: (Writer, Result<(), HttpError>))
    decreases |frames|
    ensures r.1.Err? ==> r.1.error.ResponseError?
    ensures |w.out| <= |r.0.out| && r.0.out[..|w.out|] == w.out
  {
    if frames == [] then
      var (w1, sent) := Feed(w, Payload(Eof), reason, lengthDone);
      (w1, if sent.Err? then Err(ResponseError(SendInvalidBody(EOF_REFUSED))) else Ok(()))
    else match frames[0]
      case Data(bytes) =>
        var (w1, sent) := Feed(w, Payload(Chunk(bytes)), reason, lengthDone);
        if sent.Err? then (w1, Err(ResponseError(SendInvalidBody(CHUNK_REFUSED))))
        else
          var r := SendFrames(w1, frames[1..], reason, lengthDone);
          assert r.0.out[..|w.out|] == r.0.out[..|w1.out|][..|w.out|];
          r
      case NonData => (w, Err(ResponseError(SendInvalidBody(NON_DATA_FRAME))))
      case FrameError(m) => (w, Err(ResponseError(SendInvalidBody(FRAME_FAILED + m))))
  }

  /** Every response the handler can give can be written. */
  ghost predicate HandlerSendable(handler: Handler, reason: StatusCode -> Option<seq<Byte>>)
  {
    forall h: RequestHeader :: handler(h).Ok? ==> Sendable(handler(h).value, reason)
  }

  ghost predicate Ready(handler: Handler, reason: StatusCode -> Option<seq<Byte>>)
  {
    HandlerSendable(handler, reason) && reason(BAD_REQUEST).Some? && reason(INTERNAL_SERVER_ERROR).Some?
  }

  /** `send_response`: the handler's response, or an empty 500 when the handler failed. */
  function Answer(handler: Handler, h: RequestHeader): (r: Response)
    ensures handler(h).Ok? ==> r == handler(h).value
    ensures handler(h).Err? ==> r == ErrorResponse(INTERNAL_SERVER_ERROR)
  {
    match handler(h)
    case Ok(resp) => resp
    case Err(_) => ErrorResponse(INTERNAL_SERVER_ERROR)
  }

  /** The writer after the optional `100 Continue` of `do_process`. */
  function Continue(w: Writer, h: RequestHeader): (r: Writer)
    ensures r.encoder == w.encoder
    ensures r.out == if ExpectsContinue(h) then w.out + CONTINUE else w.out
  {
    if ExpectsContinue(h) then w.(out := w.out + CONTINUE) else w
  }

  /** What one exchange left: the writer, its result, and the events after the request's body. */
  datatype Exchanged = Exchanged(writer: Writer, result: Result<(), HttpError>, rest: seq<Event>)

  /**
   * `do_process` for one head, given the events after it: `100 Continue`
   * when asked for, the body drained (a failed drain is ignored, as the
   * source ignores it), then the handler's answer written.
   */
  function Exchange(w: Writer, h: RequestHeader, events: seq<Event>, handler: Handler, reason: StatusCode -> Option<seq<Byte>>, lengthDone: PayloadEncoder.LengthDone): (r: Exchanged)
    requires Ready(handler, reason)
  {
    var drained := BodyChannel.SkipData(BodyChannel.NewSender(), events);
    var sent := SendResponse(Continue(w, h), Answer(handler, h), reason, lengthDone);
    Exchanged(sent.0, sent.1, drained.stream)
  }

  /** The client broke the protocol: an empty 400 goes out, and the connection ends with `e`. */
  function Reject(w: Writer, e: ParseError, reason: StatusCode -> Option<seq<Byte>>, lengthDone: PayloadEncoder.LengthDone): (r: (Writer, Result<(), HttpError>))
    requires reason(BAD_REQUEST).Some?
  {
    var sent := SendResponse(w, ErrorResponse(BAD_REQUEST), reason, lengthDone);
    if sent.1.Err? then sent else (sent.0, Err(RequestError(e)))
  }

  /**
   * `process`: one exchange per head until the stream ends; a body item
   * where a head belongs, or a decode error, is answered with an empty 400
   * and ends the connection with an error.
   */
  function Process(w: Writer, events: seq<Event>, handler: Handler, reason: StatusCode -> Option<seq<Byte>>, lengthDone: PayloadEncoder.LengthDone): (r: (Writer, Result<(), HttpError>))
    requires Ready(handler, reason)
    decreases |events|
  {
    if events == [] then (w, Ok(()))
    else match events[0]
      case Ok(Header((h, _))) =>
        var x := Exchange(w, h, events[1..], handler, reason, lengthDone);
        if x.result.Err? then (x.writer, x.result)
        else Process(x.writer, x.rest, handler, reason, lengthDone)
      case Ok(Payload(_)) => Reject(w, InvalidBody(HEADER_EXPECTED), reason, lengthDone)
      case Err(e) => Reject(w, e, reason, lengthDone)
  }

  lemma SendResponseExtends(w: Writer, resp: Response, reason: StatusCode -> Option<seq<Byte>>, lengthDone: PayloadEncoder.LengthDone)
    requires Sendable(resp, reason)
    ensures var r := SendResponse(w, resp, reason, lengthDone);
            |w.out| <= |r.0.out| && r.0.out[..|w.out|] == w.out
  {
    var f := Feed(w, Header((resp.head, ToPayloadSize(resp.body.hint))), reason, lengthDone);
    if f.1.Ok? {
      var r := SendFrames(f.0, resp.body.frames, reason, lengthDone);
      assert r.0.out[..|w.out|] == r.0.out[..|f.0.out|][..|w.out|];
    }
  }

  /** A body whose frames are all data. */
  function DataFrames(cs: seq<seq<Byte>>): (r: seq<BodyFrame>)
    ensures |r| == |cs|
    ensures forall i | 0 <= i < |cs| :: r[i] == Data(cs[i])
  {
    if cs == [] then [] else [Data(cs[0])] + DataFrames(cs[1..])
  }

  /** Sending data frames starts with feeding the first one as a chunk. */
  lemma SendDataFramesCons(w: Writer, cs: seq<seq<Byte>>, reason: StatusCode -> Option<seq<Byte>>, lengthDone: PayloadEncoder.LengthDone)
    requires cs != []
    ensures var f := Feed(w, Payload(Chunk(cs[0])), reason, lengthDone);
            f.1.Ok? ==> SendFrames(w, DataFrames(cs), reason, lengthDone) == SendFrames(f.0, DataFrames(cs[1..]), reason, lengthDone)
  {
    assert DataFrames(cs)[0] == Data(cs[0]);
    assert DataFrames(cs)[1..] == DataFrames(cs[1..]);
  }

  /** A chunk fed to an unfinished chunked body encoder is written as its frame, even when it is empty. */
  lemma ChunkFed(e: ChunkedEncoder.Encoder, c: seq<Byte>, out: seq<Byte>, reason: StatusCode -> Option<seq<Byte>>, lengthDone: PayloadEncoder.LengthDone)
    requires !ChunkedEncoder.IsFinish(e)
    ensures Feed(Writer(ResponseEncoder.State(Some(PayloadEncoder.ChunkedKind(e))), out), Payload(Chunk(c)), reason, lengthDone)
            == (Writer(ResponseEncoder.State(Some(PayloadEncoder.ChunkedKind(e))), out + ChunkedEncoder.Frame(c)), Ok(()))
  {
  }

  /** With no data frames left, the `Eof` writes the last chunk and drops the chunked body encoder. */
  lemma LastChunkWritten(e: ChunkedEncoder.Encoder, out: seq<Byte>, reason: StatusCode -> Option<seq<Byte>>, lengthDone: PayloadEncoder.LengthDone)
    requires !ChunkedEncoder.IsFinish(e)
    ensures SendFrames(Writer(ResponseEncoder.State(Some(PayloadEncoder.ChunkedKind(e))), out), DataFrames([]), reason, lengthDone)
            == (Writer(ResponseEncoder.New(), out + ChunkedEncoder.LAST_CHUNK), Ok(()))
  {
    var w0 := Writer(ResponseEncoder.State(Some(PayloadEncoder.ChunkedKind(e))), out);
    var f := Feed(w0, Payload(Eof), reason, lengthDone);
    PayloadEncoder.EofFinishesChunked(PayloadEncoder.ChunkedKind(e), lengthDone);
    assert f == (Writer(ResponseEncoder.New(), out + ChunkedEncoder.LAST_CHUNK), Ok(()));
  }

  /** The first data frame goes out as its chunk's frame, and the rest follow from there. */
  lemma ChunkedFrameStep(e: ChunkedEncoder.Encoder, cs: seq<seq<Byte>>, out: seq<Byte>, reason: StatusCode -> Option<seq<Byte>>, lengthDone: PayloadEncoder.LengthDone)
    requires !ChunkedEncoder.IsFinish(e) && cs != []
    ensures SendFrames(Writer(ResponseEncoder.State(Some(PayloadEncoder.ChunkedKind(e))), out), DataFrames(cs), reason, lengthDone)
            == SendFrames(Writer(ResponseEncoder.State(Some(PayloadEncoder.ChunkedKind(e))), out + ChunkedEncoder.Frame(cs[0])), DataFrames(cs[1..]), reason, lengthDone)
  {
    var w0 := Writer(ResponseEncoder.State(Some(PayloadEncoder.ChunkedKind(e))), out);
    ChunkFed(e, cs[0], out, reason, lengthDone);
    SendDataFramesCons(w0, cs, reason, lengthDone);
  }

  lemma AppendRegroup(out: seq<Byte>, f: seq<Byte>, x: seq<Byte>, l: seq<Byte>)
    ensures out + f + x + l == out + (f + x) + l
  {
  }

  /** Data frames through a chunked body encoder: the frame of each, then the last chunk, and the encoder is then done. */
  lemma {:induction false} ChunkedFramesWritten(e: ChunkedEncoder.Encoder, cs: seq<seq<Byte>>, out: seq<Byte>, reason: StatusCode -> Option<seq<Byte>>, lengthDone: PayloadEncoder.LengthDone)
    requires !ChunkedEncoder.IsFinish(e)
    ensures SendFrames(Writer(ResponseEncoder.State(Some(PayloadEncoder.ChunkedKind(e))), out), DataFrames(cs), reason, lengthDone)
            == (Writer(ResponseEncoder.New(), out + ChunkedCoding.WireAsWritten(cs) + ChunkedEncoder.LAST_CHUNK), Ok(()))
    decreases |cs|
  {
    if cs == [] {
      LastChunkWritten(e, out, reason, lengthDone);
      assert out + ChunkedCoding.WireAsWritten(cs) == out;
    } else {
      var f := ChunkedEncoder.Frame(cs[0]);
      var x := ChunkedCoding.WireAsWritten(cs[1..]);
      ChunkedFrameStep(e, cs, out, reason, lengthDone);
      ChunkedFramesWritten(e, cs[1..], out + f, reason, lengthDone);
      assert ChunkedCoding.WireAsWritten(cs) == f + x;
      AppendRegroup(out, f, x, ChunkedEncoder.LAST_CHUNK);
    }
  }

  /**
   * A response body of unknown size goes out chunked: the head with
   * `transfer-encoding: chunked`, every data frame as a chunk, then the
   * last chunk, and the encoder is ready for the next response. Without
   * empty data frames, the chunks are those of the corrected encoder.
   */
  lemma StreamedResponseWritten(out: seq<Byte>, head: ResponseHead, hint: SizeHint, cs: seq<seq<Byte>>, reason: StatusCode -> Option<seq<Byte>>, lengthDone: PayloadEncoder.LengthDone)
    requires Valid(head.headers) && head.version == Http11 && reason(head.status).Some?
    requires Exact(hint).None?
    ensures var resp := Response(head, RespBody(hint, DataFrames(cs)));
            && Sendable(resp, reason)
            && SendResponse(Writer(ResponseEncoder.New(), out), resp, reason, lengthDone)
               == (Writer(ResponseEncoder.New(), out + HeaderEncoder.Encode(head, Chunked, reason(head.status)).value
                                                     + ChunkedCoding.WireAsWritten(cs) + ChunkedEncoder.LAST_CHUNK), Ok(()))
            && (ChunkedCoding.NoEmptyChunk(cs) ==> ChunkedCoding.WireAsWritten(cs) == ChunkedCoding.Wire(cs))
  {
    if ChunkedCoding.NoEmptyChunk(cs) {
      ChunkedCoding.WireAgrees(cs);
    }
    var h := HeaderEncoder.Encode(head, Chunked, reason(head.status)).value;
    ChunkedFramesWritten(ChunkedEncoder.New(), cs, out + h, reason, lengthDone);
  }

  /**
   * The connection's error responses go out as a head alone, framed with
   * `content-length: 0`, and leave the encoder ready for another head.
   */
  lemma ErrorResponseWritten(out: seq<Byte>, status: StatusCode, reason: StatusCode -> Option<seq<Byte>>, lengthDone: PayloadEncoder.LengthDone)
    requires reason(status).Some?
    ensures var resp := ErrorResponse(status);
            && Sendable(resp, reason)
            && SendResponse(Writer(ResponseEncoder.New(), out), resp, reason, lengthDone)
               == (Writer(ResponseEncoder.New(), out + HeaderEncoder.Encode(resp.head, Empty, reason(status)).value), Ok(()))
  {
    var resp := ErrorResponse(status);
    assert ToPayloadSize(resp.body.hint) == Empty;
    var f := Feed(Writer(ResponseEncoder.New(), out), Header((resp.head, Empty)), reason, lengthDone);
    assert f.0.encoder == ResponseEncoder.State(Some(PayloadEncoder.Empty()));
    var bytes := HeaderEncoder.Encode(resp.head, Empty, reason(status)).value;
    assert f == (Writer(ResponseEncoder.State(Some(PayloadEncoder.Empty())), out + bytes), Ok(()));
    var g := Feed(f.0, Payload(Eof), reason, lengthDone);
    assert g == (Writer(ResponseEncoder.New(), out + bytes + []), Ok(()));
    assert out + bytes + [] == out + bytes;
  }

  /**
   * One exchange: whatever the head and however long its well-formed body,
   * the connection writes the answer and goes on with exactly the events
   * after the body, unless writing the answer failed.
   */
  lemma ExchangeThenNext(w: Writer, h: RequestHeader, size: PayloadSize, cs: seq<seq<Byte>>, next: seq<Event>, handler: Handler, reason: StatusCode -> Option<seq<Byte>>, lengthDone: PayloadEncoder.LengthDone)
    requires Ready(handler, reason)
    ensures var sent := SendResponse(Continue(w, h), Answer(handler, h), reason, lengthDone);
            Process(w, [Ok(Header((h, size)))] + ReqBody.BodyThen(cs, next), handler, reason, lengthDone)
              == if sent.1.Err? then sent else Process(sent.0, next, handler, reason, lengthDone)
  {
    var events := [Ok(Header((h, size)))] + ReqBody.BodyThen(cs, next);
    assert events[1..] == ReqBody.BodyThen(cs, next);
    BodyChannel.SkipBody(cs, next);
  }

  /**
   * A handler that fails is answered with an empty 500, written after the
   * `100 Continue` when the request asked for one.
   */
  lemma FailedHandlerAnswered500(out: seq<Byte>, h: RequestHeader, size: PayloadSize, cs: seq<seq<Byte>>, next: seq<Event>, handler: Handler, reason: StatusCode -> Option<seq<Byte>>, lengthDone: PayloadEncoder.LengthDone)
    requires Ready(handler, reason) && handler(h).Err?
    ensures var before := if ExpectsContinue(h) then out + CONTINUE else out;
            var head := ErrorResponse(INTERNAL_SERVER_ERROR).head;
            Process(Writer(ResponseEncoder.New(), out), [Ok(Header((h, size)))] + ReqBody.BodyThen(cs, next), handler, reason, lengthDone)
              == Process(Writer(ResponseEncoder.New(), before + HeaderEncoder.Encode(head, Empty, reason(INTERNAL_SERVER_ERROR)).value), next, handler, reason, lengthDone)
  {
    var w := Writer(ResponseEncoder.New(), out);
    ExchangeThenNext(w, h, size, cs, next, handler, reason, lengthDone);
    ErrorResponseWritten(Continue(w, h).out, INTERNAL_SERVER_ERROR, reason, lengthDone);
  }

  /**
   * A body item where a head belongs, or a decode error, is answered with an
   * empty 400 and ends the connection with the request's error; nothing
   * after it is read.
   */
  lemma ClientErrorAnswered400(out: seq<Byte>, first: Event, rest: seq<Event>, handler: Handler, reason: StatusCode -> Option<seq<Byte>>, lengthDone: PayloadEncoder.LengthDone)
    requires Ready(handler, reason) && !(first.Ok? && first.value.Header?)
    ensures var head := ErrorResponse(BAD_REQUEST).head;
            var e := if first.Err? then first.error else InvalidBody(HEADER_EXPECTED);
            Process(Writer(ResponseEncoder.New(), out), [first] + rest, handler, reason, lengthDone)
              == (Writer(ResponseEncoder.New(), out + HeaderEncoder.Encode(head, Empty, reason(BAD_REQUEST)).value), Err(RequestError(e)))
  {
    assert ([first] + rest)[0] == first;
    ErrorResponseWritten(out, BAD_REQUEST, reason, lengthDone);
  }
}
