/**
 * The request body a handler reads: the messages after a head, read from
 * the connection's message stream until the body's `Eof`. The stream is a
 * sequence of events, and "the reader" handed back to the connection is
 * the part of it not yet read.
 */
module ReqBody {
  import opened Wrappers
  import opened Bytes
  import opened Errors
  import opened Messages
  import opened SizeHints
  import opened RequestDecoder

  /** A body with nothing to read, or one streamed from the reader until its end was seen. */
  datatype Body = NoBody | Streaming(size: PayloadSize, reachedEof: bool)

  /** One `poll_frame`: a data frame, the end of the body, or an error. */
  datatype Polled = Frame(data: seq<Byte>) | Done | Failed(error: ParseError)

  datatype Poll = Poll(polled: Polled, body: Body, stream: seq<Event>)

  const UNEXPECTED_HEADER: string := "unexpected header while streaming request body"
  const UNEXPECTED_END: string := "unexpected EOF while streaming request body"
  const HEADER_WHILE_DRAINING: string := "unexpected header while draining request body"
  const CLOSED_BEFORE_EOF: string := "connection closed before body EOF"

  /** `ReqBodyState::new`: an empty body, or a length of 0, is not streamed at all. */
  function New(size: PayloadSize): (b: Body)
    ensures b.NoBody? <==> size == Empty || size == Length(0)
    ensures b.Streaming? ==> b == Streaming(size, false)
  {
    match size
    case Empty => NoBody
    case Length(0) => NoBody
    case _ => Streaming(size, false)
  }

  predicate IsEndStream(b: Body)
  {
    b.NoBody? || b.reachedEof
  }

  /** `size_hint`: exactly 0 with no body, otherwise the hint of the head's framing. */
  function Hint(b: Body): (h: SizeHint)
    ensures b.NoBody? ==> Exact(h) == Some(0)
    ensures b.Streaming? && b.size.Chunked? ==> Exact(h).None?
    ensures b.Streaming? && b.size.Length? ==> Exact(h) == Some(b.size.n)
  {
    match b
    case NoBody => WithExact(0)
    case Streaming(size, _) => FromPayloadSize(size)
  }

  /**
   * `poll_frame`. Once the end was seen, every poll is the end again and
   * reads nothing; otherwise the next event is read, and anything but a
   * chunk marks the end: `Eof` quietly, the rest as an error.
   */
  function PollFrame(b: Body, stream: seq<Event>): (r: Poll)
    ensures IsEndStream(b) ==> r == Poll(Done, b, stream)
    ensures r.polled.Frame? ==>
              && stream != [] && stream[0] == Ok(Payload(Chunk(r.polled.data)))
              && r.stream == stream[1..] && r.body == b
    ensures !IsEndStream(b) && !r.polled.Frame? ==>
              && r.body == b.(reachedEof := true)
              && r.stream == (if stream == [] then [] else stream[1..])
              && (r.polled.Done? <==> stream != [] && stream[0] == Ok(Payload(Eof)))
    ensures IsEndStream(r.body) <==> !r.polled.Frame?
  {
    if IsEndStream(b) then Poll(Done, b, stream)
    else if stream == [] then Poll(Failed(InvalidBody(UNEXPECTED_END)), b.(reachedEof := true), [])
    else match stream[0]
      case Ok(Payload(Chunk(data))) => Poll(Frame(data), b, stream[1..])
      case Ok(Payload(Eof)) => Poll(Done, b.(reachedEof := true), stream[1..])
      case Ok(Header(_)) => Poll(Failed(InvalidBody(UNEXPECTED_HEADER)), b.(reachedEof := true), stream[1..])
      case Err(e) => Poll(Failed(e), b.(reachedEof := true), stream[1..])
  }

  /**
   * `finish`: drain the rest of the body and hand the reader back. A body
   * whose end was already seen, including through an error, is handed back
   * as it stands.
   */
  function Finish(b: Body, stream: seq<Event>): (r: Result<seq<Event>, ParseError>)
    ensures IsEndStream(b) ==> r == Ok(stream)
    ensures !IsEndStream(b) ==> r == Drain(stream)
  {
    if IsEndStream(b) then Ok(stream) else Drain(stream)
  }

  /**
   * The draining loop of `finish`: chunks are dropped until `Eof`; a head,
   * an error or the end of the stream ends it with an error.
   */
  function Drain(stream: seq<Event>): (r: Result<seq<Event>, ParseError>)
    ensures r.Ok? ==> |r.value| < |stream| && r.value == stream[|stream| - |r.value|..]
                      && stream[|stream| - |r.value| - 1] == Ok(Payload(Eof))
    ensures r.Ok? ==> forall i | 0 <= i < |stream| - |r.value| - 1 :: stream[i].Ok? && stream[i].value.Payload? && stream[i].value.item.Chunk?
    ensures stream == [] ==> r == Err(InvalidBody(CLOSED_BEFORE_EOF))
  {
    if stream == [] then Err(InvalidBody(CLOSED_BEFORE_EOF))
    else match stream[0]
      case Ok(Payload(Chunk(_))) => Drain(stream[1..])
      case Ok(Payload(Eof)) => Ok(stream[1..])
      case Ok(Header(_)) => Err(InvalidBody(HEADER_WHILE_DRAINING))
      case Err(e) => Err(e)
  }

  /** The events that carry a body's items. */
  function BodyEvents(items: seq<PayloadItem>): (r: seq<Event>)
    ensures |r| == |items|
    ensures forall i | 0 <= i < |items| :: r[i] == Ok(Payload(items[i]))
  {
    if items == [] then [] else [Ok(Payload(items[0]))] + BodyEvents(items[1..])
  }

  /** Polls until something other than a data frame comes out: the data frames, and that last poll. */
  datatype ReadOut = ReadOut(frames: seq<seq<Byte>>, last: Poll)

  function ReadToEnd(b: Body, stream: seq<Event>): (r: ReadOut)
    decreases |stream|
    ensures !r.last.polled.Frame? && IsEndStream(r.last.body)
  {
    var p := PollFrame(b, stream);
    if p.polled.Frame? then
      var more := ReadToEnd(p.body, p.stream);
      ReadOut([p.polled.data] + more.frames, more.last)
    else ReadOut([], p)
  }

  /** `k` polls one after another, for a handler that stops reading at any point. */
  function PollTimes(b: Body, stream: seq<Event>, k: nat): (r: Poll)
    decreases k
    ensures r.body.NoBody? <==> b.NoBody?
  {
    if k == 0 then Poll(Done, b, stream)
    else
      var p := PollFrame(b, stream);
      if k == 1 then p else PollTimes(p.body, p.stream, k - 1)
  }

  function BodyThen(cs: seq<seq<Byte>>, next: seq<Event>): seq<Event>
  {
    BodyEvents(Chunks(cs) + [Eof]) + next
  }

  lemma BodyThenSteps(cs: seq<seq<Byte>>, next: seq<Event>)
    ensures cs == [] ==> BodyThen(cs, next) == [Ok(Payload(Eof))] + next
    ensures cs != [] ==> BodyThen(cs, next) == [Ok(Payload(Chunk(cs[0])))] + BodyThen(cs[1..], next)
  {
    if cs != [] {
      assert (Chunks(cs) + [Eof])[1..] == Chunks(cs[1..]) + [Eof];
    }
  }

  /**
   * A handler that reads the whole body gets its chunks as frames, in
   * order, then the end, and the events after the body are untouched.
   */
  lemma {:induction false} ReadWholeBody(size: PayloadSize, cs: seq<seq<Byte>>, next: seq<Event>)
    ensures ReadToEnd(Streaming(size, false), BodyThen(cs, next))
              == ReadOut(cs, Poll(Done, Streaming(size, true), next))
  {
    var b := Streaming(size, false);
    var stream := BodyThen(cs, next);
    BodyThenSteps(cs, next);
    assert stream[1..] == if cs == [] then next else BodyThen(cs[1..], next);
    if cs == [] {
      assert PollFrame(b, stream) == Poll(Done, Streaming(size, true), next);
    } else {
      assert PollFrame(b, stream) == Poll(Frame(cs[0]), b, BodyThen(cs[1..], next));
      ReadWholeBody(size, cs[1..], next);
      assert [cs[0]] + cs[1..] == cs;
    }
  }

  /** Once the end was seen, further polls change nothing. */
  lemma {:induction false} PollingAfterEnd(b: Body, stream: seq<Event>, k: nat)
    requires IsEndStream(b)
    ensures PollTimes(b, stream, k) == Poll(Done, b, stream)
  {
    if k > 1 {
      PollingAfterEnd(b, stream, k - 1);
    }
  }

  /**
   * However much of a well-formed body the handler read, finishing it hands
   * back the reader positioned exactly after the body, so no body byte
   * reaches the next head's parse.
   */
  lemma {:induction false} FinishAfterAnyReads(size: PayloadSize, cs: seq<seq<Byte>>, next: seq<Event>, k: nat)
    ensures var p := PollTimes(Streaming(size, false), BodyThen(cs, next), k);
            Finish(p.body, p.stream) == Ok(next)
  {
    BodyThenSteps(cs, next);
    var b := Streaming(size, false);
    if k == 0 {
      DrainBody(cs, next);
    } else if cs == [] {
      PollingAfterEnd(b.(reachedEof := true), next, k - 1);
    } else if k > 1 {
      FinishAfterAnyReads(size, cs[1..], next, k - 1);
    } else {
      DrainBody(cs[1..], next);
    }
  }

  /**
   * A body that was never streamed is not drained by `finish`, yet the
   * request decoder still yields that body's `Eof` after the head: the `Eof`
   * is left in front of the next request's events.
   */
  lemma NoBodyLeavesEofAsWritten(size: PayloadSize, next: seq<Event>)
    requires size == Empty || size == Length(0)
    ensures Finish(New(size), BodyThen([], next)) == Ok([Ok(Payload(Eof))] + next)
  {
    BodyThenSteps([], next);
  }

  /**
   * `finish` as it is meant to work: a body without bytes still has its
   * `Eof` read off, so every body, streamed or not, is consumed to its end.
   */
  function FinishDraining(b: Body, stream: seq<Event>): (r: Result<seq<Event>, ParseError>)
    ensures b.NoBody? ==> r == Drain(stream)
    ensures b.Streaming? ==> r == Finish(b, stream)
  {
    if b.NoBody? then Drain(stream) else Finish(b, stream)
  }

  /**
   * Whatever the framing, and however many frames the handler read, the
   * corrected `finish` leaves exactly the next request's events. A framing
   * without a body carries no chunks, only its `Eof`.
   */
  lemma {:induction false} FinishFromNew(size: PayloadSize, cs: seq<seq<Byte>>, next: seq<Event>, k: nat)
    requires size == Empty || size == Length(0) ==> cs == []
    ensures var p := PollTimes(New(size), BodyThen(cs, next), k);
            FinishDraining(p.body, p.stream) == Ok(next)
  {
    if size == Empty || size == Length(0) {
      PollingAfterEnd(NoBody, BodyThen(cs, next), k);
      DrainBody(cs, next);
    } else {
      FinishAfterAnyReads(size, cs, next, k);
    }
  }

  lemma {:induction false} DrainBody(cs: seq<seq<Byte>>, next: seq<Event>)
    ensures Drain(BodyThen(cs, next)) == Ok(next)
  {
    BodyThenSteps(cs, next);
    if cs != [] {
      DrainBody(cs[1..], next);
    }
  }

  /**
   * An error while the handler reads marks the body's end, so `finish` then
   * hands back the reader where the error left it, without draining: the
   * rest of the body stays in front of the next head.
   */
  lemma ErrorEndsWithoutDrain(size: PayloadSize, e: ParseError, rest: seq<Event>)
    requires size != Empty && size != Length(0)
    ensures var p := PollFrame(New(size), [Err(e)] + rest);
            && p.polled == Failed(e)
            && Finish(p.body, p.stream) == Ok(rest)
  {
    assert ([Err(e)] + rest)[1..] == rest;
  }
}
