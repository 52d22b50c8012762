/**
 * The request decoder: it parses a head while no body is being read, then
 * hands the buffer to the body decoder the head's framing calls for until
 * that decoder yields `Eof`, after which the next head is parsed from the
 * bytes that follow.
 */
module RequestDecoder {
  import opened Wrappers
  import opened Bytes
  import opened Errors
  import opened Messages
  import opened Requests
  import opened FramedRead
  import HeaderDecoder
  import PayloadDecoder
  import LengthDecoder

  /** The request-line and field tokeniser, an oracle consulted on the whole buffer. */
  type Tokeniser = seq<Byte> -> HeaderDecoder.Tokenised

  /** `None` while a head is expected, the body's decoder while its bytes are. */
  datatype Decoder = Decoder(payload: Option<PayloadDecoder.Decoder>)

  type Item = Message<(RequestHeader, PayloadSize)>

  /**
   * What the framed reader yields for each message it decodes; a sequence
   * of these stands for the rest of the connection's input, and its end for
   * the end of the stream.
   */
  type Event = Result<Item, ParseError>

  /** One call: what it returned, the decoder after it, and the unread bytes. */
  datatype Step = Step(result: Result<Option<Item>, ParseError>, decoder: Decoder, rest: seq<Byte>)

  function New(): (d: Decoder)
    ensures d.payload.None?
  {
    Decoder(None)
  }

  predicate IsItem(r: Step, item: Item)
  {
    r.result == Ok(Some(item))
  }

  /**
   * `RequestDecoder::decode`. An error from the body decoder keeps that
   * decoder in whatever state it reached, as the source borrows it in place.
   */
  function Decode(d: Decoder, src: seq<Byte>, tok: Tokeniser): (r: Step)
    requires d.payload.None? ==> HeaderDecoder.Sound(src, tok(src))
    // while a body is read, no head is parsed and only body items come out
    ensures d.payload.Some? ==>
              var o := PayloadDecoder.Decode(d.payload.value, src);
              && r.rest == o.rest
              && (o.result.Err? ==> r.result == Err(o.result.error))
              && (o.result.Ok? ==> r.result.Ok? && (r.result.value.Some? <==> o.result.value.Some?))
              && (o.result.Ok? && o.result.value.Some? ==> r.result.value.value == Payload(o.result.value.value))
              && (r.decoder.payload.None? <==> IsItem(r, Payload(Eof)))
              && (r.decoder.payload.Some? ==> r.decoder.payload.value == o.decoder)
    // while a head is expected, the head decoder decides, and a head installs its body decoder
    ensures d.payload.None? ==>
              var h := HeaderDecoder.Decode(src, tok(src));
              && r.rest == h.rest
              && (h.result.Err? ==> r.result == Err(h.result.error) && r.decoder == d)
              && (h.result.Ok? && h.result.value.None? ==> r.result == Ok(None) && r.decoder == d)
              && (h.result.Ok? && h.result.value.Some? ==>
                    && IsItem(r, Header(h.result.value.value))
                    && r.decoder.payload == Some(PayloadDecoder.FromSize(h.result.value.value.1)))
    // asking for more data never changes phase
    ensures r.result == Ok(None) ==> r.decoder.payload.Some? == d.payload.Some?
  {
    match d.payload
    case Some(p) =>
      var o := PayloadDecoder.Decode(p, src);
      (match o.result
       case Err(e) => Step(Err(e), Decoder(Some(o.decoder)), o.rest)
       case Ok(None) => Step(Ok(None), Decoder(Some(o.decoder)), o.rest)
       case Ok(Some(Chunk(c))) => Step(Ok(Some(Payload(Chunk(c)))), Decoder(Some(o.decoder)), o.rest)
       case Ok(Some(Eof)) => Step(Ok(Some(Payload(Eof))), New(), o.rest))
    case None =>
      var h := HeaderDecoder.Decode(src, tok(src));
      if h.result.Err? then Step(Err(h.result.error), d, h.rest)
      else if h.result.value.None? then Step(Ok(None), d, h.rest)
      else
        var (head, size) := h.result.value.value;
        Step(Ok(Some(Header((head, size)))), Decoder(Some(PayloadDecoder.FromSize(size))), h.rest)
  }

  /**
   * Two requests in one buffer, the first with a non-empty `Content-Length`
   * body: the head, then the body as one chunk, then `Eof`, and the decoder
   * is back to expecting a head with exactly the second request's bytes
   * unread.
   */
  lemma PipelinedRequests(src: seq<Byte>, body: seq<Byte>, next: seq<Byte>, head: RequestHeader, tok: Tokeniser)
    requires body != [] && HeaderDecoder.Sound(src, tok(src))
    requires HeaderDecoder.Decode(src, tok(src)) == HeaderDecoder.Decoded(Ok(Some((head, Length(|body|)))), body + next)
    ensures var r1 := Decode(New(), src, tok);
            && IsItem(r1, Header((head, Length(|body|)))) && r1.rest == body + next
            && var r2 := Decode(r1.decoder, r1.rest, tok);
            && IsItem(r2, Payload(Chunk(body))) && r2.rest == next
            && var r3 := Decode(r2.decoder, r2.rest, tok);
            && IsItem(r3, Payload(Eof)) && r3.decoder == New() && r3.rest == next
  {
    var r1 := Decode(New(), src, tok);
    assert r1.decoder == Decoder(Some(PayloadDecoder.LengthKind(LengthDecoder.Decoder(|body|))));
    assert (body + next)[..|body|] == body && (body + next)[|body|..] == next;
    var r2 := Decode(r1.decoder, r1.rest, tok);
    assert r2.decoder == Decoder(Some(PayloadDecoder.LengthKind(LengthDecoder.Decoder(0))));
  }

  /**
   * A request whose head calls for no body still yields one `Eof` item
   * before the next head: it reads no byte, and it puts the decoder back to
   * expecting a head.
   */
  lemma NoBodyYieldsEof(src: seq<Byte>, rest: seq<Byte>, head: RequestHeader, tok: Tokeniser)
    requires HeaderDecoder.Sound(src, tok(src))
    requires HeaderDecoder.Decode(src, tok(src)) == HeaderDecoder.Decoded(Ok(Some((head, Empty))), rest)
    ensures var r1 := Decode(New(), src, tok);
            && IsItem(r1, Header((head, Empty))) && r1.rest == rest
            && var r2 := Decode(r1.decoder, r1.rest, tok);
            && r2 == Step(Ok(Some(Payload(Eof))), New(), rest)
  {
  }
}
