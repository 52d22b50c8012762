/**
 * The response encoder: a head installs the body encoder its framing calls
 * for and is written by the head encoder; payload items go to that body
 * encoder, which is dropped once it reports the body finished. Messages
 * out of that order are refused.
 */
module ResponseEncoder {
  import opened Wrappers
  import opened Bytes
  import opened Errors
  import opened Messages
  import opened HeaderMaps
  import opened HeaderEncoder
  import PayloadEncoder
  import LengthEncoder
  import ChunkedEncoder
  import ChunkedCoding

  /** `None` while a head is expected, the body's encoder while its items are. */
  datatype State = State(payload: Option<PayloadEncoder.Encoder>)

  datatype Sent = Sent(state: State, result: Result<seq<Byte>, SendError>)

  /** A response message: a head with its framing, or one body item. */
  type Item = Message<(ResponseHead, PayloadSize)>

  function New(): (s: State)
    ensures s.payload.None?
  {
    State(None)
  }

  /** `parse_payload_encoder`: the body encoder named after the framing. */
  function ForSize(size: PayloadSize): (e: PayloadEncoder.Encoder)
    ensures size.Length? <==> e.LengthKind?
    ensures size.Chunked? <==> e.ChunkedKind?
    ensures size.Empty? <==> e.NoBody?
    ensures size.Length? ==> e.length.length == size.n
    ensures size.Chunked? ==> !ChunkedEncoder.IsFinish(e.chunked)
  {
    match size
    case Length(n) => PayloadEncoder.FixLength(n)
    case Chunked => PayloadEncoder.Chunked()
    case Empty => PayloadEncoder.Empty()
  }

  /** The heads a caller may send: well-formed fields, and a reason phrase wherever one is written. */
  predicate Writable(item: Item, reason: StatusCode -> Option<seq<Byte>>)
  {
    item.Header? ==> Valid(item.head.0.headers) && (item.head.0.version == Requests.Http11 ==> reason(item.head.0.status).Some?)
  }

  /**
   * `ResponseEncoder::encode`. The body encoder is installed before the
   * head is written, so it stays installed even when writing the head fails.
   */
  function Encode(s: State, item: Item, reason: StatusCode -> Option<seq<Byte>>, lengthDone: PayloadEncoder.LengthDone): (r: Sent)
    requires Writable(item, reason)
    ensures item.Header? && s.payload.Some? ==> r == Sent(s, Err(SendIo(InvalidInput)))
    ensures item.Payload? && s.payload.None? ==> r == Sent(s, Err(SendIo(InvalidInput)))
    ensures item.Header? && s.payload.None? ==>
              && r.state == State(Some(ForSize(item.head.1)))
              && r.result == HeaderEncoder.Encode(item.head.0, item.head.1, reason(item.head.0.status))
    ensures item.Payload? && s.payload.Some? ==>
              var w := PayloadEncoder.Encode(s.payload.value, item.item);
              && r.result == Ok(w.out)
              && (r.state.payload.None? <==> PayloadEncoder.IsFinish(w.encoder, lengthDone))
              && (r.state.payload.Some? ==> r.state.payload.value == w.encoder)
  {
    match item
    case Header((head, size)) =>
      if s.payload.Some? then Sent(s, Err(SendIo(InvalidInput)))
      else Sent(State(Some(ForSize(size))), HeaderEncoder.Encode(head, size, reason(head.status)))
    case Payload(p) =>
      if s.payload.None? then Sent(s, Err(SendIo(InvalidInput)))
      else
        var w := PayloadEncoder.Encode(s.payload.value, p);
        Sent(State(if PayloadEncoder.IsFinish(w.encoder, lengthDone) then None else Some(w.encoder)), Ok(w.out))
  }

  /** Body items as messages. */
  function Payloads(items: seq<PayloadItem>): (r: seq<Item>)
    ensures |r| == |items|
    ensures forall i | 0 <= i < |items| :: r[i] == Payload(items[i])
  {
    if items == [] then [] else [Payload(items[0])] + Payloads(items[1..])
  }

  /** Where a run of messages left the encoder, what it wrote, and the error that stopped it, if any. */
  datatype SentAll = SentAll(state: State, out: seq<Byte>, error: Option<SendError>)

  /** Sending messages one after another, stopping at the first error as the connection does. */
  function SendAll(s: State, items: seq<Item>, reason: StatusCode -> Option<seq<Byte>>, lengthDone: PayloadEncoder.LengthDone): SentAll
    requires forall i | 0 <= i < |items| :: Writable(items[i], reason)
    decreases |items|
  {
    if items == [] then SentAll(s, [], None)
    else
      var r := Encode(s, items[0], reason, lengthDone);
      if r.result.Err? then SentAll(r.state, [], Some(r.result.error))
      else
        var more := SendAll(r.state, items[1..], reason, lengthDone);
        SentAll(more.state, r.result.value + more.out, more.error)
  }

  /**
   * A chunked body's items go out as the frames of its chunks, empty ones
   * included, and the last chunk, after which a head is expected again.
   */
  lemma {:induction false} ChunkedBodySent(e: ChunkedEncoder.Encoder, cs: seq<seq<Byte>>, reason: StatusCode -> Option<seq<Byte>>, lengthDone: PayloadEncoder.LengthDone)
    requires !ChunkedEncoder.IsFinish(e)
    ensures SendAll(State(Some(PayloadEncoder.ChunkedKind(e))), Payloads(Chunks(cs) + [Eof]), reason, lengthDone)
            == SentAll(New(), ChunkedCoding.WireAsWritten(cs) + ChunkedEncoder.LAST_CHUNK, None)
  {
    var items := Payloads(Chunks(cs) + [Eof]);
    if cs == [] {
      assert items == [Payload(Eof)];
      assert items[1..] == [];
    } else {
      assert items[0] == Payload(Chunk(cs[0]));
      assert items[1..] == Payloads(Chunks(cs[1..]) + [Eof]);
      ChunkedBodySent(e, cs[1..], reason, lengthDone);
      assert ChunkedEncoder.Frame(cs[0]) + (ChunkedCoding.WireAsWritten(cs[1..]) + ChunkedEncoder.LAST_CHUNK)
          == ChunkedEncoder.Frame(cs[0]) + ChunkedCoding.WireAsWritten(cs[1..]) + ChunkedEncoder.LAST_CHUNK;
    }
  }

  /**
   * A chunked response in the connection's order (the head, one chunk per
   * data frame, then `Eof`) goes out whole: the head, the frames and the
   * last chunk, and the encoder then waits for the next head. Without empty
   * chunks, the frames are those of the corrected encoder.
   */
  lemma ChunkedResponse(head: ResponseHead, cs: seq<seq<Byte>>, reason: StatusCode -> Option<seq<Byte>>, lengthDone: PayloadEncoder.LengthDone)
    requires Valid(head.headers) && head.version == Requests.Http11 && reason(head.status).Some?
    ensures var items := [Header((head, Chunked))] + Payloads(Chunks(cs) + [Eof]);
            && (forall i | 0 <= i < |items| :: Writable(items[i], reason))
            && SendAll(New(), items, reason, lengthDone)
               == SentAll(New(), HeaderEncoder.Encode(head, Chunked, reason(head.status)).value
                                 + ChunkedCoding.WireAsWritten(cs) + ChunkedEncoder.LAST_CHUNK, None)
            && (ChunkedCoding.NoEmptyChunk(cs) ==> ChunkedCoding.WireAsWritten(cs) == ChunkedCoding.Wire(cs))
  {
    if ChunkedCoding.NoEmptyChunk(cs) {
      ChunkedCoding.WireAgrees(cs);
    }
    var body := Payloads(Chunks(cs) + [Eof]);
    HeadThenBodyWritable(head, body, reason);
    var bytes := HeaderEncoder.Encode(head, Chunked, reason(head.status));
    HeadThenChunkedBody(head, cs, reason, lengthDone);
    ConcatRegroup(bytes.value, ChunkedCoding.WireAsWritten(cs), ChunkedEncoder.LAST_CHUNK);
  }

  lemma ConcatRegroup(a: seq<Byte>, b: seq<Byte>, c: seq<Byte>)
    ensures a + (b + c) == a + b + c
  {
  }

  /** A writable head followed by body items: every item is writable. */
  lemma HeadThenBodyWritable(head: ResponseHead, body: seq<Item>, reason: StatusCode -> Option<seq<Byte>>)
    requires Valid(head.headers) && head.version == Requests.Http11 && reason(head.status).Some?
    requires forall i | 0 <= i < |body| :: body[i].Payload?
    ensures var items := [Header((head, Chunked))] + body;
            forall i | 0 <= i < |items| :: Writable(items[i], reason)
  {
    var items := [Header((head, Chunked))] + body;
    forall i | 0 <= i < |items| ensures Writable(items[i], reason) {
      if i > 0 {
        assert items[i] == body[i - 1];
      }
    }
  }

  /** The chunked head installs a fresh chunked encoder, and the body follows it. */
  lemma HeadThenChunkedBody(head: ResponseHead, cs: seq<seq<Byte>>, reason: StatusCode -> Option<seq<Byte>>, lengthDone: PayloadEncoder.LengthDone)
    requires Valid(head.headers) && head.version == Requests.Http11 && reason(head.status).Some?
    ensures HeaderEncoder.Encode(head, Chunked, reason(head.status)).Ok?
    ensures SendAll(New(), [Header((head, Chunked))] + Payloads(Chunks(cs) + [Eof]), reason, lengthDone)
            == SentAll(New(), HeaderEncoder.Encode(head, Chunked, reason(head.status)).value
                              + (ChunkedCoding.WireAsWritten(cs) + ChunkedEncoder.LAST_CHUNK), None)
  {
    var body := Payloads(Chunks(cs) + [Eof]);
    var items := [Header((head, Chunked))] + body;
    assert items[0] == Header((head, Chunked)) && items[1..] == body;
    var r := Encode(New(), items[0], reason, lengthDone);
    var bytes := HeaderEncoder.Encode(head, Chunked, reason(head.status));
    assert bytes.Ok?;
    assert r == Sent(State(Some(PayloadEncoder.ChunkedKind(ChunkedEncoder.New()))), bytes);
    ChunkedBodySent(ChunkedEncoder.New(), cs, reason, lengthDone);
  }

  /**
   * A response framed as empty (a body whose size is exactly zero) needs its
   * `Eof` to drop the body encoder: the head alone leaves the encoder
   * expecting a body item, and the `Eof` writes nothing and lets the next
   * head through.
   */
  lemma EmptyResponse(head: ResponseHead, reason: StatusCode -> Option<seq<Byte>>, lengthDone: PayloadEncoder.LengthDone)
    requires Valid(head.headers) && head.version == Requests.Http11 && reason(head.status).Some?
    ensures var h := Encode(New(), Header((head, Empty)), reason, lengthDone);
            && h.state.payload.Some? && h.result.Ok?
            && Encode(h.state, Payload(Eof), reason, lengthDone) == Sent(New(), Ok([]))
            && Encode(h.state, Header((head, Empty)), reason, lengthDone).result == Err(SendIo(InvalidInput))
  {
  }

  /**
   * Whatever the fixed-length encoder's finish test is, as long as it looks
   * only at the count still owed, a response with a non-empty fixed-length
   * body cannot be followed by another in the connection's order: either
   * the `Eof` after the body is refused, because the body encoder was
   * dropped when the count reached zero, or it is accepted and the encoder
   * stays, so the next head is refused.
   */
  lemma LengthResponseBlocks(head: ResponseHead, body: seq<Byte>, next: ResponseHead, reason: StatusCode -> Option<seq<Byte>>, lengthDone: PayloadEncoder.LengthDone)
    requires Valid(head.headers) && head.version == Requests.Http11 && reason(head.status).Some?
    requires Valid(next.headers) && (next.version == Requests.Http11 ==> reason(next.status).Some?)
    requires body != []
    ensures var items := [Header((head, Length(|body|))), Payload(Chunk(body)), Payload(Eof), Header((next, Empty))];
            && (forall i | 0 <= i < |items| :: Writable(items[i], reason))
            && SendAll(New(), items, reason, lengthDone).error == Some(SendIo(InvalidInput))
  {
    var items := [Header((head, Length(|body|))), Payload(Chunk(body)), Payload(Eof), Header((next, Empty))];
    var s1 := State(Some(PayloadEncoder.LengthKind(LengthEncoder.Encoder(|body|))));
    forall i | 0 <= i < |items| ensures Writable(items[i], reason) {
    }
    SendAllStep(New(), items, reason, lengthDone);
    var h := Encode(New(), items[0], reason, lengthDone);
    assert HeaderEncoder.Encode(head, Length(|body|), reason(head.status)).Ok?;
    assert h.state == s1 && h.result.Ok?;
    assert items[1..] == [Payload(Chunk(body)), Payload(Eof), Header((next, Empty))];
    assert items[1..][1..] == [Payload(Eof), Header((next, Empty))];
    SendAllStep(s1, items[1..], reason, lengthDone);
    var done := PayloadEncoder.LengthKind(LengthEncoder.Encoder(0));
    var s2 := if lengthDone(done.length) then New() else State(Some(done));
    assert Encode(s1, items[1], reason, lengthDone) == Sent(s2, Ok(body));
    AfterBodyBlocks(s2, done, next, reason, lengthDone);
  }

  /** The `Eof` and next head, from wherever a fully written fixed-length body left the encoder. */
  lemma AfterBodyBlocks(s: State, done: PayloadEncoder.Encoder, next: ResponseHead, reason: StatusCode -> Option<seq<Byte>>, lengthDone: PayloadEncoder.LengthDone)
    requires done == PayloadEncoder.LengthKind(LengthEncoder.Encoder(0))
    requires s == if lengthDone(done.length) then New() else State(Some(done))
    requires Valid(next.headers) && (next.version == Requests.Http11 ==> reason(next.status).Some?)
    ensures var rest := [Payload(Eof), Header((next, Empty))];
            && (forall i | 0 <= i < |rest| :: Writable(rest[i], reason))
            && SendAll(s, rest, reason, lengthDone).error == Some(SendIo(InvalidInput))
  {
    var rest := [Payload(Eof), Header((next, Empty))];
    SendAllStep(s, rest, reason, lengthDone);
    if !lengthDone(done.length) {
      assert Encode(s, rest[0], reason, lengthDone) == Sent(s, Ok([]));
      assert rest[1..] == [Header((next, Empty))];
      SendAllStep(s, rest[1..], reason, lengthDone);
    }
  }

  /** One step of `SendAll`: an error stops the run, success goes on from the new state. */
  lemma SendAllStep(s: State, items: seq<Item>, reason: StatusCode -> Option<seq<Byte>>, lengthDone: PayloadEncoder.LengthDone)
    requires items != [] && forall i | 0 <= i < |items| :: Writable(items[i], reason)
    ensures var r := Encode(s, items[0], reason, lengthDone);
            SendAll(s, items, reason, lengthDone).error
              == if r.result.Err? then Some(r.result.error) else SendAll(r.state, items[1..], reason, lengthDone).error
  {
  }

  /**
   * A head in a version other than HTTP/1.1 is refused, but its body
   * encoder was installed first and stays, so the next head is refused as
   * out of order.
   */
  lemma UnsupportedHeadBlocksNext(head: ResponseHead, size: PayloadSize, next: Item, reason: StatusCode -> Option<seq<Byte>>, lengthDone: PayloadEncoder.LengthDone)
    requires Valid(head.headers) && head.version != Requests.Http11
    requires next.Header? && Writable(next, reason)
    ensures var r := Encode(New(), Header((head, size)), reason, lengthDone);
            && r.result == Err(SendIo(Unsupported))
            && Encode(r.state, next, reason, lengthDone).result == Err(SendIo(InvalidInput))
  {
  }
}
