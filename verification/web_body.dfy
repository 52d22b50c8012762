/**
 * The web crate's bodies: the response body a handler returns (bytes sent
 * once, or a stream of frames), and the request body slot a handler's
 * extractors share, from which the body can be taken once.
 */
module WebBodies {
  import opened Wrappers
  import opened Bytes
  import opened Errors
  import opened Messages
  import opened SizeHints
  import opened Connection

  /**
   * `ResponseBody`: bytes yielded once (`None` once taken, or for the empty
   * body), or a stream, given by its size hint, the frames it will yield and
   * what it reports as `is_end_stream`.
   */
  datatype ResponseBody =
    | Once(bytes: Option<seq<Byte>>)
    | Stream(hint: SizeHint, frames: seq<BodyFrame>, endStream: bool)

  function EmptyBody(): (b: ResponseBody)
    ensures IsEndStream(b) && Exact(Hint(b)) == Some(0)
  {
    Once(None)
  }

  function OnceOf(bytes: seq<Byte>): (b: ResponseBody)
    ensures !IsEndStream(b) && Exact(Hint(b)) == Some(|bytes|)
  {
    Once(Some(bytes))
  }

  /** `From<String>`: the text is sent once, even when it is empty. */
  function FromString(s: seq<Byte>): (b: ResponseBody)
    ensures b == OnceOf(s)
  {
    Once(Some(s))
  }

  /** `From<&'static str>`: the empty text is the empty body. */
  function FromStr(s: seq<Byte>): (b: ResponseBody)
    ensures s == [] ==> b == EmptyBody()
    ensures s != [] ==> b == OnceOf(s)
  {
    if s == [] then EmptyBody() else OnceOf(s)
  }

  /** `From<Option<Bytes>>`. */
  function FromOption(o: Option<seq<Byte>>): (b: ResponseBody)
    ensures o.None? ==> b == EmptyBody()
    ensures o.Some? ==> b == OnceOf(o.value)
  {
    match o
    case Some(bytes) => OnceOf(bytes)
    case None => EmptyBody()
  }

  /** `From<()>`. */
  function FromUnit(): (b: ResponseBody)
    ensures b == EmptyBody()
  {
    EmptyBody()
  }

  predicate IsEndStream(b: ResponseBody)
  {
    match b
    case Once(o) => o.None?
    case Stream(_, _, e) => e
  }

  /** `size_hint`: exact for bytes sent once, the stream's own hint otherwise. */
  function Hint(b: ResponseBody): SizeHint
  {
    match b
    case Once(None) => WithExact(0)
    case Once(Some(bytes)) => WithExact(|bytes|)
    case Stream(h, _, _) => h
  }

  /** `poll_frame`: the next frame, if any, and the body after it. */
  function PollFrame(b: ResponseBody): (r: (Option<BodyFrame>, ResponseBody))
    ensures b.Once? ==> r.1.Once? && IsEndStream(r.1)
    ensures b.Once? ==> (r.0.Some? <==> !IsEndStream(b))
  {
    match b
    case Once(None) => (None, b)
    case Once(Some(bytes)) => (Some(Data(bytes)), Once(None))
    case Stream(h, frames, e) => if frames == [] then (None, b) else (Some(frames[0]), Stream(h, frames[1..], e))
  }

  /** The frames a body yields when polled until it yields nothing. */
  function Frames(b: ResponseBody): seq<BodyFrame>
  {
    match b
    case Once(None) => []
    case Once(Some(bytes)) => [Data(bytes)]
    case Stream(_, frames, _) => frames
  }

  /** What the connection sends: the body's hint and its frames. */
  function AsRespBody(b: ResponseBody): (r: RespBody)
    ensures r.hint == Hint(b) && r.frames == Frames(b)
  {
    RespBody(Hint(b), Frames(b))
  }

  /** Polling a body until it is done yields exactly its frames, in order. */
  function PollAll(b: ResponseBody): seq<BodyFrame>
    decreases if b.Once? then (if b.bytes.Some? then 1 else 0) else |b.frames|
  {
    var (f, next) := PollFrame(b);
    if f.None? then [] else [f.value] + PollAll(next)
  }

  lemma {:induction false} PollAllIsFrames(b: ResponseBody)
    ensures PollAll(b) == Frames(b)
    decreases if b.Once? then (if b.bytes.Some? then 1 else 0) else |b.frames|
  {
    match b
    case Once(None) =>
    case Once(Some(bytes)) =>
      PollAllIsFrames(Once(None));
    case Stream(h, frames, e) =>
      if frames != [] {
        PollAllIsFrames(Stream(h, frames[1..], e));
      }
  }

  /**
   * A body sent once yields its bytes in one frame, then nothing, for ever:
   * it is at its end exactly once its bytes were taken.
   */
  lemma OnceYieldsOnce(bytes: seq<Byte>)
    ensures PollFrame(OnceOf(bytes)) == (Some(Data(bytes)), EmptyBody())
    ensures PollFrame(EmptyBody()) == (None, EmptyBody())
    ensures !IsEndStream(OnceOf(bytes)) && IsEndStream(EmptyBody())
  {
  }

  /**
   * A text response body is framed by its length, and the empty text by an
   * empty body, except for an owned string, which keeps a zero-length frame.
   */
  lemma TextBodyFraming(s: seq<Byte>)
    ensures ToPayloadSize(Hint(FromStr(s))) == if s == [] then Empty else Length(|s|)
    ensures Frames(FromStr(s)) == if s == [] then [] else [Data(s)]
    ensures ToPayloadSize(Hint(FromString(s))) == ToPayloadSize(Hint(FromStr(s)))
    ensures Frames(FromString(s)) == [Data(s)]
  {
  }

  /** `OptionReqBody`: a handle on the request body, empty once the body was taken. */
  datatype BodySlot<B> = BodySlot(body: Option<B>)

  const CONSUMED: string := "body has been consumed"

  predicate CanConsume<B>(slot: BodySlot<B>)
  {
    slot.body.Some?
  }

  /**
   * `OptionReqBody::apply`: the body is taken out and given to `f`; a slot
   * already emptied fails without calling `f`.
   */
  function Apply<B, T>(slot: BodySlot<B>, f: B -> Result<T, ParseError>): (r: (Result<T, ParseError>, BodySlot<B>))
    ensures !CanConsume(r.1)
    ensures CanConsume(slot) ==> r.0 == f(slot.body.value)
    ensures !CanConsume(slot) ==> r.0 == Err(InvalidBody(CONSUMED))
  {
    match slot.body
    case None => (Err(InvalidBody(CONSUMED)), slot)
    case Some(b) => (f(b), BodySlot(None))
  }

  /** Only the first of two `apply` calls gets the body. */
  lemma ApplyOnce<B, T, U>(b: B, f: B -> Result<T, ParseError>, g: B -> Result<U, ParseError>)
    ensures var first := Apply(BodySlot(Some(b)), f);
            && first.0 == f(b)
            && Apply(first.1, g).0 == Err(InvalidBody(CONSUMED))
  {
  }
}
