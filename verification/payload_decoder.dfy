/**
 * The request-body decoder chosen after the head: `Content-Length`
 * framing, chunked framing, or no body at all, in which case the body ends
 * at once without reading a byte.
 */
module PayloadDecoder {
  import opened Wrappers
  import opened Bytes
  import opened Messages
  import opened FramedRead
  import LengthDecoder
  import ChunkedDecoder

  datatype Decoder =
    | LengthKind(length: LengthDecoder.Decoder)
    | ChunkedKind(chunked: ChunkedDecoder.Decoder)
    | NoBody

  function Empty(): (d: Decoder)
    ensures IsEmpty(d) && !IsChunked(d) && !IsFixLength(d)
  {
    NoBody
  }

  function Chunked(): (d: Decoder)
    ensures IsChunked(d) && !IsEmpty(d) && !IsFixLength(d)
  {
    ChunkedKind(ChunkedDecoder.New())
  }

  function FixLength(size: nat): (d: Decoder)
    ensures IsFixLength(d) && !IsEmpty(d) && !IsChunked(d)
  {
    LengthKind(LengthDecoder.New(size))
  }

  predicate IsChunked(d: Decoder) { d.ChunkedKind? }
  predicate IsEmpty(d: Decoder) { d.NoBody? }
  predicate IsFixLength(d: Decoder) { d.LengthKind? }

  /**
   * The decoder a head's framing calls for (`PayloadSize` into
   * `PayloadDecoder`; the conversion itself is not part of this model and is
   * taken to pick the decoder of the same name).
   */
  function FromSize(size: PayloadSize): (d: Decoder)
    ensures size.Length? <==> IsFixLength(d)
    ensures size.Chunked? <==> IsChunked(d)
    ensures size.Empty? <==> IsEmpty(d)
    ensures size.Length? ==> d.length.length == size.n
    ensures size.Chunked? ==> d.chunked == ChunkedDecoder.New()
  {
    match size
    case Length(n) => FixLength(n)
    case Chunked => Chunked()
    case Empty => Empty()
  }

  function LiftLength(o: Outcome<LengthDecoder.Decoder>): Outcome<Decoder>
  {
    Outcome(o.result, LengthKind(o.decoder), o.rest)
  }

  function LiftChunked(o: Outcome<ChunkedDecoder.Decoder>): Outcome<Decoder>
  {
    Outcome(o.result, ChunkedKind(o.decoder), o.rest)
  }

  /** Hands the buffer to the framing's own decoder; with no body, `Eof` at once and nothing read. */
  function Decode(d: Decoder, src: seq<Byte>): (o: Outcome<Decoder>)
    ensures d.NoBody? ==> o == Outcome(Ok(Some(Eof)), d, src)
    ensures d.LengthKind? ==> o.decoder.LengthKind? && o == LiftLength(LengthDecoder.Decode(d.length, src))
    ensures d.ChunkedKind? ==> o.decoder.ChunkedKind? && o == LiftChunked(ChunkedDecoder.Decode(d.chunked, src))
  {
    match d
    case LengthKind(l) => LiftLength(LengthDecoder.Decode(l, src))
    case ChunkedKind(c) => LiftChunked(ChunkedDecoder.Decode(c, src))
    case NoBody => Outcome(Ok(Some(Eof)), d, src)
  }

  lemma LengthAppendLaw(l: LengthDecoder.Decoder, a: seq<Byte>, b: seq<Byte>)
    ensures AppendLawAt(Decode, LengthKind(l), a, b)
  {
    LengthDecoder.DecodeAppendLawAt(l, a, b);
    var o := LengthDecoder.Decode(l, a);
    assert Decode(LengthKind(o.decoder), b) == LiftLength(LengthDecoder.Decode(o.decoder, b));
  }

  lemma ChunkedAppendLaw(c: ChunkedDecoder.Decoder, a: seq<Byte>, b: seq<Byte>)
    ensures AppendLawAt(Decode, ChunkedKind(c), a, b)
  {
    ChunkedDecoder.DecodeAppendLawAt(c, a, b);
    var o := ChunkedDecoder.Decode(c, a);
    assert Decode(ChunkedKind(o.decoder), b) == LiftChunked(ChunkedDecoder.Decode(o.decoder, b));
  }

  /** The payload decoder meets the laws of the framed reader, whichever framing it was built for. */
  lemma DecodeIsLawful()
    ensures Lawful(Decode)
  {
    LengthDecoder.DecodeConsumes();
    ChunkedDecoder.DecodeConsumes();
    forall d: Decoder, src: seq<Byte> ensures ConsumesAt(Decode, d, src) {
      match d
      case LengthKind(l) => assert ConsumesAt(LengthDecoder.Decode, l, src);
      case ChunkedKind(c) => assert ConsumesAt(ChunkedDecoder.Decode, c, src);
      case NoBody =>
    }
    forall d: Decoder, a: seq<Byte>, b: seq<Byte> ensures AppendLawAt(Decode, d, a, b) {
      match d
      case LengthKind(l) => LengthAppendLaw(l, a, b);
      case ChunkedKind(c) => ChunkedAppendLaw(c, a, b);
      case NoBody =>
    }
    forall d: Decoder ensures IdleAt(Decode, d) {
    }
  }

  /** Draining a fixed-length payload decoder is draining the decoder it wraps. */
  lemma {:induction false} DrainLength(l: LengthDecoder.Decoder, src: seq<Byte>)
    requires Consumes(LengthDecoder.Decode) && Consumes(Decode)
    ensures var r := DecodeAll(LengthDecoder.Decode, l, src);
            DecodeAll(Decode, LengthKind(l), src) == Drained(r.items, r.stop, LengthKind(r.decoder), r.rest)
    decreases |src|
  {
    var o := LengthDecoder.Decode(l, src);
    assert ConsumesAt(LengthDecoder.Decode, l, src);
    if o.result.Ok? && o.result.value.Some? && o.result.value.value.Chunk? {
      DrainLength(o.decoder, o.rest);
    }
  }

  /** Draining a chunked payload decoder is draining the decoder it wraps. */
  lemma {:induction false} DrainChunked(c: ChunkedDecoder.Decoder, src: seq<Byte>)
    requires Consumes(ChunkedDecoder.Decode) && Consumes(Decode)
    ensures var r := DecodeAll(ChunkedDecoder.Decode, c, src);
            DecodeAll(Decode, ChunkedKind(c), src) == Drained(r.items, r.stop, ChunkedKind(r.decoder), r.rest)
    decreases |src|
  {
    var o := ChunkedDecoder.Decode(c, src);
    assert ConsumesAt(ChunkedDecoder.Decode, c, src);
    if o.result.Ok? && o.result.value.Some? && o.result.value.value.Chunk? {
      DrainChunked(o.decoder, o.rest);
    }
  }

  /** A request without a body yields `Eof` at once and leaves the whole buffer for the next request. */
  lemma NoBodyReadsNothing(src: seq<Byte>)
    ensures var r := DecodeAll(Decode, Empty(), src);
            r == Drained([Eof], Finished, Empty(), src)
  {
    DecodeIsLawful();
  }
}
