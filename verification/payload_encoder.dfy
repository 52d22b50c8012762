/**
 * The response-body encoder chosen with the response head: `Content-Length`
 * framing, chunked framing, or no body, in which case every item is
 * dropped and the encoder counts as finished from the start.
 */
module PayloadEncoder {
  import opened Bytes
  import opened Messages
  import LengthEncoder
  import ChunkedEncoder

  datatype Encoder =
    | LengthKind(length: LengthEncoder.Encoder)
    | ChunkedKind(chunked: ChunkedEncoder.Encoder)
    | NoBody

  datatype Written = Written(encoder: Encoder, out: seq<Byte>)

  /**
   * The source's `is_finish` of the fixed-length encoder is not part of this
   * model; wherever it is consulted, it is a parameter `lengthDone`, which
   * can only look at the count still owed, the encoder's one field.
   */
  type LengthDone = LengthEncoder.Encoder -> bool

  function Empty(): (e: Encoder)
    ensures IsEmpty(e)
    ensures forall lengthDone: LengthDone :: IsFinish(e, lengthDone)
  {
    NoBody
  }

  function Chunked(): (e: Encoder)
    ensures IsChunked(e)
    ensures forall lengthDone: LengthDone :: !IsFinish(e, lengthDone)
  {
    ChunkedKind(ChunkedEncoder.New())
  }

  function FixLength(size: nat): (e: Encoder)
    ensures IsFixLength(e) && e.length.length == size
    ensures forall lengthDone: LengthDone :: IsFinish(e, lengthDone) == lengthDone(LengthEncoder.New(size))
  {
    LengthKind(LengthEncoder.New(size))
  }

  predicate IsChunked(e: Encoder) { e.ChunkedKind? }
  predicate IsEmpty(e: Encoder) { e.NoBody? }
  predicate IsFixLength(e: Encoder) { e.LengthKind? }

  /** Whether the body is complete on the wire. */
  predicate IsFinish(e: Encoder, lengthDone: LengthDone)
  {
    match e
    case LengthKind(l) => lengthDone(l)
    case ChunkedKind(c) => ChunkedEncoder.IsFinish(c)
    case NoBody => true
  }

  /**
   * Hands the item to the framing's own encoder, as the source writes it;
   * with no body nothing is written.
   */
  function Encode(e: Encoder, item: PayloadItem): (w: Written)
    ensures e.NoBody? ==> w == Written(e, [])
    ensures e.LengthKind? ==>
              var l := LengthEncoder.EncodeAsWritten(e.length, item);
              w == Written(LengthKind(l.encoder), l.out)
    ensures e.ChunkedKind? ==>
              var c := ChunkedEncoder.EncodeAsWritten(e.chunked, item);
              w == Written(ChunkedKind(c.encoder), c.out)
    ensures e.ChunkedKind? == w.encoder.ChunkedKind? && e.LengthKind? == w.encoder.LengthKind?
  {
    match e
    case LengthKind(l) =>
      var r := LengthEncoder.EncodeAsWritten(l, item);
      Written(LengthKind(r.encoder), r.out)
    case ChunkedKind(c) =>
      var r := ChunkedEncoder.EncodeAsWritten(c, item);
      Written(ChunkedKind(r.encoder), r.out)
    case NoBody => Written(e, [])
  }

  /** Feeding items one after another to `Encode`; the output is everything written. */
  function EncodeAll(e: Encoder, items: seq<PayloadItem>): (w: Written)
    decreases |items|
  {
    if items == [] then Written(e, [])
    else
      var first := Encode(e, items[0]);
      var more := EncodeAll(first.encoder, items[1..]);
      Written(more.encoder, first.out + more.out)
  }

  /** Chunked framing, once finished, and an absent body write nothing more. */
  lemma FinishIsFinal(e: Encoder, item: PayloadItem, lengthDone: LengthDone)
    requires IsFinish(e, lengthDone) && !e.LengthKind?
    ensures Encode(e, item) == Written(e, [])
  {
  }

  /** Fixed-length framing writes nothing more once the declared length is written. */
  lemma ExhaustedIsFinal(e: Encoder, item: PayloadItem)
    requires e.LengthKind? && LengthEncoder.Exhausted(e.length)
    ensures Encode(e, item) == Written(e, [])
  {
  }

  /** `Eof` always finishes a chunked body. */
  lemma EofFinishesChunked(e: Encoder, lengthDone: LengthDone)
    requires IsChunked(e)
    ensures IsFinish(Encode(e, Eof).encoder, lengthDone)
  {
  }
}
