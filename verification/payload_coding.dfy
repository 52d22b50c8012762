/**
 * The payload encoder and decoder together, as the source wires them: the
 * body the response side writes for a framing, its chunks and then `Eof`,
 * is read back by the request side's decoder for the same framing.
 */
module PayloadCoding {
  import opened Bytes
  import opened Messages
  import opened FramedRead
  import PayloadEncoder
  import PayloadDecoder
  import LengthEncoder
  import LengthDecoder
  import ChunkedEncoder
  import ChunkedDecoder
  import ChunkedCoding
  import LengthCoding
  import ResponseEncoder

  /** With no body, nothing is written whatever is offered. */
  lemma {:induction false} NoBodyWritesNothing(items: seq<PayloadItem>)
    ensures PayloadEncoder.EncodeAll(PayloadEncoder.NoBody, items) == PayloadEncoder.Written(PayloadEncoder.NoBody, [])
    decreases |items|
  {
    if items != [] {
      NoBodyWritesNothing(items[1..]);
    }
  }

  /**
   * Chunks adding up to the declared length are written unchanged, the
   * count reaches zero, and the `Eof` after them writes nothing.
   */
  lemma {:induction false} LengthBodyWritten(e: LengthEncoder.Encoder, cs: seq<seq<Byte>>)
    requires |Concat(cs)| == e.length <= U64_MAX
    ensures PayloadEncoder.EncodeAll(PayloadEncoder.LengthKind(e), Chunks(cs) + [Eof])
            == PayloadEncoder.Written(PayloadEncoder.LengthKind(LengthEncoder.Encoder(0)), Concat(cs))
    decreases |cs|
  {
    var items := Chunks(cs) + [Eof];
    if cs == [] {
      assert items == [Eof];
      assert items[1..] == [];
    } else {
      assert items[0] == Chunk(cs[0]);
      assert items[1..] == Chunks(cs[1..]) + [Eof];
      assert |Concat(cs)| == |cs[0]| + |Concat(cs[1..])|;
      var first := PayloadEncoder.Encode(PayloadEncoder.LengthKind(e), items[0]);
      assert first == PayloadEncoder.Written(PayloadEncoder.LengthKind(LengthEncoder.Encoder(e.length - |cs[0]|)), cs[0]);
      LengthBodyWritten(first.encoder.length, cs[1..]);
    }
  }

  /**
   * Chunks then `Eof` through an unfinished chunked encoder: every chunk's
   * frame, empty chunks included, then the last chunk.
   */
  lemma {:induction false} ChunkedBodyWritten(e: ChunkedEncoder.Encoder, cs: seq<seq<Byte>>)
    requires !ChunkedEncoder.IsFinish(e)
    ensures PayloadEncoder.EncodeAll(PayloadEncoder.ChunkedKind(e), Chunks(cs) + [Eof])
            == PayloadEncoder.Written(PayloadEncoder.ChunkedKind(ChunkedEncoder.Encoder(true)),
                                      ChunkedCoding.WireAsWritten(cs) + ChunkedEncoder.LAST_CHUNK)
    decreases |cs|
  {
    var items := Chunks(cs) + [Eof];
    if cs == [] {
      assert items == [Eof];
      assert items[1..] == [];
    } else {
      assert items[0] == Chunk(cs[0]);
      assert items[1..] == Chunks(cs[1..]) + [Eof];
      ChunkedBodyWritten(e, cs[1..]);
      var f := ChunkedEncoder.Frame(cs[0]);
      var x := ChunkedCoding.WireAsWritten(cs[1..]);
      assert f + (x + ChunkedEncoder.LAST_CHUNK) == f + x + ChunkedEncoder.LAST_CHUNK;
    }
  }

  /**
   * Round trip through a framing: what the payload encoder for `size`
   * writes for the chunks and `Eof` is read back by the payload decoder for
   * the same `size` as the chunks' bytes, ending the body and leaving what
   * follows unread. A fixed length has to be the body's own; chunked
   * framing has to carry no empty chunk, which the source writes as the end
   * of the body; with no body the chunks are dropped and nothing is read.
   */
  lemma RoundTrip(size: PayloadSize, cs: seq<seq<Byte>>, tail: seq<Byte>)
    requires size.Length? ==> size.n == |Concat(cs)| <= U64_MAX
    requires size.Chunked? ==> ChunkedCoding.FitsU64(cs) && ChunkedCoding.NoEmptyChunk(cs)
    ensures var w := PayloadEncoder.EncodeAll(ResponseEncoder.ForSize(size), Chunks(cs) + [Eof]);
            var r := DecodeAll(PayloadDecoder.Decode, PayloadDecoder.FromSize(size), w.out + tail);
            && r.stop == Finished && r.rest == tail
            && Data(r.items) == (if size.Empty? then [] else Concat(cs))
            && (size.Empty? ==> w.out == [])
  {
    PayloadDecoder.DecodeIsLawful();
    LengthDecoder.DecodeConsumes();
    ChunkedDecoder.DecodeConsumes();
    match size
    case Length(n) =>
      LengthBodyWritten(LengthEncoder.New(n), cs);
      LengthCoding.RoundTrip(cs, tail);
      PayloadDecoder.DrainLength(LengthDecoder.New(n), Concat(cs) + tail);
    case Chunked =>
      ChunkedBodyWritten(ChunkedEncoder.New(), cs);
      ChunkedCoding.RoundTripAsWritten(cs, tail);
      PayloadDecoder.DrainChunked(ChunkedDecoder.New(), ChunkedCoding.WireAsWritten(cs) + ChunkedEncoder.LAST_CHUNK + tail);
    case Empty =>
      NoBodyWritesNothing(Chunks(cs) + [Eof]);
      PayloadDecoder.NoBodyReadsNothing(tail);
      assert [] + tail == tail;
  }
}
