/**
 * The chunked encoder and decoder together: what the encoder writes for a
 * body, the decoder reads back as the same chunks and the end of the body,
 * leaves whatever follows unread, and does so however the bytes are split
 * into reads.
 */
module ChunkedCoding {
  import opened Wrappers
  import opened Bytes
  import opened Messages
  import opened FramedRead
  import ChunkedDecoder
  import opened ChunkedEncoder

  /** The chunks that are not empty, in order. */
  function NonEmpty(cs: seq<seq<Byte>>): seq<seq<Byte>>
  {
    if cs == [] then []
    else if cs[0] == [] then NonEmpty(cs[1..])
    else [cs[0]] + NonEmpty(cs[1..])
  }

  /** The frames of the non-empty chunks, one after another. */
  function Wire(cs: seq<seq<Byte>>): seq<Byte>
  {
    if cs == [] then []
    else if cs[0] == [] then Wire(cs[1..])
    else Frame(cs[0]) + Wire(cs[1..])
  }

  /** The frames of every chunk, empty ones included, as the source's encoder writes them. */
  function WireAsWritten(cs: seq<seq<Byte>>): seq<Byte>
  {
    if cs == [] then [] else Frame(cs[0]) + WireAsWritten(cs[1..])
  }

  predicate NoEmptyChunk(cs: seq<seq<Byte>>)
  {
    forall i | 0 <= i < |cs| :: cs[i] != []
  }

  /**
   * Without empty chunks the source's frames are the corrected encoder's,
   * and no chunk is left out of them.
   */
  lemma {:induction false} WireAgrees(cs: seq<seq<Byte>>)
    requires NoEmptyChunk(cs)
    ensures WireAsWritten(cs) == Wire(cs) && NonEmpty(cs) == cs
  {
    if cs != [] {
      WireAgrees(cs[1..]);
      assert [cs[0]] + cs[1..] == cs;
    }
  }

  predicate FitsU64(cs: seq<seq<Byte>>)
  {
    forall i | 0 <= i < |cs| :: |cs[i]| <= U64_MAX
  }

  /** Encoding the chunks and then `Eof` writes their frames and the last chunk, and finishes the encoder. */
  lemma {:induction false} EncodeBody(e: Encoder, cs: seq<seq<Byte>>)
    requires !IsFinish(e)
    ensures EncodeAll(e, Chunks(cs) + [Eof]) == Written(Encoder(true), Wire(cs) + LAST_CHUNK)
  {
    var items := Chunks(cs) + [Eof];
    if cs == [] {
      assert items == [Eof];
      assert items[1..] == [];
    } else {
      assert items[0] == Chunk(cs[0]);
      assert items[1..] == Chunks(cs[1..]) + [Eof];
      EncodeBody(Encode(e, items[0]).encoder, cs[1..]);
      if cs[0] != [] {
        assert Frame(cs[0]) + (Wire(cs[1..]) + LAST_CHUNK) == Frame(cs[0]) + Wire(cs[1..]) + LAST_CHUNK;
      }
    }
  }

  /** A frame's size line takes the decoder to the start of the chunk data with the chunk's size. */
  lemma SizeLineDecodes(n: nat, body: seq<Byte>)
    requires 0 < n <= U64_MAX
    ensures ChunkedDecoder.Decode(ChunkedDecoder.Decoder(ChunkedDecoder.Size, 0), UpperHex(n) + (CRLF + body))
            == ChunkedDecoder.Decode(ChunkedDecoder.Decoder(ChunkedDecoder.Body, n), body)
  {
    var h := UpperHex(n);
    var src := h + (CRLF + body);
    assert src[..|h|] == h && src[|h|..] == CRLF + body;
    ChunkedDecoder.SizeDigits(0, src, |h|);
    ChunkedDecoder.SizeLineEnds(n, body);
  }

  /** One frame: the decoder reads the size line and returns the whole chunk, stopping before its CRLF. */
  lemma FrameDecodes(c: seq<Byte>, x: seq<Byte>)
    requires 0 < |c| <= U64_MAX
    ensures ChunkedDecoder.Decode(ChunkedDecoder.Decoder(ChunkedDecoder.Size, 0), Frame(c) + x)
            == Outcome(Ok(Some(Chunk(c))), ChunkedDecoder.Decoder(ChunkedDecoder.BodyCr, 0), CRLF + x)
  {
    var body := c + (CRLF + x);
    assert Frame(c) + x == UpperHex(|c|) + (CRLF + body);
    SizeLineDecodes(|c|, body);
    ChunkedDecoder.BodyEmitsBuffered(ChunkedDecoder.Decoder(ChunkedDecoder.Body, |c|), body);
    assert body[..|c|] == c && body[|c|..] == CRLF + x;
  }

  /** The last chunk and the empty line end the body, leaving what follows unread. */
  lemma LastChunkDecodes(tail: seq<Byte>)
    ensures ChunkedDecoder.Decode(ChunkedDecoder.Decoder(ChunkedDecoder.Size, 0), LAST_CHUNK + tail)
            == Outcome(Ok(Some(Eof)), ChunkedDecoder.Decoder(ChunkedDecoder.End, 0), tail)
  {
    assert (LAST_CHUNK + tail)[0] == DIGIT_0 && (LAST_CHUNK + tail)[1..] == CRLF + (CRLF + tail);
    ChunkedDecoder.SizeDigitStep(0, LAST_CHUNK + tail);
    ChunkedDecoder.SizeLineEnds(0, CRLF + tail);
    ChunkedDecoder.FinalCrlfEnds(tail);
  }

  /** After a chunk's data, its CRLF leads to the next size line. */
  lemma DrainAfterData(x: seq<Byte>)
    ensures DecodeAll(ChunkedDecoder.Decode, ChunkedDecoder.Decoder(ChunkedDecoder.BodyCr, 0), CRLF + x)
            == DecodeAll(ChunkedDecoder.Decode, ChunkedDecoder.Decoder(ChunkedDecoder.Size, 0), x)
  {
    ChunkedDecoder.DecodeConsumes();
    ChunkedDecoder.NextChunkAfterCrlf(x);
    var o1 := ChunkedDecoder.Decode(ChunkedDecoder.Decoder(ChunkedDecoder.BodyCr, 0), CRLF + x);
    var o2 := ChunkedDecoder.Decode(ChunkedDecoder.Decoder(ChunkedDecoder.Size, 0), x);
    assert o1 == o2;
    assert ConsumesAt(ChunkedDecoder.Decode, ChunkedDecoder.Decoder(ChunkedDecoder.Size, 0), x);
  }

  lemma NonEmptyCons(cs: seq<seq<Byte>>)
    requires cs != [] && cs[0] != []
    ensures Chunks(NonEmpty(cs)) + [Eof] == [Chunk(cs[0])] + (Chunks(NonEmpty(cs[1..])) + [Eof])
  {
    var l := NonEmpty(cs[1..]);
    assert NonEmpty(cs) == [cs[0]] + l;
    assert ([cs[0]] + l)[1..] == l;
    assert Chunks([cs[0]] + l) == [Chunk(cs[0])] + Chunks(l);
  }

  /** Draining a frame yields its chunk, followed by whatever draining what comes after the frame yields. */
  lemma DrainFrame(c: seq<Byte>, x: seq<Byte>)
    requires 0 < |c| <= U64_MAX
    requires Consumes(ChunkedDecoder.Decode)
    ensures DecodeAll(ChunkedDecoder.Decode, ChunkedDecoder.Decoder(ChunkedDecoder.Size, 0), Frame(c) + x)
            == Prepend(c, DecodeAll(ChunkedDecoder.Decode, ChunkedDecoder.Decoder(ChunkedDecoder.Size, 0), x))
  {
    FrameDecodes(c, x);
    assert ConsumesAt(ChunkedDecoder.Decode, ChunkedDecoder.Decoder(ChunkedDecoder.Size, 0), Frame(c) + x);
    DrainAfterData(x);
  }

  lemma {:induction false} DecodeWire(cs: seq<seq<Byte>>, tail: seq<Byte>)
    requires FitsU64(cs)
    requires Consumes(ChunkedDecoder.Decode)
    ensures DecodeAll(ChunkedDecoder.Decode, ChunkedDecoder.Decoder(ChunkedDecoder.Size, 0), Wire(cs) + LAST_CHUNK + tail)
            == Drained(Chunks(NonEmpty(cs)) + [Eof], Finished, ChunkedDecoder.Decoder(ChunkedDecoder.End, 0), tail)
  {
    if cs == [] {
      LastChunkDecodes(tail);
      assert Wire(cs) + LAST_CHUNK + tail == LAST_CHUNK + tail;
      assert ConsumesAt(ChunkedDecoder.Decode, ChunkedDecoder.Decoder(ChunkedDecoder.Size, 0), LAST_CHUNK + tail);
    } else if cs[0] == [] {
      DecodeWire(cs[1..], tail);
    } else {
      var x := Wire(cs[1..]) + LAST_CHUNK + tail;
      assert Wire(cs) + LAST_CHUNK + tail == Frame(cs[0]) + x;
      DrainFrame(cs[0], x);
      DecodeWire(cs[1..], tail);
      NonEmptyCons(cs);
    }
  }

  lemma {:induction false} DataOfNonEmpty(cs: seq<seq<Byte>>)
    ensures Data(Chunks(NonEmpty(cs)) + [Eof]) == Concat(cs)
  {
    if cs == [] {
      assert Data([Eof][1..]) == [];
    } else {
      DataOfNonEmpty(cs[1..]);
      if cs[0] != [] {
        NonEmptyCons(cs);
        DataCons(cs[0], Chunks(NonEmpty(cs[1..])) + [Eof]);
      }
    }
  }

  /**
   * Round trip: the decoder reads an encoded body back as its non-empty
   * chunks, in order, then `Eof`; it stops in the end state with the bytes
   * after the body left unread; and the body bytes are exactly the chunks'
   * bytes.
   */
  lemma RoundTrip(cs: seq<seq<Byte>>, tail: seq<Byte>)
    requires FitsU64(cs)
    ensures var wire := EncodeAll(ChunkedEncoder.New(), Chunks(cs) + [Eof]).out;
            var r := DecodeAll(ChunkedDecoder.Decode, ChunkedDecoder.New(), wire + tail);
            && r == Drained(Chunks(NonEmpty(cs)) + [Eof], Finished, ChunkedDecoder.Decoder(ChunkedDecoder.End, 0), tail)
            && Data(r.items) == Concat(cs)
  {
    ChunkedDecoder.DecodeConsumes();
    EncodeBody(ChunkedEncoder.New(), cs);
    DecodeWire(cs, tail);
    DataOfNonEmpty(cs);
  }

  /**
   * The frames the source writes for chunks none of which is empty, and the
   * last chunk, read back as those chunks and `Eof`.
   */
  lemma RoundTripAsWritten(cs: seq<seq<Byte>>, tail: seq<Byte>)
    requires FitsU64(cs) && NoEmptyChunk(cs)
    ensures var r := DecodeAll(ChunkedDecoder.Decode, ChunkedDecoder.New(), WireAsWritten(cs) + LAST_CHUNK + tail);
            && r == Drained(Chunks(cs) + [Eof], Finished, ChunkedDecoder.Decoder(ChunkedDecoder.End, 0), tail)
            && Data(r.items) == Concat(cs)
  {
    ChunkedDecoder.DecodeConsumes();
    WireAgrees(cs);
    DecodeWire(cs, tail);
    DataOfNonEmpty(cs);
  }

  /**
   * The same holds whatever pieces the encoded body and what follows it
   * arrive in.
   */
  lemma RoundTripInPieces(cs: seq<seq<Byte>>, tail: seq<Byte>, pieces: seq<seq<Byte>>)
    requires FitsU64(cs)
    requires Concat(pieces) == EncodeAll(ChunkedEncoder.New(), Chunks(cs) + [Eof]).out + tail
    ensures var f := Feed(ChunkedDecoder.Decode, ChunkedDecoder.New(), pieces);
            Data(f.items) == Concat(cs) && f.stop == Finished && f.rest == tail
  {
    ChunkedDecoder.DecodeIsLawful();
    RoundTrip(cs, tail);
    FeedMatchesWhole(ChunkedDecoder.Decode, ChunkedDecoder.New(), pieces);
  }

  /**
   * As written, an empty chunk is framed as `0\r\n\r\n`, which a decoder
   * reads as the end of the body while the encoder still takes chunks: the
   * data after it is read as whatever comes next on the connection.
   */
  lemma EmptyChunkEndsBodyAsWritten(c: seq<Byte>, tail: seq<Byte>)
    requires 0 < |c| <= U64_MAX
    ensures var first := EncodeAsWritten(ChunkedEncoder.New(), Chunk([]));
            var second := EncodeAsWritten(first.encoder, Chunk(c));
            var r := DecodeAll(ChunkedDecoder.Decode, ChunkedDecoder.New(), first.out + second.out + tail);
            && !IsFinish(second.encoder)
            && r == Drained([Eof], Finished, ChunkedDecoder.Decoder(ChunkedDecoder.End, 0), Frame(c) + tail)
  {
    ChunkedDecoder.DecodeConsumes();
    assert Frame([]) == LAST_CHUNK;
    assert LAST_CHUNK + Frame(c) + tail == LAST_CHUNK + (Frame(c) + tail);
    LastChunkDecodes(Frame(c) + tail);
  }
}
