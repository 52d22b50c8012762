/**
 * The `Content-Length` encoder and decoder together: a body written for a
 * declared length is read back whole, the reader stops exactly at its end,
 * and the split of the bytes into reads makes no difference.
 */
module LengthCoding {
  import opened Bytes
  import opened Messages
  import opened FramedRead
  import LengthDecoder
  import opened LengthEncoder

  /** Chunks that add up to the declared length are written unchanged and finish the encoder. */
  lemma {:induction false} EncodeExact(e: Encoder, cs: seq<seq<Byte>>)
    requires |Concat(cs)| == e.length
    ensures EncodeAll(e, Chunks(cs)) == Written(Encoder(0), Concat(cs))
    decreases |cs|
  {
    var items := Chunks(cs);
    if cs != [] {
      assert items[1..] == Chunks(cs[1..]);
      assert |Concat(cs)| == |cs[0]| + |Concat(cs[1..])|;
      var first := Encode(e, items[0]);
      assert first == Written(Encoder(e.length - |cs[0]|), cs[0]);
      EncodeExact(first.encoder, cs[1..]);
    }
  }

  /**
   * Round trip: the body written for `|Concat(cs)|` declared bytes is the
   * chunks' bytes; reading it back yields those bytes and `Eof`, and leaves
   * what follows the body unread.
   */
  lemma RoundTrip(cs: seq<seq<Byte>>, tail: seq<Byte>)
    ensures var w := EncodeAll(New(|Concat(cs)|), Chunks(cs));
            var r := DecodeAll(LengthDecoder.Decode, LengthDecoder.New(|Concat(cs)|), w.out + tail);
            && w.out == Concat(cs) && Exhausted(w.encoder)
            && r.stop == Finished && Data(r.items) == Concat(cs) && r.rest == tail
  {
    LengthDecoder.DecodeConsumes();
    EncodeExact(New(|Concat(cs)|), cs);
    var body := Concat(cs);
    LengthDecoder.NeverPastBody(LengthDecoder.New(|body|), body + tail);
    assert (body + tail)[..|body|] == body && (body + tail)[|body|..] == tail;
  }

  /** The same holds whatever pieces the body and what follows it arrive in. */
  lemma RoundTripInPieces(cs: seq<seq<Byte>>, tail: seq<Byte>, pieces: seq<seq<Byte>>)
    requires |Concat(cs)| > 0
    requires Concat(pieces) == EncodeAll(New(|Concat(cs)|), Chunks(cs)).out + tail
    ensures var f := Feed(LengthDecoder.Decode, LengthDecoder.New(|Concat(cs)|), pieces);
            Data(f.items) == Concat(cs) && f.stop == Finished && f.rest == tail
  {
    LengthDecoder.DecodeIsLawful();
    RoundTrip(cs, tail);
    FeedMatchesWhole(LengthDecoder.Decode, LengthDecoder.New(|Concat(cs)|), pieces);
  }

  /**
   * As written, a chunk longer than what is still owed goes out whole and the
   * count wraps round: with one byte declared and two offered, both are
   * written, the encoder then owes `u64::MAX` bytes, and a reader of the
   * declared length takes the second byte as the start of the next message.
   */
  lemma OverrunAsWritten(x: Byte, y: Byte, tail: seq<Byte>)
    ensures var w := EncodeAsWritten(New(1), Chunk([x, y]));
            var r := DecodeAll(LengthDecoder.Decode, LengthDecoder.New(1), w.out + tail);
            && w.out == [x, y]
            && w.encoder.length == U64_MAX && !Exhausted(w.encoder)
            && r.stop == Finished && Data(r.items) == [x] && r.rest == [y] + tail
  {
    var w := EncodeAsWritten(New(1), Chunk([x, y]));
    assert (1 - 2) % U64_MODULUS == U64_MAX;
    assert w == Written(Encoder(U64_MAX), [x, y]);
    ReadOneOfTwo(x, y, tail);
  }

  lemma ReadOneOfTwo(x: Byte, y: Byte, tail: seq<Byte>)
    ensures var r := DecodeAll(LengthDecoder.Decode, LengthDecoder.New(1), [x, y] + tail);
            r.stop == Finished && Data(r.items) == [x] && r.rest == [y] + tail
  {
    LengthDecoder.DecodeConsumes();
    LengthDecoder.NeverPastBody(LengthDecoder.New(1), [x, y] + tail);
    assert ([x, y] + tail)[..1] == [x];
    assert ([x, y] + tail)[1..] == [y] + tail;
  }
}
