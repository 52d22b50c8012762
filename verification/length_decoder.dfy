/**
 * The body of a message framed by `Content-Length` (section 6.2 of RFC
 * 9112): the decoder hands out whatever is buffered, never more than what
 * is left of the declared length, and reports `Eof` once the length is used
 * up, without touching the bytes after the body.
 */
module LengthDecoder {
  import opened Wrappers
  import opened Bytes
  import opened Messages
  import opened FramedRead

  /** The number of body bytes still to read. */
  datatype Decoder = Decoder(length: nat)

  function New(length: nat): (d: Decoder)
    ensures d.length == length
  {
    Decoder(length)
  }

  function Decode(d: Decoder, src: seq<Byte>): (o: Outcome<Decoder>)
    ensures d.length == 0 ==> o == Outcome(Ok(Some(Eof)), d, src)
    ensures d.length > 0 && src == [] ==> o == Outcome(Ok(None), d, [])
    ensures d.length > 0 && src != [] ==>
              && IsChunk(o)
              && ChunkData(o) + o.rest == src
              && |ChunkData(o)| == (if d.length < |src| then d.length else |src|)
              && o.decoder.length + |ChunkData(o)| == d.length
  {
    if d.length == 0 then Outcome(Ok(Some(Eof)), d, src)
    else if src == [] then Outcome(Ok(None), d, [])
    else
      var n := if d.length < |src| then d.length else |src|;
      assert src[..n] + src[n..] == src;
      Outcome(Ok(Some(Chunk(src[..n]))), Decoder(d.length - n), src[n..])
  }

  lemma DecodeConsumes()
    ensures Consumes(Decode)
  {
    forall d: Decoder, src: seq<Byte> ensures ConsumesAt(Decode, d, src) {
      var o := Decode(d, src);
      if IsChunk(o) {
        assert src[|src| - |o.rest|..] == o.rest;
      }
    }
  }

  /** More buffered than the body needs: the bytes appended after it stay in the rest. */
  lemma AppendPastBody(d: Decoder, a: seq<Byte>, b: seq<Byte>)
    requires 0 < d.length < |a|
    ensures Decode(d, a + b) == Outcome(Decode(d, a).result, Decoder(0), Decode(d, a).rest + b)
  {
    var n := d.length;
    assert (a + b)[..n] == a[..n];
    assert (a + b)[n..] == a[n..] + b;
  }

  /** No more buffered than the body needs: the chunk grows by what the rest of the body takes from `b`. */
  lemma AppendWithinBody(d: Decoder, a: seq<Byte>, b: seq<Byte>)
    requires a != [] && |a| <= d.length
    ensures var o := Decode(d, a);
            var o2 := Decode(o.decoder, b);
            && IsChunk(o) && ChunkData(o) == a && o.rest == []
            && if d.length == |a| || b == [] then Decode(d, a + b) == Outcome(o.result, o.decoder, b)
            else IsChunk(o2) && Decode(d, a + b) == Outcome(Ok(Some(Chunk(a + ChunkData(o2)))), o2.decoder, o2.rest)
  {
    var n := |a|;
    assert (a + b)[..n] == a;
    assert (a + b)[n..] == b;
    if b == [] {
      assert a + b == a;
    } else if d.length > |a| {
      var o2 := Decode(Decoder(d.length - n), b);
      var n2 := if d.length - n < |b| then d.length - n else |b|;
      assert o2 == Outcome(Ok(Some(Chunk(b[..n2]))), Decoder(d.length - n - n2), b[n2..]);
      assert (a + b)[..n + n2] == a + b[..n2];
      assert (a + b)[n + n2..] == b[n2..];
    }
  }

  lemma DecodeAppendLawAt(d: Decoder, a: seq<Byte>, b: seq<Byte>)
    ensures AppendLawAt(Decode, d, a, b)
  {
    if d.length > 0 && a != [] {
      if d.length < |a| {
        AppendPastBody(d, a, b);
      } else {
        AppendWithinBody(d, a, b);
      }
    } else if a == [] {
      assert a + b == b;
    }
  }

  /** The length decoder meets the laws of the framed reader. */
  lemma DecodeIsLawful()
    ensures Lawful(Decode)
  {
    DecodeConsumes();
    forall d: Decoder, a: seq<Byte>, b: seq<Byte> ensures AppendLawAt(Decode, d, a, b) {
      DecodeAppendLawAt(d, a, b);
    }
    forall d: Decoder ensures IdleAt(Decode, d) {
    }
  }

  /**
   * With at least `length` bytes buffered, draining yields exactly the body
   * (as one chunk, or nothing for an empty body) and `Eof`, and leaves the
   * bytes after it untouched.
   */
  lemma DrainBody(body: seq<Byte>, tail: seq<Byte>)
    ensures var r := DecodeAll(Decode, New(|body|), body + tail);
            && r.stop == Finished
            && r.items == (if body == [] then [] else [Chunk(body)]) + [Eof]
            && r.decoder == Decoder(0)
            && r.rest == tail
  {
    DecodeConsumes();
    var src := body + tail;
    if body != [] {
      assert src[..|body|] == body && src[|body|..] == tail;
      assert ConsumesAt(Decode, Decoder(0), tail);
    }
  }

  /** Never reads past the body: what is left after `Eof` is exactly what followed the declared length. */
  lemma {:induction false} NeverPastBody(d: Decoder, src: seq<Byte>)
    requires d.length <= |src|
    ensures var r := DecodeAll(Decode, d, src);
            r.stop == Finished && r.rest == src[d.length..] && Data(r.items) == src[..d.length]
  {
    DecodeConsumes();
    DrainBody(src[..d.length], src[d.length..]);
    assert src[..d.length] + src[d.length..] == src;
    if d.length > 0 {
      DataCons(src[..d.length], [Eof]);
    }
  }
}
