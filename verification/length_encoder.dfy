/**
 * The body of a response framed by `Content-Length`: chunks are written as
 * they are, and the encoder counts down the bytes still owed. Once the
 * count is zero it writes nothing more.
 */
module LengthEncoder {
  import opened Bytes
  import opened Messages

  /** The number of body bytes still to write. */
  datatype Encoder = Encoder(length: nat)

  /** An encoder after one call, with the bytes that call appended to the output. */
  datatype Written = Written(encoder: Encoder, out: seq<Byte>)

  const U64_MODULUS: nat := U64_MAX + 1

  function New(length: nat): (e: Encoder)
    ensures e.length == length
  {
    Encoder(length)
  }

  /**
   * The declared length has been written in full. (The source's own
   * `is_finish` for this encoder is not part of this model.)
   */
  predicate Exhausted(e: Encoder)
  {
    e.length == 0
  }

  /**
   * `encode` as the source writes it: a non-empty chunk is written whole and
   * its size taken off the count with a `u64` subtraction, which wraps (or,
   * in a debug build, panics) when the chunk is longer than the count. For a
   * chunk that fits in what is still owed it is the corrected `Encode`.
   */
  function EncodeAsWritten(e: Encoder, item: PayloadItem): (w: Written)
    ensures Exhausted(e) || item.Eof? || item.data == [] ==> w == Written(e, [])
    ensures !Exhausted(e) && item.Chunk? && item.data != [] ==>
              && w.out == item.data && w.encoder.length <= U64_MAX
              && (|item.data| <= e.length <= U64_MAX ==> w.encoder.length == e.length - |item.data|)
              && (e.length < |item.data| <= e.length + U64_MODULUS ==> w.encoder.length == e.length + U64_MODULUS - |item.data|)
    ensures item.Chunk? && |item.data| <= e.length <= U64_MAX ==> w == Encode(e, item)
  {
    if e.length == 0 then Written(e, [])
    else match item
      case Chunk(data) =>
        if data == [] then Written(e, [])
        else Written(Encoder((e.length - |data|) % U64_MODULUS), data)
      case Eof => Written(e, [])
  }

  /**
   * `encode` that never writes past the declared length: a chunk longer than
   * what is still owed is cut to it, as bytes offered after the count reached
   * zero are already dropped.
   */
  function Encode(e: Encoder, item: PayloadItem): (w: Written)
    ensures |w.out| + w.encoder.length == e.length
    ensures item.Chunk? ==> |w.out| <= |item.data| && w.out == item.data[..|w.out|]
    ensures item.Chunk? && |item.data| <= e.length ==> w.out == item.data
    ensures item.Eof? ==> w == Written(e, [])
  {
    if e.length == 0 then Written(e, [])
    else match item
      case Chunk(data) =>
        if data == [] then Written(e, [])
        else
          var n := if |data| <= e.length then |data| else e.length;
          Written(Encoder(e.length - n), data[..n])
      case Eof => Written(e, [])
  }

  /** Feeding items one after another to `Encode`; the output is everything written. */
  function EncodeAll(e: Encoder, items: seq<PayloadItem>): (w: Written)
    decreases |items|
  {
    if items == [] then Written(e, [])
    else
      var first := Encode(e, items[0]);
      var more := EncodeAll(first.encoder, items[1..]);
      Written(more.encoder, first.out + more.out)
  }

  /** Whatever is offered, the encoder writes at most the declared length, and what it writes is owed no more. */
  lemma {:induction false} NeverBeyondLength(e: Encoder, items: seq<PayloadItem>)
    ensures |EncodeAll(e, items).out| + EncodeAll(e, items).encoder.length == e.length
    decreases |items|
  {
    if items != [] {
      NeverBeyondLength(Encode(e, items[0]).encoder, items[1..]);
    }
  }
}
