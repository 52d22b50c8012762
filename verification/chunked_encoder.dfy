/**
 * The chunked transfer coding on the sending side (section 7.1 of RFC 9112):
 * each chunk is written as its size in upper-case hex, CRLF, the data and
 * CRLF; `Eof` writes the last chunk `0` CRLF and the empty line, after
 * which the encoder writes nothing more.
 */
module ChunkedEncoder {
  import opened Bytes
  import opened Messages

  /**
   * The encoder remembers only whether the last chunk went out. (The
   * source's `send_size` field is never read.)
   */
  datatype Encoder = Encoder(eof: bool)

  /** An encoder after one call, with the bytes that call appended to the output. */
  datatype Written = Written(encoder: Encoder, out: seq<Byte>)

  function New(): (e: Encoder)
    ensures !IsFinish(e)
  {
    Encoder(false)
  }

  predicate IsFinish(e: Encoder)
  {
    e.eof
  }

  /** The last chunk and the empty line that end a chunked body: `0\r\n\r\n`. */
  const LAST_CHUNK: seq<Byte> := [DIGIT_0, CR, LF, CR, LF]

  /** One chunk on the wire. */
  function Frame(c: seq<Byte>): seq<Byte>
  {
    UpperHex(|c|) + CRLF + c + CRLF
  }

  /**
   * `encode` as the source writes it: a chunk is framed whatever its size,
   * so an empty chunk goes out as `0\r\n\r\n`, the same bytes as the end of
   * the body while the encoder goes on taking chunks. On every other item
   * it is the corrected `Encode`.
   */
  function EncodeAsWritten(e: Encoder, item: PayloadItem): (w: Written)
    ensures IsFinish(e) ==> w == Written(e, [])
    ensures !IsFinish(e) && item.Eof? ==> IsFinish(w.encoder) && w.out == LAST_CHUNK
    ensures !IsFinish(e) && item.Chunk? ==> !IsFinish(w.encoder) && w.out == Frame(item.data)
    ensures !IsFinish(e) && item == Chunk([]) ==> !IsFinish(w.encoder) && w.out == LAST_CHUNK
    ensures item != Chunk([]) ==> w == Encode(e, item)
  {
    if e.eof then Written(e, [])
    else match item
      case Chunk(data) => Written(e, Frame(data))
      case Eof => Written(Encoder(true), LAST_CHUNK)
  }

  /**
   * `encode` with empty chunks skipped, as the fixed-length encoder already
   * does: only `Eof` can end the body on the wire.
   */
  function Encode(e: Encoder, item: PayloadItem): (w: Written)
    ensures IsFinish(e) ==> w == Written(e, [])
    ensures !IsFinish(e) && item.Eof? ==> IsFinish(w.encoder) && w.out == LAST_CHUNK
    ensures !IsFinish(e) && item.Chunk? ==> !IsFinish(w.encoder) && w.out == (if item.data == [] then [] else Frame(item.data))
  {
    if e.eof then Written(e, [])
    else match item
      case Chunk(data) => Written(e, if data == [] then [] else Frame(data))
      case Eof => Written(Encoder(true), LAST_CHUNK)
  }

  /** Feeding items one after another to `Encode`; the output is everything written. */
  function EncodeAll(e: Encoder, items: seq<PayloadItem>): (w: Written)
    decreases |items|
  {
    if items == [] then Written(e, [])
    else
      var first := Encode(e, items[0]);
      var more := EncodeAll(first.encoder, items[1..]);
      Written(more.encoder, first.out + more.out)
  }

  /** Once the last chunk is out, nothing else is written. */
  lemma {:induction false} NothingAfterFinish(e: Encoder, items: seq<PayloadItem>)
    requires IsFinish(e)
    ensures EncodeAll(e, items) == Written(e, [])
    decreases |items|
  {
    if items != [] {
      NothingAfterFinish(e, items[1..]);
    }
  }
}
