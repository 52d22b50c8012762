/**
 * The items exchanged between the codec and the rest of the server: a
 * message is either a head or one item of the body stream, and the framing
 * of a body is described by a `PayloadSize`.
 */
module Messages {
  import opened Bytes
  import opened Wrappers

  /** One item of a body stream: a run of body bytes, or the end of the body. */
  datatype PayloadItem = Chunk(data: seq<Byte>) | Eof
  {
    function AsBytes(): (r: Option<seq<Byte>>)
      ensures r.Some? <==> Chunk?
      ensures Chunk? ==> r == Some(data)
    {
      match this
      case Chunk(b) => Some(b)
      case Eof => None
    }
  }

  /** How a body is framed on the wire. */
  datatype PayloadSize = Length(n: nat) | Chunked | Empty

  /** A head of type `H`, or one payload item. */
  datatype Message<H> = Header(head: H) | Payload(item: PayloadItem)
  {
    function IntoPayloadItem(): (r: Option<PayloadItem>)
      ensures r.Some? <==> Payload?
      ensures Payload? ==> r.value == item
    {
      match this
      case Header(_) => None
      case Payload(i) => Some(i)
    }
  }

  /** Bytes sent as a message are one chunk of payload. */
  function FromBytes<H>(b: seq<Byte>): (m: Message<H>)
    ensures m.IntoPayloadItem() == Some(Chunk(b))
    ensures m.IntoPayloadItem().value.AsBytes() == Some(b)
  {
    Payload(Chunk(b))
  }

  /** The bytes carried by a sequence of payload items, in order; `Eof` carries none. */
  function Data(items: seq<PayloadItem>): seq<Byte>
  {
    if items == [] then []
    else items[0].AsBytes().UnwrapOr([]) + Data(items[1..])
  }

  lemma {:induction false} DataAppend(xs: seq<PayloadItem>, ys: seq<PayloadItem>)
    ensures Data(xs + ys) == Data(xs) + Data(ys)
  {
    if xs != [] {
      assert (xs + ys)[1..] == xs[1..] + ys;
      DataAppend(xs[1..], ys);
    } else {
      assert xs + ys == ys;
    }
  }

  /** A body's chunks as payload items. */
  function Chunks(cs: seq<seq<Byte>>): (r: seq<PayloadItem>)
    ensures |r| == |cs|
    ensures forall i | 0 <= i < |cs| :: r[i] == Chunk(cs[i])
  {
    if cs == [] then [] else [Chunk(cs[0])] + Chunks(cs[1..])
  }
}
