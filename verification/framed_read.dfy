/**
 * The driver that feeds a body decoder from the connection's read buffer:
 * it calls `decode` while the decoder produces items and reads more bytes
 * from the socket when the decoder asks for them. It is generic in the
 * decoder's state, as the codec's decoders all share one interface; the
 * laws below are what a decoder must satisfy for its output not to depend
 * on how the bytes were split into reads.
 */
module FramedRead {
  import opened Bytes
  import opened Wrappers
  import opened Errors
  import opened Messages

  /** What one call of `decode` returns, with the decoder's next state and the unread bytes. */
  datatype Outcome<S> = Outcome(result: Result<Option<PayloadItem>, ParseError>, decoder: S, rest: seq<Byte>)

  predicate IsChunk<S>(o: Outcome<S>)
  {
    o.result.Ok? && o.result.value.Some? && o.result.value.value.Chunk?
  }

  predicate IsEof<S>(o: Outcome<S>)
  {
    o.result.Ok? && o.result.value == Some(Eof)
  }

  predicate NeedsMore<S>(o: Outcome<S>)
  {
    o.result.Ok? && o.result.value.None?
  }

  function ChunkData<S>(o: Outcome<S>): seq<Byte>
    requires IsChunk(o)
  {
    o.result.value.value.data
  }

  predicate IsSuffix(rest: seq<Byte>, src: seq<Byte>)
  {
    |rest| <= |src| && rest == src[|src| - |rest|..]
  }

  /**
   * A decoder only takes bytes from the front of the buffer, takes all of
   * them before asking for more, and never emits an empty chunk.
   */
  ghost predicate ConsumesAt<S>(dec: (S, seq<Byte>) -> Outcome<S>, s: S, src: seq<Byte>)
  {
    var o := dec(s, src);
    && IsSuffix(o.rest, src)
    && (NeedsMore(o) ==> o.rest == [])
    && (IsChunk(o) ==> ChunkData(o) != [] && |o.rest| < |src|)
  }

  ghost predicate Consumes<S(!new)>(dec: (S, seq<Byte>) -> Outcome<S>)
  {
    forall s: S, src: seq<Byte> {:trigger ConsumesAt(dec, s, src)} :: ConsumesAt(dec, s, src)
  }

  /**
   * A decoder that is given `a + b` ends where it would have ended on `a`,
   * with `b` left over; or, when it asked for more, where it goes on `b`
   * from there; or, when a chunk used up all of `a`, that chunk is extended
   * by what the decoder then takes from `b`. And with no bytes at all, a
   * decoder that asks for more has not moved.
   */
  ghost predicate AppendLawAt<S>(dec: (S, seq<Byte>) -> Outcome<S>, s: S, a: seq<Byte>, b: seq<Byte>)
  {
    var o := dec(s, a);
    && (NeedsMore(o) ==> dec(s, a + b) == dec(o.decoder, b))
    && (!NeedsMore(o) && !(IsChunk(o) && o.rest == []) ==> dec(s, a + b) == Outcome(o.result, o.decoder, o.rest + b))
    && (IsChunk(o) && o.rest == [] ==>
          || dec(s, a + b) == Outcome(o.result, o.decoder, b)
          || (b != [] && IsChunk(dec(o.decoder, b))
              && dec(s, a + b) == Outcome(Ok(Some(Chunk(ChunkData(o) + ChunkData(dec(o.decoder, b))))), dec(o.decoder, b).decoder, dec(o.decoder, b).rest)))
  }

  ghost predicate IdleAt<S>(dec: (S, seq<Byte>) -> Outcome<S>, s: S)
  {
    NeedsMore(dec(s, [])) ==> dec(s, []).decoder == s
  }

  ghost predicate Lawful<S(!new)>(dec: (S, seq<Byte>) -> Outcome<S>)
  {
    && Consumes(dec)
    && (forall s: S, a: seq<Byte>, b: seq<Byte> {:trigger AppendLawAt(dec, s, a, b)} :: AppendLawAt(dec, s, a, b))
    && (forall s: S {:trigger IdleAt(dec, s)} :: IdleAt(dec, s))
  }

  /** Why draining a buffer stopped. */
  datatype Stop = NeedMore | Finished | Broken(error: ParseError)

  /** Everything one buffer yields, with where the decoder ended and the bytes it left. */
  datatype Drained<S> = Drained(items: seq<PayloadItem>, stop: Stop, decoder: S, rest: seq<Byte>)

  /** The run that starts with chunk `c` and continues as `r`. */
  function Prepend<S>(c: seq<Byte>, r: Drained<S>): Drained<S>
  {
    Drained([Chunk(c)] + r.items, r.stop, r.decoder, r.rest)
  }

  /**
   * Calls `decode` on the buffer as long as it yields chunks: `Eof` is the
   * last item, and an error or a request for more data ends the run.
   */
  function DecodeAll<S(!new)>(dec: (S, seq<Byte>) -> Outcome<S>, s: S, src: seq<Byte>): (r: Drained<S>)
    requires Consumes(dec)
    decreases |src|
    ensures IsSuffix(r.rest, src)
    ensures r.stop == NeedMore ==> r.rest == []
    ensures r.stop == Finished ==> r.items != [] && r.items[|r.items| - 1] == Eof
  {
    var o := dec(s, src);
    assert ConsumesAt(dec, s, src);
    match o.result
    case Err(e) => Drained([], Broken(e), o.decoder, o.rest)
    case Ok(None) => Drained([], NeedMore, o.decoder, o.rest)
    case Ok(Some(Eof)) => Drained([Eof], Finished, o.decoder, o.rest)
    case Ok(Some(Chunk(c))) =>
      var r := DecodeAll(dec, o.decoder, o.rest);
      assert ConsumesAt(dec, o.decoder, o.rest);
      Prepend(c, r)
  }

  lemma DataCons(c: seq<Byte>, items: seq<PayloadItem>)
    ensures Data([Chunk(c)] + items) == c + Data(items)
  {
    assert ([Chunk(c)] + items)[1..] == items;
  }

  /** Data of a run that starts with a chunk. */
  lemma DataPrepend<S>(c: seq<Byte>, r: Drained<S>, x: seq<Byte>, y: seq<Byte>)
    requires Data(r.items) == x + y
    ensures Data(Prepend(c, r).items) == (c + x) + y
  {
    DataCons(c, r.items);
  }

  /**
   * Split independence: draining `a` and then, once the decoder asks for
   * more, draining `b` yields the same body bytes, the same stop, state and
   * leftover as draining `a + b` at once.
   */
  lemma {:induction false} DecodeAllAppend<S(!new)>(dec: (S, seq<Byte>) -> Outcome<S>, s: S, a: seq<Byte>, b: seq<Byte>)
    requires Lawful(dec)
    requires DecodeAll(dec, s, a).stop == NeedMore
    ensures var ra := DecodeAll(dec, s, a);
            var rb := DecodeAll(dec, ra.decoder, b);
            var r := DecodeAll(dec, s, a + b);
            Data(r.items) == Data(ra.items) + Data(rb.items)
            && r.stop == rb.stop && r.decoder == rb.decoder && r.rest == rb.rest
    decreases |a|
  {
    var o := dec(s, a);
    assert AppendLawAt(dec, s, a, b);
    assert ConsumesAt(dec, s, a);
    if IsChunk(o) {
      var c := ChunkData(o);
      var tail := DecodeAll(dec, o.decoder, o.rest);
      if o.rest == [] {
        assert IdleAt(dec, o.decoder);
        assert ConsumesAt(dec, o.decoder, []);
        assert tail == Drained([], NeedMore, o.decoder, []);
        DataCons(c, []);
        if dec(s, a + b) == Outcome(o.result, o.decoder, b) {
          DataPrepend(c, DecodeAll(dec, o.decoder, b), [], Data(DecodeAll(dec, o.decoder, b).items));
        } else {
          var o2 := dec(o.decoder, b);
          var after := DecodeAll(dec, o2.decoder, o2.rest);
          DataCons(ChunkData(o2), after.items);
          DataCons(c + ChunkData(o2), after.items);
        }
      } else {
        DecodeAllAppend(dec, o.decoder, o.rest, b);
        var rb := DecodeAll(dec, tail.decoder, b);
        DataCons(c, tail.items);
        DataPrepend(c, DecodeAll(dec, o.decoder, o.rest + b), Data(tail.items), Data(rb.items));
      }
    }
  }

  /** Draining a buffer that starts with a chunk: that chunk, then the drain of what it left. */
  lemma DecodeAllChunk<S(!new)>(dec: (S, seq<Byte>) -> Outcome<S>, s: S, src: seq<Byte>)
    requires Consumes(dec) && IsChunk(dec(s, src))
    ensures DecodeAll(dec, s, src) == Prepend(ChunkData(dec(s, src)), DecodeAll(dec, dec(s, src).decoder, dec(s, src).rest))
  {
  }

  /** Draining a buffer whose first call yields no chunk: that call's item, if any, and its stop. */
  lemma DecodeAllItem<S(!new)>(dec: (S, seq<Byte>) -> Outcome<S>, s: S, src: seq<Byte>)
    requires Consumes(dec) && !IsChunk(dec(s, src)) && !NeedsMore(dec(s, src))
    ensures var o := dec(s, src);
            DecodeAll(dec, s, src)
            == Drained(if IsEof(o) then [Eof] else [], if IsEof(o) then Finished else Broken(o.result.error), o.decoder, o.rest)
  {
  }

  /** A decoder that stops for good on an empty buffer does not start a chunk on later bytes. */
  lemma StoppedOnEmpty<S(!new)>(dec: (S, seq<Byte>) -> Outcome<S>, s: S, b: seq<Byte>)
    requires Lawful(dec)
    requires DecodeAll(dec, s, []).stop != NeedMore
    ensures !IsChunk(dec(s, b))
  {
    assert ConsumesAt(dec, s, []);
    assert AppendLawAt(dec, s, [], b);
    assert [] + b == b;
  }

  /** A run that stopped for good is not affected by later bytes, except that they are left over. */
  lemma {:induction false} DecodeAllAppendStopped<S(!new)>(dec: (S, seq<Byte>) -> Outcome<S>, s: S, a: seq<Byte>, b: seq<Byte>)
    requires Lawful(dec)
    requires DecodeAll(dec, s, a).stop != NeedMore
    ensures var ra := DecodeAll(dec, s, a);
            DecodeAll(dec, s, a + b) == Drained(ra.items, ra.stop, ra.decoder, ra.rest + b)
    decreases |a|
  {
    var o := dec(s, a);
    assert AppendLawAt(dec, s, a, b);
    assert ConsumesAt(dec, s, a);
    if IsChunk(o) {
      DecodeAllChunk(dec, s, a);
      var tail := DecodeAll(dec, o.decoder, o.rest);
      DecodeAllAppendStopped(dec, o.decoder, o.rest, b);
      if o.rest == [] {
        StoppedOnEmpty(dec, o.decoder, b);
        assert [] + b == b;
      }
      assert dec(s, a + b) == Outcome(o.result, o.decoder, o.rest + b);
      DecodeAllChunk(dec, s, a + b);
    } else {
      assert !NeedsMore(o);
      DecodeAllItem(dec, s, a);
      DecodeAllItem(dec, s, a + b);
    }
  }

  function Concat(pieces: seq<seq<Byte>>): seq<Byte>
  {
    if pieces == [] then [] else pieces[0] + Concat(pieces[1..])
  }

  /**
   * Feeds the decoder the pieces as they arrive from the socket: each piece
   * is drained before the next is read, and pieces after a final stop stay
   * in the buffer unread.
   */
  function Feed<S(!new)>(dec: (S, seq<Byte>) -> Outcome<S>, s: S, pieces: seq<seq<Byte>>): Drained<S>
    requires Consumes(dec)
    decreases |pieces|
  {
    if pieces == [] then Drained([], NeedMore, s, [])
    else
      var r := DecodeAll(dec, s, pieces[0]);
      if r.stop != NeedMore then Drained(r.items, r.stop, r.decoder, r.rest + Concat(pieces[1..]))
      else
        var r2 := Feed(dec, r.decoder, pieces[1..]);
        Drained(r.items + r2.items, r2.stop, r2.decoder, r2.rest)
  }

  /**
   * However the bytes are split into reads, the body bytes, the stop and the
   * leftover are those of decoding all of them at once, provided a decoder
   * given nothing asks for more (true of every decoder before its end).
   */
  lemma {:induction false} FeedMatchesWhole<S(!new)>(dec: (S, seq<Byte>) -> Outcome<S>, s: S, pieces: seq<seq<Byte>>)
    requires Lawful(dec)
    requires NeedsMore(dec(s, []))
    ensures var f := Feed(dec, s, pieces);
            var w := DecodeAll(dec, s, Concat(pieces));
            Data(f.items) == Data(w.items) && f.stop == w.stop && f.decoder == w.decoder && f.rest == w.rest
    decreases |pieces|
  {
    if pieces == [] {
      FeedNothing(dec, s);
    } else if DecodeAll(dec, s, pieces[0]).stop != NeedMore {
      FeedStopped(dec, s, pieces);
    } else {
      var r := DecodeAll(dec, s, pieces[0]);
      NeedMoreAgain(dec, s, pieces[0]);
      FeedMatchesWhole(dec, r.decoder, pieces[1..]);
      FeedStep(dec, s, pieces);
    }
  }

  lemma FeedNothing<S(!new)>(dec: (S, seq<Byte>) -> Outcome<S>, s: S)
    requires Lawful(dec)
    requires NeedsMore(dec(s, []))
    ensures DecodeAll(dec, s, Concat([])) == Feed(dec, s, [])
  {
    assert IdleAt(dec, s);
    assert ConsumesAt(dec, s, []);
  }

  lemma FeedStopped<S(!new)>(dec: (S, seq<Byte>) -> Outcome<S>, s: S, pieces: seq<seq<Byte>>)
    requires Lawful(dec)
    requires pieces != [] && DecodeAll(dec, s, pieces[0]).stop != NeedMore
    ensures DecodeAll(dec, s, Concat(pieces)) == Feed(dec, s, pieces)
  {
    DecodeAllAppendStopped(dec, s, pieces[0], Concat(pieces[1..]));
  }

  /** The inductive step of `FeedMatchesWhole`, when the first piece leaves the decoder wanting more. */
  lemma FeedStep<S(!new)>(dec: (S, seq<Byte>) -> Outcome<S>, s: S, pieces: seq<seq<Byte>>)
    requires Lawful(dec)
    requires pieces != [] && DecodeAll(dec, s, pieces[0]).stop == NeedMore
    requires var r := DecodeAll(dec, s, pieces[0]);
             var f := Feed(dec, r.decoder, pieces[1..]);
             var w := DecodeAll(dec, r.decoder, Concat(pieces[1..]));
             Data(f.items) == Data(w.items) && f.stop == w.stop && f.decoder == w.decoder && f.rest == w.rest
    ensures var f := Feed(dec, s, pieces);
            var w := DecodeAll(dec, s, Concat(pieces));
            Data(f.items) == Data(w.items) && f.stop == w.stop && f.decoder == w.decoder && f.rest == w.rest
  {
    var r := DecodeAll(dec, s, pieces[0]);
    var f2 := Feed(dec, r.decoder, pieces[1..]);
    assert Feed(dec, s, pieces) == Drained(r.items + f2.items, f2.stop, f2.decoder, f2.rest);
    assert Concat(pieces) == pieces[0] + Concat(pieces[1..]);
    DecodeAllAppend(dec, s, pieces[0], Concat(pieces[1..]));
    DataAppend(r.items, f2.items);
  }

  /** A decoder that stopped for more data asks for more again when given nothing. */
  lemma {:induction false} NeedMoreAgain<S(!new)>(dec: (S, seq<Byte>) -> Outcome<S>, s: S, a: seq<Byte>)
    requires Lawful(dec)
    requires DecodeAll(dec, s, a).stop == NeedMore
    ensures NeedsMore(dec(DecodeAll(dec, s, a).decoder, []))
    decreases |a|
  {
    var o := dec(s, a);
    assert ConsumesAt(dec, s, a);
    if NeedsMore(o) {
      assert AppendLawAt(dec, s, a, []);
      assert a + [] == a;
    } else {
      NeedMoreAgain(dec, o.decoder, o.rest);
    }
  }
}
