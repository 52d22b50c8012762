/**
 * The decoder of the chunked transfer coding (section 7.1 of RFC 9112):
 * a byte-at-a-time state machine that turns `size [; ext] CRLF data CRLF`
 * frames into body chunks and recognises the final `0` chunk, optional
 * trailer lines and the closing CRLF.
 */
module ChunkedDecoder {
  import opened Bytes
  import opened Wrappers
  import opened Errors
  import opened Messages
  import opened FramedRead

  /** Where the machine is inside the chunked framing. */
  datatype State =
    | Size        // reading the hexadecimal chunk size
    | SizeLws     // white space after the size
    | Extension   // skipping a chunk extension
    | SizeLf      // the LF ending the size line
    | Body        // reading chunk data
    | BodyCr      // the CR after chunk data
    | BodyLf      // the LF after chunk data
    | Trailer     // skipping a trailer line
    | TrailerLf   // the LF ending a trailer line
    | EndCr       // the CR of the final empty line (or the start of a trailer)
    | EndLf       // the LF of the final empty line
    | End         // the body is complete

  /** The decoder: its state and the `u64` size still to read of the current chunk. */
  datatype Decoder = Decoder(state: State, remaining: nat)

  /** A fresh decoder expects a chunk size. */
  function New(): (d: Decoder)
    ensures d.state == Size && d.remaining == 0
  {
    Decoder(Size, 0)
  }

  /** Where a byte-reading state goes on one byte: the next state and size, or an I/O error. */
  datatype Transition = Next(state: State, size: nat) | Fail(cause: IoCause, size: nat)

  /** Every state except `Body` and `End` consumes exactly one byte per step. */
  predicate ReadsByte(state: State)
  {
    state != Body && state != End
  }

  /**
   * The `read_*` step of a byte-reading state once `try_next_byte!` has
   * produced the byte `b`. The chunk size accumulates hexadecimal digits with
   * a checked `u64` multiply and add; on an overflow in the add the size has
   * already been multiplied.
   */
  function OnByte(state: State, b: Byte, size: nat): Transition
    requires ReadsByte(state)
  {
    match state
    case Size =>
      if IsHexDigit(b) then
        if size * 16 > U64_MAX then Fail(ChunkSizeOverflow, size)
        else if size * 16 + HexValue(b) > U64_MAX then Fail(ChunkSizeOverflow, size * 16)
        else Next(Size, size * 16 + HexValue(b))
      else if b == HTAB || b == SP then Next(SizeLws, size)
      else if b == SEMICOLON then Next(Extension, size)
      else if b == CR then Next(SizeLf, size)
      else Fail(ChunkSizeInvalid, size)
    case SizeLws =>
      if b == HTAB || b == SP then Next(SizeLws, size)
      else if b == SEMICOLON then Next(Extension, size)
      else if b == CR then Next(SizeLf, size)
      else Fail(ChunkSizeLwsInvalid, size)
    case Extension =>
      if b == CR then Next(SizeLf, size)
      else if b == LF then Fail(ChunkExtensionNewline, size)
      else Next(Extension, size)
    case SizeLf =>
      if b == LF then Next(if size == 0 then EndCr else Body, size)
      else Fail(ChunkSizeLfInvalid, size)
    case BodyCr =>
      if b == CR then Next(BodyLf, size) else Fail(ChunkBodyCrInvalid, size)
    case BodyLf =>
      if b == LF then Next(Size, size) else Fail(ChunkBodyLfInvalid, size)
    case Trailer =>
      if b == CR then Next(TrailerLf, size) else Next(Trailer, size)
    case TrailerLf =>
      if b == LF then Next(EndCr, size) else Fail(TrailerLfInvalid, size)
    case EndCr =>
      if b == CR then Next(EndLf, size) else Next(Trailer, size)
    case EndLf =>
      if b == LF then Next(End, size) else Fail(ChunkEndLfInvalid, size)
  }

  /** How many bytes of chunk data one `read_body` step takes from `src`. */
  function BodyTake(size: nat, src: seq<Byte>): (n: nat)
    ensures n <= size && n <= |src|
    ensures n == size || n == |src|
  {
    if size < |src| then size else |src|
  }

  /** Why a run of the machine over a buffer stopped. */
  datatype Stopped =
    | Failed(cause: IoCause)   // a byte the framing does not allow
    | Starved                  // the buffer ran out
    | Ended                    // the body is complete
    | Emitted(data: seq<Byte>) // chunk data

  /** Where a run stopped: why, the machine's state and size there, and the bytes it left unread. */
  datatype Halt = Halt(why: Stopped, state: State, size: nat, rest: seq<Byte>)

  /**
   * The machine run over `src` from `state` with `size` still to read, as
   * the loop of `decode` drives `step`: it stops at chunk data, at `End`
   * (also when it starts there), when the buffer runs out, or at a byte the
   * framing does not allow (the state stays where it was and the offending
   * byte is consumed). A step never finds the buffer empty, because the loop
   * asks for more data first; so the `Pending` of `try_next_byte!` and the
   * empty-buffer case of `read_body` do not arise here.
   */
  function Run(state: State, size: nat, src: seq<Byte>): (h: Halt)
    decreases |src|, if state == Body then 2 else 1
    ensures |h.rest| <= |src|
    ensures h.why.Starved? ==> h.rest == [] && h.state != End
    ensures h.why.Ended? ==> h.state == End
    ensures h.why.Emitted? ==> h.why.data != [] && |h.rest| < |src|
  {
    if state == End then Halt(Ended, End, size, src)
    else if src == [] then Halt(Starved, state, size, [])
    else if state == Body then
      if size == 0 then Run(BodyCr, 0, src)
      else
        var n := BodyTake(size, src);
        Halt(Emitted(src[..n]), if size - n > 0 then Body else BodyCr, size - n, src[n..])
    else RunByte(state, size, src)
  }

  /** One byte read outside chunk data, and the run that goes on from there. */
  function RunByte(state: State, size: nat, src: seq<Byte>): (h: Halt)
    requires ReadsByte(state) && src != []
    decreases |src|, 0
    ensures |h.rest| < |src|
    ensures h.why.Starved? ==> h.rest == [] && h.state != End
    ensures h.why.Ended? ==> h.state == End
    ensures h.why.Emitted? ==> h.why.data != []
  {
    match OnByte(state, src[0], size)
    case Fail(cause, sz) => Halt(Failed(cause), state, sz, src[1..])
    case Next(next, sz) => Run(next, sz, src[1..])
  }

  /** One byte read outside chunk data: the run goes on from the next state, or stops at the failure. */
  lemma RunNext(state: State, size: nat, src: seq<Byte>)
    requires ReadsByte(state) && src != []
    ensures OnByte(state, src[0], size).Next? ==>
              Run(state, size, src) == Run(OnByte(state, src[0], size).state, OnByte(state, src[0], size).size, src[1..])
    ensures OnByte(state, src[0], size).Fail? ==>
              Run(state, size, src) == Halt(Failed(OnByte(state, src[0], size).cause), state, OnByte(state, src[0], size).size, src[1..])
  {
  }

  /** What `decode` returns for a run that stopped for `why`. */
  function Answer(why: Stopped): Result<Option<PayloadItem>, ParseError>
  {
    match why
    case Failed(cause) => Err(Io(cause))
    case Starved => Ok(None)
    case Ended => Ok(Some(Eof))
    case Emitted(data) => Ok(Some(Chunk(data)))
  }

  /**
   * One call of `decode`: chunk data, `Eof` once the body is complete (also
   * on every later call), `None` when the buffer runs out, or an I/O error.
   */
  function Decode(d: Decoder, src: seq<Byte>): (o: Outcome<Decoder>)
    ensures d.state == End ==> o == Outcome(Ok(Some(Eof)), d, src)
    ensures d.state != End && src == [] ==> o.result == Ok(None) && o.decoder == d && o.rest == []
    ensures IsSuffix(o.rest, src)
    ensures NeedsMore(o) ==> o.rest == [] && o.decoder.state != End
    ensures IsEof(o) ==> o.decoder.state == End
    ensures IsChunk(o) ==> o.result.value.value.data != [] && |o.rest| < |src|
  {
    if d.state == End then Outcome(Ok(Some(Eof)), d, src)
    else if src == [] then Outcome(Ok(None), d, [])
    else
      RunRestIsSuffix(d.state, d.remaining, src);
      var h := Run(d.state, d.remaining, src);
      Outcome(Answer(h.why), Decoder(h.state, h.size), h.rest)
  }

  /**
   * The shape the machine keeps between calls: inside chunk data there is
   * always something left to read, and from the CRLF after the data onwards
   * the size counter is back at zero, so the next size line starts from 0.
   */
  predicate WellFormed(d: Decoder)
  {
    && (d.state == Body ==> d.remaining > 0)
    && (d.state in {BodyCr, BodyLf, Trailer, TrailerLf, EndCr, EndLf, End} ==> d.remaining == 0)
  }

  lemma {:induction false} RunKeepsWellFormed(state: State, size: nat, src: seq<Byte>)
    requires WellFormed(Decoder(state, size))
    ensures WellFormed(Decoder(Run(state, size, src).state, Run(state, size, src).size))
    decreases |src|
  {
    if state != End && src != [] && ReadsByte(state) {
      match OnByte(state, src[0], size)
      case Fail(_, _) =>
      case Next(next, sz) =>
        RunKeepsWellFormed(next, sz, src[1..]);
    }
  }

  lemma DecodeKeepsWellFormed(d: Decoder, src: seq<Byte>)
    requires WellFormed(d)
    ensures WellFormed(Decode(d, src).decoder)
  {
    RunKeepsWellFormed(d.state, d.remaining, src);
  }

  /** The case of `RunAppend` where the buffer ends inside chunk data. */
  lemma RunAppendInsideChunk(size: nat, a: seq<Byte>, b: seq<Byte>)
    requires size > |a| && a != []
    ensures Run(Body, size, a) == Halt(Emitted(a), Body, size - |a|, [])
    ensures b != [] ==>
              var h2 := Run(Body, size - |a|, b);
              && h2.why.Emitted?
              && Run(Body, size, a + b) == Halt(Emitted(a + h2.why.data), h2.state, h2.size, h2.rest)
  {
    assert a[..|a|] == a;
    if b != [] {
      var n' := BodyTake(size, a + b);
      assert (a + b)[..n'] == a + b[..n' - |a|];
      assert (a + b)[n'..] == b[n' - |a|..];
      assert BodyTake(size - |a|, b) == n' - |a|;
    }
  }

  lemma {:induction false} RunAppend(state: State, size: nat, a: seq<Byte>, b: seq<Byte>)
    ensures var h := Run(state, size, a);
            h.why.Starved? ==> Run(state, size, a + b) == Run(h.state, h.size, b)
    ensures var h := Run(state, size, a);
            (h.why.Ended? || h.why.Failed? || (h.why.Emitted? && !(h.rest == [] && h.state == Body)))
            ==> Run(state, size, a + b) == h.(rest := h.rest + b)
    ensures var h := Run(state, size, a);
            h.why.Emitted? && h.rest == [] && h.state == Body && b != [] ==>
              var h2 := Run(Body, h.size, b);
              && h2.why.Emitted?
              && Run(state, size, a + b) == Halt(Emitted(h.why.data + h2.why.data), h2.state, h2.size, h2.rest)
    decreases |a|, if state == Body then 1 else 0
  {
    if state == End {
    } else if a == [] {
      assert a + b == b;
    } else if state == Body {
      if size == 0 {
        RunAppend(BodyCr, 0, a, b);
      } else if size > |a| {
        RunAppendInsideChunk(size, a, b);
      } else {
        assert (a + b)[..size] == a[..size];
        assert (a + b)[size..] == a[size..] + b;
      }
    } else {
      assert (a + b)[0] == a[0];
      assert (a + b)[1..] == a[1..] + b;
      match OnByte(state, a[0], size)
      case Fail(_, _) =>
      case Next(next, sz) =>
        RunAppend(next, sz, a[1..], b);
    }
  }

  /**
   * Where a call stops is independent of bytes that arrive later: a call that
   * asked for more data continues from its decoder, and a call that produced
   * an item produces the same item with the new bytes left over, except that
   * a chunk cut short by the end of the buffer grows by the new bytes.
   */
  lemma DecodeAppend(d: Decoder, a: seq<Byte>, b: seq<Byte>)
    ensures var o := Decode(d, a);
            NeedsMore(o) ==> Decode(d, a + b) == Decode(o.decoder, b)
    ensures var o := Decode(d, a);
            (IsEof(o) || o.result.Err? || (IsChunk(o) && !(o.rest == [] && o.decoder.state == Body)))
            ==> Decode(d, a + b) == o.(rest := o.rest + b)
    ensures var o := Decode(d, a);
            IsChunk(o) && o.rest == [] && o.decoder.state == Body && b != [] ==>
              var o2 := Decode(o.decoder, b);
              IsChunk(o2)
              && Decode(d, a + b) == Outcome(Ok(Some(Chunk(o.result.value.value.data + o2.result.value.value.data))), o2.decoder, o2.rest)
  {
    RunAppend(d.state, d.remaining, a, b);
  }

  /** What a run leaves unread is the end of its input. */
  lemma {:induction false} RunRestIsSuffix(state: State, size: nat, src: seq<Byte>)
    ensures IsSuffix(Run(state, size, src).rest, src)
    decreases |src|, if state == Body then 1 else 0
  {
    if state != End && src != [] {
      if state == Body {
        if size == 0 {
          RunRestIsSuffix(BodyCr, 0, src);
        }
      } else {
        match OnByte(state, src[0], size)
        case Fail(_, _) =>
        case Next(next, sz) =>
          RunRestIsSuffix(next, sz, src[1..]);
          var r := Run(state, size, src).rest;
          assert src[1..][|src[1..]| - |r|..] == src[|src| - |r|..];
      }
    }
  }

  lemma DecodeConsumes()
    ensures Consumes(Decode)
  {
  }

  /** The shape of `DecodeAppend`'s conclusions, over plain outcomes, gives the append law's shape. */
  lemma AppendShapes(o: Outcome<Decoder>, whole: Outcome<Decoder>, next: Outcome<Decoder>, b: seq<Byte>)
    requires NeedsMore(o) ==> whole == next
    requires (IsEof(o) || o.result.Err? || (IsChunk(o) && !(o.rest == [] && o.decoder.state == Body)))
             ==> whole == Outcome(o.result, o.decoder, o.rest + b)
    requires IsChunk(o) && o.rest == [] && o.decoder.state == Body && b != [] ==>
               IsChunk(next) && whole == Outcome(Ok(Some(Chunk(ChunkData(o) + ChunkData(next)))), next.decoder, next.rest)
    requires b == [] ==> whole == o
    ensures NeedsMore(o) ==> whole == next
    ensures !NeedsMore(o) && !(IsChunk(o) && o.rest == []) ==> whole == Outcome(o.result, o.decoder, o.rest + b)
    ensures IsChunk(o) && o.rest == [] ==>
              || whole == Outcome(o.result, o.decoder, b)
              || (b != [] && IsChunk(next)
                  && whole == Outcome(Ok(Some(Chunk(ChunkData(o) + ChunkData(next)))), next.decoder, next.rest))
  {
  }

  lemma DecodeAppendLawAt(d: Decoder, a: seq<Byte>, b: seq<Byte>)
    ensures AppendLawAt(Decode, d, a, b)
  {
    var o := Decode(d, a);
    var whole := Decode(d, a + b);
    var next := Decode(o.decoder, b);
    DecodeAppend(d, a, b);
    if b == [] {
      assert a + b == a;
    }
    AppendShapes(o, whole, next, b);
  }

  lemma DecodeAppendLaw()
    ensures forall d: Decoder, a: seq<Byte>, b: seq<Byte> {:trigger AppendLawAt(Decode, d, a, b)} :: AppendLawAt(Decode, d, a, b)
  {
    forall d: Decoder, a: seq<Byte>, b: seq<Byte> ensures AppendLawAt(Decode, d, a, b) {
      DecodeAppendLawAt(d, a, b);
    }
  }

  lemma DecodeIdle()
    ensures forall d: Decoder {:trigger IdleAt(Decode, d)} :: IdleAt(Decode, d)
  {
    forall d: Decoder ensures IdleAt(Decode, d) {
    }
  }

  /** The chunked decoder meets the laws of the framed reader, so its output does not depend on how reads split the body. */
  lemma DecodeIsLawful()
    ensures Lawful(Decode)
  {
    DecodeConsumes();
    DecodeAppendLaw();
    DecodeIdle();
  }

  lemma {:induction false} RunChunkFromInput(state: State, size: nat, src: seq<Byte>)
    requires Run(state, size, src).why.Emitted?
    ensures IsSuffix(Run(state, size, src).why.data + Run(state, size, src).rest, src)
    decreases |src|, if state == Body then 1 else 0
  {
    if state == Body {
      if size == 0 {
        RunChunkFromInput(BodyCr, 0, src);
      } else {
        var n := BodyTake(size, src);
        assert src[..n] + src[n..] == src;
      }
    } else {
      match OnByte(state, src[0], size)
      case Fail(_, _) =>
      case Next(next, sz) =>
        var h := Run(next, sz, src[1..]);
        assert Run(state, size, src) == h;
        RunChunkFromInput(next, sz, src[1..]);
        var t := h.why.data + h.rest;
        assert src[1..][|src[1..]| - |t|..] == src[|src| - |t|..];
    }
  }

  /** The bytes of a chunk are input bytes: the chunk followed by what is left unread is a suffix of the input. */
  lemma ChunkComesFromInput(d: Decoder, src: seq<Byte>)
    requires IsChunk(Decode(d, src))
    ensures IsSuffix(ChunkData(Decode(d, src)) + Decode(d, src).rest, src)
  {
    RunChunkFromInput(d.state, d.remaining, src);
  }

  /** One hex digit of the size line, when the size still fits in a `u64`. */
  lemma SizeDigitStep(acc: nat, src: seq<Byte>)
    requires src != [] && IsHexDigit(src[0]) && acc * 16 + HexValue(src[0]) <= U64_MAX
    ensures Decode(Decoder(Size, acc), src) == Decode(Decoder(Size, acc * 16 + HexValue(src[0])), src[1..])
  {
    assert Run(Size, acc, src) == Run(Size, acc * 16 + HexValue(src[0]), src[1..]);
  }

  /** One hex digit of the size line that takes the size past `u64`. */
  lemma SizeDigitOverflow(acc: nat, src: seq<Byte>)
    requires acc <= U64_MAX && src != [] && IsHexDigit(src[0]) && acc * 16 + HexValue(src[0]) > U64_MAX
    ensures Decode(Decoder(Size, acc), src).result == Err(Io(ChunkSizeOverflow))
  {
    assert Run(Size, acc, src).why == Failed(ChunkSizeOverflow);
  }

  /**
   * Hex digits, upper or lower case, accumulate into the chunk size as long
   * as it fits in a `u64`: the first `k` bytes of the input are read as the
   * size and the call goes on from byte `k`.
   */
  lemma {:induction false} SizeDigits(acc: nat, src: seq<Byte>, k: nat)
    requires k <= |src| && AllHex(src[..k]) && HexFold(acc, src[..k]) <= U64_MAX
    ensures Decode(Decoder(Size, acc), src) == Decode(Decoder(Size, HexFold(acc, src[..k])), src[k..])
    decreases k
  {
    if k > 0 {
      var ds := src[..k];
      var next := acc * 16 + HexValue(ds[0]);
      assert ds[1..] == src[1..][..k - 1];
      assert src[1..][k - 1..] == src[k..];
      HexFoldGrows(next, ds[1..]);
      SizeDigitStep(acc, src);
      SizeDigits(next, src[1..], k - 1);
    }
  }

  /** A size that does not fit in a `u64` is an I/O error. */
  lemma {:induction false} SizeOverflowRejected(acc: nat, src: seq<Byte>, k: nat)
    requires acc <= U64_MAX && k <= |src| && AllHex(src[..k]) && HexFold(acc, src[..k]) > U64_MAX
    ensures Decode(Decoder(Size, acc), src).result == Err(Io(ChunkSizeOverflow))
    decreases k
  {
    var ds := src[..k];
    var next := acc * 16 + HexValue(ds[0]);
    if next <= U64_MAX {
      assert ds[1..] == src[1..][..k - 1];
      SizeDigitStep(acc, src);
      SizeOverflowRejected(next, src[1..], k - 1);
    } else {
      SizeDigitOverflow(acc, src);
    }
  }

  /**
   * The size line accepts only hex digits, then optional spaces or tabs, then
   * `;` or CR; any other byte, or a digit after the white space, is an I/O
   * error.
   */
  lemma SizeLineRejects(d: Decoder, b: Byte, tail: seq<Byte>)
    requires d.state == Size || d.state == SizeLws
    requires b != HTAB && b != SP && b != SEMICOLON && b != CR
    requires d.state == Size ==> !IsHexDigit(b)
    ensures Decode(d, [b] + tail).result == Err(Io(if d.state == Size then ChunkSizeInvalid else ChunkSizeLwsInvalid))
  {
    assert ([b] + tail)[0] == b;
    RunNext(d.state, d.remaining, [b] + tail);
  }

  /** Chunk extensions are skipped up to the CR that ends the size line. */
  lemma {:induction false} ExtensionSkipped(size: nat, ext: seq<Byte>, tail: seq<Byte>)
    requires forall i | 0 <= i < |ext| :: ext[i] != CR && ext[i] != LF
    ensures Decode(Decoder(Extension, size), ext + tail) == Decode(Decoder(Extension, size), tail)
  {
    if ext != [] {
      assert (ext + tail)[0] == ext[0];
      assert (ext + tail)[1..] == ext[1..] + tail;
      assert Run(Extension, size, ext + tail) == Run(Extension, size, ext[1..] + tail);
      ExtensionSkipped(size, ext[1..], tail);
    } else {
      assert ext + tail == tail;
    }
  }

  /** A bare LF inside a chunk extension is rejected. */
  lemma ExtensionRejectsBareLf(size: nat, ext: seq<Byte>, tail: seq<Byte>)
    requires forall i | 0 <= i < |ext| :: ext[i] != CR && ext[i] != LF
    ensures Decode(Decoder(Extension, size), ext + [LF] + tail).result == Err(Io(ChunkExtensionNewline))
  {
    assert ext + [LF] + tail == ext + ([LF] + tail);
    ExtensionSkipped(size, ext, [LF] + tail);
    assert ([LF] + tail)[0] == LF;
    RunNext(Extension, size, [LF] + tail);
  }

  /** Chunk data must be followed by CRLF. */
  lemma DataMustEndWithCrlf(b: Byte, tail: seq<Byte>)
    requires b != CR
    ensures Decode(Decoder(BodyCr, 0), [b] + tail) == Outcome(Err(Io(ChunkBodyCrInvalid)), Decoder(BodyCr, 0), tail)
  {
    assert ([b] + tail)[0] == b;
    assert ([b] + tail)[1..] == tail;
    RunNext(BodyCr, 0, [b] + tail);
  }

  /** Trailer bytes up to a CRLF are skipped and the machine looks for the final empty line again. */
  lemma {:induction false} TrailerBytes(rest: seq<Byte>, tail: seq<Byte>)
    requires forall i | 0 <= i < |rest| :: rest[i] != CR
    ensures Run(Trailer, 0, rest + (CRLF + tail)) == Run(EndCr, 0, tail)
  {
    var src := rest + (CRLF + tail);
    if rest == [] {
      assert src == CRLF + tail;
      CrlfSteps(Trailer, TrailerLf, EndCr, tail);
    } else {
      assert src[0] == rest[0];
      assert src[1..] == rest[1..] + (CRLF + tail);
      RunNext(Trailer, 0, src);
      TrailerBytes(rest[1..], tail);
    }
  }

  /** Two steps over a CRLF, through the states named. */
  lemma CrlfSteps(first: State, second: State, third: State, tail: seq<Byte>)
    requires ReadsByte(first) && ReadsByte(second)
    requires OnByte(first, CR, 0) == Next(second, 0) && OnByte(second, LF, 0) == Next(third, 0)
    ensures Run(first, 0, CRLF + tail) == Run(third, 0, tail)
  {
    assert (CRLF + tail)[0] == CR && (CRLF + tail)[1..] == [LF] + tail;
    assert ([LF] + tail)[0] == LF && ([LF] + tail)[1..] == tail;
    RunNext(first, 0, CRLF + tail);
    RunNext(second, 0, [LF] + tail);
  }

  /** A trailer line after the last chunk is skipped. */
  lemma TrailerLineSkipped(line: seq<Byte>, tail: seq<Byte>)
    requires line != [] && forall i | 0 <= i < |line| :: line[i] != CR
    ensures Decode(Decoder(EndCr, 0), line + CRLF + tail) == Decode(Decoder(EndCr, 0), tail)
  {
    assert (line + CRLF + tail)[0] == line[0];
    assert (line + CRLF + tail)[1..] == line[1..] + (CRLF + tail);
    RunNext(EndCr, 0, line + CRLF + tail);
    TrailerBytes(line[1..], tail);
  }

  /** The empty line after the last chunk (and its trailers) ends the body; what follows is left unread. */
  lemma FinalCrlfEnds(tail: seq<Byte>)
    ensures Decode(Decoder(EndCr, 0), CRLF + tail) == Outcome(Ok(Some(Eof)), Decoder(End, 0), tail)
  {
    CrlfSteps(EndCr, EndLf, End, tail);
  }

  /** After the chunk data's CRLF the decoder reads the next size line from zero. */
  lemma NextChunkAfterCrlf(tail: seq<Byte>)
    ensures Decode(Decoder(BodyCr, 0), CRLF + tail) == Decode(Decoder(Size, 0), tail)
  {
    CrlfSteps(BodyCr, BodyLf, Size, tail);
  }

  /** The CRLF that ends the size line starts the chunk data, or, after a zero size, the trailer section. */
  lemma SizeLineEnds(size: nat, tail: seq<Byte>)
    ensures Decode(Decoder(Size, size), CRLF + tail) == Decode(Decoder(if size == 0 then EndCr else Body, size), tail)
  {
    assert (CRLF + tail)[0] == CR && (CRLF + tail)[1..] == [LF] + tail;
    assert ([LF] + tail)[0] == LF && ([LF] + tail)[1..] == tail;
    RunNext(Size, size, CRLF + tail);
    RunNext(SizeLf, size, [LF] + tail);
  }

  /** Inside chunk data, one call emits what is buffered of the chunk, at most the rest of it. */
  lemma BodyEmitsBuffered(d: Decoder, src: seq<Byte>)
    requires WellFormed(d) && d.state == Body && src != []
    ensures var n := if d.remaining < |src| then d.remaining else |src|;
            Decode(d, src) == Outcome(Ok(Some(Chunk(src[..n]))), Decoder(if n < d.remaining then Body else BodyCr, d.remaining - n), src[n..])
  {
  }
}
