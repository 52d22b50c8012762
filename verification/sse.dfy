/**
 * Server-sent events as the web crate sends them: each event becomes one
 * body frame in the `text/event-stream` format of the WHATWG HTML
 * standard (section 9.2, "Server-sent events"), and a stream of events
 * becomes a 200 response that is never cached and keeps the connection.
 */
module ServerSentEvents {
  import opened Wrappers
  import opened Bytes
  import opened Texts
  import opened HeaderMaps
  import opened HeaderEncoder
  import opened SizeHints
  import opened Messages
  import opened Connection
  import opened WebBodies
  import opened Responders

  /** `text/event-stream` */
  const TEXT_EVENT_STREAM: seq<Byte> := [116, 101, 120, 116, 47, 101, 118, 101, 110, 116, 45, 115, 116, 114, 101, 97, 109]
  /** `cache-control` */
  const CACHE_CONTROL: seq<Byte> := [99, 97, 99, 104, 101, 45, 99, 111, 110, 116, 114, 111, 108]
  /** `no-cache` */
  const NO_CACHE: seq<Byte> := [110, 111, 45, 99, 97, 99, 104, 101]
  /** `connection` */
  const CONNECTION: seq<Byte> := [99, 111, 110, 110, 101, 99, 116, 105, 111, 110]
  /** `keep-alive` */
  const KEEP_ALIVE: seq<Byte> := [107, 101, 101, 112, 45, 97, 108, 105, 118, 101]

  /** `id: ` */
  const ID_PREFIX: seq<Byte> := [105, 100, 58, 32]
  /** `event: ` */
  const EVENT_PREFIX: seq<Byte> := [101, 118, 101, 110, 116, 58, 32]
  /** `data: ` */
  const DATA_PREFIX: seq<Byte> := [100, 97, 116, 97, 58, 32]
  /** `retry: ` */
  const RETRY_PREFIX: seq<Byte> := [114, 101, 116, 114, 121, 58, 32]

  /** An event: a reconnection delay in milliseconds, or a message with optional id and name. */
  datatype Event =
    | Retry(millis: nat)
    | Message(id: Option<seq<Byte>>, name: Option<seq<Byte>>, data: seq<Byte>)

  /** `Event::from_data`: a message with neither id nor name. */
  function FromData(data: seq<Byte>): (e: Event)
    ensures e.Message? && e.id.None? && e.name.None? && e.data == data
  {
    Message(None, None, data)
  }

  /** `data: <line>` LF for each line. */
  function DataPart(ls: seq<seq<Byte>>): seq<Byte>
    decreases |ls|
  {
    if ls == [] then [] else DATA_PREFIX + ls[0] + [LF] + DataPart(ls[1..])
  }

  /** The bytes of one event, as the stream mapper formats it. */
  function EventFrame(e: Event): (f: seq<Byte>)
    ensures |f| >= 1 && f[|f| - 1] == LF
  {
    match e
    case Message(id, name, data) =>
      (if id.Some? then ID_PREFIX + id.value + [LF] else [])
      + (if name.Some? then EVENT_PREFIX + name.value + [LF] else [])
      + DataPart(Lines(data, LF, CR))
      + [LF]
    case Retry(ms) => RETRY_PREFIX + Decimal(ms) + [LF, LF]
  }

  /** The field lines of an event, each without its LF. */
  function FieldLines(e: Event): (ls: seq<seq<Byte>>)
  {
    match e
    case Message(id, name, data) =>
      (if id.Some? then [ID_PREFIX + id.value] else [])
      + (if name.Some? then [EVENT_PREFIX + name.value] else [])
      + DataLines(Lines(data, LF, CR))
    case Retry(ms) => [RETRY_PREFIX + Decimal(ms)]
  }

  function DataLines(ls: seq<seq<Byte>>): (r: seq<seq<Byte>>)
    ensures |r| == |ls|
    ensures forall k | 0 <= k < |ls| :: r[k] == DATA_PREFIX + ls[k]
  {
    seq(|ls|, k requires 0 <= k < |ls| => DATA_PREFIX + ls[k])
  }

  /** Each line followed by LF. */
  function Terminated(ls: seq<seq<Byte>>): seq<Byte>
    decreases |ls|
  {
    if ls == [] then [] else ls[0] + [LF] + Terminated(ls[1..])
  }

  lemma {:induction false} TerminatedAppend(xs: seq<seq<Byte>>, ys: seq<seq<Byte>>)
    ensures Terminated(xs + ys) == Terminated(xs) + Terminated(ys)
    decreases |xs|
  {
    if xs == [] {
      assert xs + ys == ys;
    } else {
      assert (xs + ys)[1..] == xs[1..] + ys;
      TerminatedAppend(xs[1..], ys);
    }
  }

  lemma {:induction false} DataPartTerminated(ls: seq<seq<Byte>>)
    ensures DataPart(ls) == Terminated(DataLines(ls))
    decreases |ls|
  {
    if ls != [] {
      DataPartTerminated(ls[1..]);
      assert DataLines(ls)[1..] == DataLines(ls[1..]);
    }
  }

  /** An event's frame is its field lines, each ended by LF, then an empty line. */
  lemma FrameIsFieldLines(e: Event)
    ensures EventFrame(e) == Terminated(FieldLines(e)) + [LF]
  {
    match e
    case Retry(ms) =>
      var l := RETRY_PREFIX + Decimal(ms);
      assert Terminated([l]) == l + [LF] + Terminated([]);
    case Message(id, name, data) =>
      MessageFrameIsFieldLines(id, name, data);
  }

  /** An optional field line, ended by LF when present. */
  lemma OptionalLine(prefix: seq<Byte>, o: Option<seq<Byte>>)
    ensures Terminated(if o.Some? then [prefix + o.value] else []) == if o.Some? then prefix + o.value + [LF] else []
  {
    if o.Some? {
      var ls: seq<seq<Byte>> := [prefix + o.value];
      assert ls[1..] == [];
    }
  }

  lemma MessageFrameIsFieldLines(id: Option<seq<Byte>>, name: Option<seq<Byte>>, data: seq<Byte>)
    ensures EventFrame(Message(id, name, data)) == Terminated(FieldLines(Message(id, name, data))) + [LF]
  {
    var idLines := if id.Some? then [ID_PREFIX + id.value] else [];
    var nameLines := if name.Some? then [EVENT_PREFIX + name.value] else [];
    var dataLines := DataLines(Lines(data, LF, CR));
    var idPart := if id.Some? then ID_PREFIX + id.value + [LF] else [];
    var namePart := if name.Some? then EVENT_PREFIX + name.value + [LF] else [];
    OptionalLine(ID_PREFIX, id);
    OptionalLine(EVENT_PREFIX, name);
    DataPartTerminated(Lines(data, LF, CR));
    TerminatedAppend(idLines, nameLines);
    TerminatedAppend(idLines + nameLines, dataLines);
    assert FieldLines(Message(id, name, data)) == idLines + nameLines + dataLines;
    assert EventFrame(Message(id, name, data)) == idPart + namePart + DataPart(Lines(data, LF, CR)) + [LF];
  }

  /** No empty line: no LF at the start, none right after another. */
  predicate NoBlankLine(s: seq<Byte>)
  {
    && (s == [] || s[0] != LF)
    && forall i | 0 <= i < |s| - 1 :: !(s[i] == LF && s[i + 1] == LF)
  }

  /** Non-empty lines without LF, each ended by LF, hold no empty line. */
  lemma {:induction false} TerminatedNoBlankLine(ls: seq<seq<Byte>>)
    requires forall k | 0 <= k < |ls| :: ls[k] != [] && LF !in ls[k]
    ensures NoBlankLine(Terminated(ls))
    ensures Terminated(ls) == [] || Terminated(ls)[|Terminated(ls)| - 1] == LF
    decreases |ls|
  {
    if ls != [] {
      var l := ls[0];
      var t := Terminated(ls[1..]);
      TerminatedNoBlankLine(ls[1..]);
      var s := l + [LF] + t;
      assert s == Terminated(ls);
      assert l[0] != LF by { assert l[0] in l; }
      forall i | 0 <= i < |s| - 1 ensures !(s[i] == LF && s[i + 1] == LF) {
        if i < |l| {
          assert s[i] == l[i] && l[i] in l;
        } else if i > |l| {
          assert s[i] == t[i - |l| - 1] && s[i + 1] == t[i - |l|];
        } else {
          assert s[i + 1] == t[0];
        }
      }
    }
  }

  /**
   * A listener sees one event per frame: the frame ends with the empty line
   * that dispatches the event and holds no other empty line, whatever line
   * breaks the data contains, provided the id and name contain no LF.
   */
  lemma OneEventPerFrame(e: Event)
    requires e.Message? ==> (e.id.Some? ==> LF !in e.id.value) && (e.name.Some? ==> LF !in e.name.value)
    ensures var f := EventFrame(e);
            && |f| >= 1 && f[|f| - 1] == LF
            && NoBlankLine(f[..|f| - 1])
            && (|f| == 1 || f[|f| - 2] == LF)
  {
    FrameIsFieldLines(e);
    var ls := FieldLines(e);
    forall k | 0 <= k < |ls| ensures ls[k] != [] && LF !in ls[k] {
      FieldLineShape(e, k);
    }
    TerminatedNoBlankLine(ls);
    var f := EventFrame(e);
    assert f[..|f| - 1] == Terminated(ls);
  }

  lemma FieldLineShape(e: Event, k: nat)
    requires e.Message? ==> (e.id.Some? ==> LF !in e.id.value) && (e.name.Some? ==> LF !in e.name.value)
    requires k < |FieldLines(e)|
    ensures FieldLines(e)[k] != [] && LF !in FieldLines(e)[k]
  {
    match e
    case Retry(ms) =>
      assert LF !in Decimal(ms) by {
        forall j | 0 <= j < |Decimal(ms)| ensures Decimal(ms)[j] != LF {
          assert IsDecDigit(Decimal(ms)[j]);
        }
      }
      PrefixedLine(RETRY_PREFIX, Decimal(ms));
      assert FieldLines(e) == [RETRY_PREFIX + Decimal(ms)];
    case Message(id, name, data) =>
      var idLines := if id.Some? then [ID_PREFIX + id.value] else [];
      var nameLines := if name.Some? then [EVENT_PREFIX + name.value] else [];
      var front := idLines + nameLines;
      var ls := Lines(data, LF, CR);
      assert FieldLines(e) == front + DataLines(ls);
      if k < |front| {
        if k < |idLines| {
          PrefixedLine(ID_PREFIX, id.value);
          assert FieldLines(e)[k] == ID_PREFIX + id.value;
        } else {
          PrefixedLine(EVENT_PREFIX, name.value);
          assert FieldLines(e)[k] == EVENT_PREFIX + name.value;
        }
      } else {
        PrefixedLine(DATA_PREFIX, ls[k - |front|]);
        assert FieldLines(e)[k] == DATA_PREFIX + ls[k - |front|];
      }
  }

  /** A field prefix followed by text without LF is a non-empty line without LF. */
  lemma PrefixedLine(prefix: seq<Byte>, v: seq<Byte>)
    requires prefix == ID_PREFIX || prefix == EVENT_PREFIX || prefix == DATA_PREFIX || prefix == RETRY_PREFIX
    requires LF !in v
    ensures prefix + v != [] && LF !in prefix + v
  {
    assert LF !in prefix;
    assert forall b | b in prefix + v :: b in prefix || b in v;
  }

  /** The data of a message that has none gives no `data:` line, so the frame is only the empty line. */
  lemma EmptyDataFrame(id: Option<seq<Byte>>, name: Option<seq<Byte>>)
    ensures EventFrame(Message(None, None, [])) == [LF]
    ensures FieldLines(Message(id, name, [])) == (if id.Some? then [ID_PREFIX + id.value] else []) + (if name.Some? then [EVENT_PREFIX + name.value] else [])
  {
  }

  /** Each line without its first `n` bytes (a line shorter than that becomes empty). */
  function StripPrefixes(ls: seq<seq<Byte>>, n: nat): (r: seq<seq<Byte>>)
    ensures |r| == |ls|
    ensures forall k | 0 <= k < |ls| && n <= |ls[k]| :: r[k] == ls[k][n..]
  {
    seq(|ls|, k requires 0 <= k < |ls| => if n <= |ls[k]| then ls[k][n..] else [])
  }

  /**
   * A listener that takes the `data:` lines after the id and event lines,
   * strips their prefix and joins them with LF, as the event stream format
   * builds its data buffer, gets the message's data back, provided the data
   * holds no CR and does not end in LF.
   */
  lemma ListenerRecoversData(id: Option<seq<Byte>>, name: Option<seq<Byte>>, data: seq<Byte>)
    requires CR !in data
    requires data == [] || data[|data| - 1] != LF
    ensures var ls := FieldLines(Message(id, name, data));
            var skip := |FieldLines(Message(id, name, []))|;
            && skip <= |ls|
            && Join(StripPrefixes(ls[skip..], |DATA_PREFIX|), LF) == data
  {
    var heads := (if id.Some? then [ID_PREFIX + id.value] else []) + (if name.Some? then [EVENT_PREFIX + name.value] else []);
    var lines := Lines(data, LF, CR);
    assert FieldLines(Message(id, name, [])) == heads by {
      assert DataLines([]) == [];
    }
    var ls := FieldLines(Message(id, name, data));
    assert ls[|heads|..] == DataLines(lines) by {
      assert ls == heads + DataLines(lines);
    }
    UnprefixedLines(lines);
    JoinLines(data, LF, CR);
  }

  lemma UnprefixedLines(lines: seq<seq<Byte>>)
    ensures StripPrefixes(DataLines(lines), |DATA_PREFIX|) == lines
  {
    var r := StripPrefixes(DataLines(lines), |DATA_PREFIX|);
    forall k | 0 <= k < |lines| ensures r[k] == lines[k] {
      assert DataLines(lines)[k] == DATA_PREFIX + lines[k];
    }
  }

  /** `SseStream::response_to`: 200, the three fields, and one frame per event, streamed. */
  function SseResponse(events: seq<Event>): (r: WebResponse)
    ensures r.status == OK && Valid(r.headers)
    ensures GetAll(r.headers, CONTENT_TYPE) == [TEXT_EVENT_STREAM]
    ensures GetAll(r.headers, CACHE_CONTROL) == [NO_CACHE]
    ensures GetAll(r.headers, CONNECTION) == [KEEP_ALIVE]
    ensures Frames(r.body) == seq(|events|, i requires 0 <= i < |events| => Data(EventFrame(events[i])))
    ensures ToPayloadSize(Hint(r.body)) == Chunked && !IsEndStream(r.body)
  {
    var h := Insert(Insert(Insert(HeaderMaps.Empty(), CONTENT_TYPE, TEXT_EVENT_STREAM), CACHE_CONTROL, NO_CACHE), CONNECTION, KEEP_ALIVE);
    var frames := seq(|events|, i requires 0 <= i < |events| => Data(EventFrame(events[i])));
    WebResponse(OK, h, Stream(Unknown(), frames, false))
  }
}
