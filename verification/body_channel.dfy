/**
 * The channel pair that carries a request body from the connection's
 * message stream to a handler: the sender reads body items when the
 * receiver asks for them and drains whatever is left, and the receiver
 * keeps at most one request for data outstanding. The channels themselves
 * are not modelled: a send always succeeds, and what the receiver finds on
 * its ends is an input of each poll.
 */
module BodyChannel {
  import opened Wrappers
  import opened Bytes
  import opened Errors
  import opened Messages
  import opened RequestDecoder
  import ReqBody

  /** The sender's one piece of state: whether the body's `Eof` has been read. */
  datatype Sender = Sender(eof: bool)

  /** What the receiver asks of the sender. */
  datatype Signal = RequestData | Enough

  /** What one step of the sender left: its result, its state, and the unread events. */
  datatype Sent = Sent(result: Result<(), ParseError>, sender: Sender, stream: seq<Event>)

  const HEADER_IN_BODY: string := "should not receive header in BodySender"
  const NONE_IN_BODY: string := "should not receive None in BodySender"

  function NewSender(): (s: Sender)
    ensures !s.eof
  {
    Sender(false)
  }

  /** `read_data`: the next body item; a head or the end of the stream is an error. One event is read either way. */
  function ReadData(stream: seq<Event>): (r: (Result<PayloadItem, ParseError>, seq<Event>))
    ensures r.0.Ok? <==> stream != [] && stream[0].Ok? && stream[0].value.Payload?
    ensures r.0.Ok? ==> r.0.value == stream[0].value.item
    ensures stream != [] && stream[0].Err? ==> r.0 == Err(stream[0].error)
    ensures r.1 == if stream == [] then [] else stream[1..]
  {
    if stream == [] then (Err(InvalidBody(NONE_IN_BODY)), [])
    else match stream[0]
      case Ok(Payload(item)) => (Ok(item), stream[1..])
      case Ok(Header(_)) => (Err(InvalidBody(HEADER_IN_BODY)), stream[1..])
      case Err(e) => (Err(e), stream[1..])
  }

  /**
   * `skip_data`: nothing once `Eof` was read; otherwise items are read and
   * dropped until `Eof`, and the first error is returned.
   */
  function SkipData(s: Sender, stream: seq<Event>): (r: Sent)
    decreases |stream|
    ensures s.eof ==> r == Sent(Ok(()), s, stream)
    ensures r.result.Ok? <==> r.sender.eof
    ensures |r.stream| <= |stream| && r.stream == stream[|stream| - |r.stream|..]
  {
    if s.eof then Sent(Ok(()), s, stream)
    else
      var (item, rest) := ReadData(stream);
      match item
      case Ok(Eof) => Sent(Ok(()), Sender(true), rest)
      case Ok(Chunk(_)) => SkipData(s, rest)
      case Err(e) => Sent(Err(e), s, rest)
  }

  /** What `start` handed over to the receiver, besides what `Sent` records. */
  datatype Started = Started(handed: seq<Result<PayloadItem, ParseError>>, sent: Sent)

  /**
   * `start`: serves the receiver's requests one at a time until it has had
   * `Eof`, an error, or says it has had enough, and then drains the rest.
   * `signals` are the requests in the order the receiver sends them.
   */
  function Start(s: Sender, signals: seq<Signal>, stream: seq<Event>): (r: Started)
    decreases |signals|
    ensures s.eof ==> r == Started([], Sent(Ok(()), s, stream))
    ensures |r.sent.stream| <= |stream| && r.sent.stream == stream[|stream| - |r.sent.stream|..]
  {
    if s.eof then Started([], Sent(Ok(()), s, stream))
    else if signals == [] || signals[0] == Enough then Started([], SkipData(s, stream))
    else
      var (item, rest) := ReadData(stream);
      match item
      case Ok(i) =>
        if i.Eof? then Started([Ok(i)], Sent(Ok(()), Sender(true), rest))
        else
          var more := Start(s, signals[1..], rest);
          Started([Ok(i)] + more.handed, more.sent)
      case Err(e) =>
        var drained := SkipData(s, rest);
        Started([Err(e)], drained)
  }

  /**
   * Whatever the receiver asked for, on a well-formed body the sender ends
   * with `Eof` read and the stream positioned right after the body, and it
   * handed over a prefix of the body's items.
   */
  lemma {:induction false} StartLeavesNextRequest(signals: seq<Signal>, cs: seq<seq<Byte>>, next: seq<Event>)
    decreases |signals|
    ensures var r := Start(NewSender(), signals, ReqBody.BodyThen(cs, next));
            && r.sent == Sent(Ok(()), Sender(true), next)
            && |r.handed| <= |cs| + 1
            && forall i | 0 <= i < |r.handed| :: r.handed[i] == Ok((Chunks(cs) + [Eof])[i])
  {
    var stream := ReqBody.BodyThen(cs, next);
    ReqBody.BodyThenSteps(cs, next);
    if !(signals != [] && signals[0] == RequestData) {
      SkipBody(cs, next);
    } else if cs == [] {
      assert ReadData(stream) == (Ok(Eof), next);
      assert (Chunks(cs) + [Eof])[0] == Eof;
    } else {
      var rest := ReqBody.BodyThen(cs[1..], next);
      assert ReadData(stream) == (Ok(Chunk(cs[0])), rest);
      StartLeavesNextRequest(signals[1..], cs[1..], next);
      var more := Start(NewSender(), signals[1..], rest);
      ShiftedPrefix(cs, more.handed);
      assert Start(NewSender(), signals, stream) == Started([Ok(Chunk(cs[0]))] + more.handed, more.sent);
    }
  }

  lemma ShiftedPrefix(cs: seq<seq<Byte>>, handed: seq<Result<PayloadItem, ParseError>>)
    requires cs != [] && |handed| <= |cs|
    requires forall i | 0 <= i < |handed| :: handed[i] == Ok((Chunks(cs[1..]) + [Eof])[i])
    ensures var h := [Ok(Chunk(cs[0]))] + handed;
            forall i | 0 <= i < |h| :: h[i] == Ok((Chunks(cs) + [Eof])[i])
  {
    assert (Chunks(cs) + [Eof]) == [Chunk(cs[0])] + (Chunks(cs[1..]) + [Eof]);
  }

  /** Draining a well-formed body reads exactly its items. */
  lemma {:induction false} SkipBody(cs: seq<seq<Byte>>, next: seq<Event>)
    ensures SkipData(NewSender(), ReqBody.BodyThen(cs, next)) == Sent(Ok(()), Sender(true), next)
  {
    ReqBody.BodyThenSteps(cs, next);
    if cs != [] {
      SkipBody(cs[1..], next);
    }
  }

  /** The receiver's one piece of state besides the body's framing: whether a request is outstanding. */
  datatype Receiver = Receiver(inFlight: bool)

  /** The state of the signal channel when the receiver wants to send a request. */
  datatype SignalSide = Ready | Closed | Busy

  /** What the receiver finds on the data channel. */
  datatype DataSide = Item(item: Result<PayloadItem, ParseError>) | Ended | Empty

  /** One `poll_frame`: pending, or ready with a frame, the end, or an error. */
  datatype Polled = Pending | Answered(polled: ReqBody.Polled)

  datatype Received = Received(polled: Polled, requested: bool, receiver: Receiver)

  const SIGNAL_FAILED: string := "failed to send signal when receive body data"
  const DATA_CLOSED: string := "body stream should not receive None when receive data"

  /**
   * `BodyReceiver::poll_frame`: a request is sent only when none is
   * outstanding; whatever then arrives on the data channel clears the flag.
   */
  function Receive(r: Receiver, signal: SignalSide, data: DataSide): (out: Received)
    ensures out.requested ==> !r.inFlight
    ensures out.polled.Answered? && (r.inFlight || out.requested) ==> !out.receiver.inFlight
    ensures out.polled.Pending? ==> out.receiver.inFlight == (r.inFlight || out.requested)
  {
    if !r.inFlight && signal == Busy then Received(Pending, false, r)
    else if !r.inFlight && signal == Closed then Received(Answered(ReqBody.Failed(InvalidBody(SIGNAL_FAILED))), false, r)
    else
      var requested := !r.inFlight;
      match data
      case Item(Ok(Chunk(b))) => Received(Answered(ReqBody.Frame(b)), requested, Receiver(false))
      case Item(Ok(Eof)) => Received(Answered(ReqBody.Done), requested, Receiver(false))
      case Item(Err(e)) => Received(Answered(ReqBody.Failed(e)), requested, Receiver(false))
      case Ended => Received(Answered(ReqBody.Failed(InvalidBody(DATA_CLOSED))), requested, Receiver(false))
      case Empty => Received(Pending, requested, Receiver(true))
  }

  /** A receiver polled once per input: the requests it sent and the channel items it took. */
  datatype Tally = Tally(requests: nat, taken: nat, receiver: Receiver)

  function ReceiveAll(r: Receiver, inputs: seq<(SignalSide, DataSide)>): Tally
    decreases |inputs|
  {
    if inputs == [] then Tally(0, 0, r)
    else
      var out := Receive(r, inputs[0].0, inputs[0].1);
      var took := out.polled.Answered? && (r.inFlight || out.requested);
      var more := ReceiveAll(out.receiver, inputs[1..]);
      Tally(more.requests + (if out.requested then 1 else 0), more.taken + (if took then 1 else 0), more.receiver)
  }

  /**
   * At most one request is ever outstanding: over any run of polls from a
   * fresh receiver, the requests sent are the items taken, plus one exactly
   * while the receiver waits for an answer.
   */
  lemma {:induction false} OneRequestInFlight(r: Receiver, inputs: seq<(SignalSide, DataSide)>)
    decreases |inputs|
    ensures var t := ReceiveAll(r, inputs);
            (if r.inFlight then 1 else 0) + t.requests == t.taken + (if t.receiver.inFlight then 1 else 0)
  {
    if inputs != [] {
      var out := Receive(r, inputs[0].0, inputs[0].1);
      OneRequestInFlight(out.receiver, inputs[1..]);
    }
  }
}
