/**
 * The response-head encoder: the status line, the framing field that
 * matches the body's `PayloadSize`, every field as `name: value` CRLF, and
 * the empty line that ends the head. Only HTTP/1.1 heads are written.
 */
module HeaderEncoder {
  import opened Wrappers
  import opened Bytes
  import opened Texts
  import opened Errors
  import opened Messages
  import opened HeaderMaps
  import opened Requests
  import HeaderDecoder

  /** A status code as `http::StatusCode` holds it: three digits. */
  type StatusCode = n: nat | 100 <= n <= 999 witness 200

  /** `ResponseHead`, a response without its body. */
  datatype ResponseHead = ResponseHead(status: StatusCode, version: Version, headers: HeaderMap)

  /** `HTTP/1.1 ` */
  const HTTP11_PREFIX: seq<Byte> := [72, 84, 84, 80, 47, 49, 46, 49, 32]
  /** `: ` */
  const FIELD_SEPARATOR: seq<Byte> := [58, SP]
  /** `0` */
  const ZERO: seq<Byte> := [DIGIT_0]

  /** `HTTP/1.1 <code> <reason>` CRLF. */
  function StatusLine(status: StatusCode, reason: seq<Byte>): seq<Byte>
  {
    HTTP11_PREFIX + Decimal(status) + [SP] + reason + CRLF
  }

  /** Sets the first value of `name`, or makes it the only one when `name` is absent. */
  function Overwrite(m: HeaderMap, name: seq<Byte>, value: seq<Byte>): (r: HeaderMap)
    requires Valid(m)
    ensures Valid(r) && Get(r, name) == Some(value)
    ensures ContainsKey(m, name) ==> GetAll(r, name) == [value] + GetAll(m, name)[1..]
    ensures !ContainsKey(m, name) ==> GetAll(r, name) == [value]
    ensures forall k | k != name :: GetAll(r, k) == GetAll(m, k)
  {
    if ContainsKey(m, name) then SetFirst(m, name, value) else Insert(m, name, value)
  }

  /** The fields with the framing field the body's size calls for. */
  function Framed(m: HeaderMap, size: PayloadSize): (r: HeaderMap)
    requires Valid(m)
    ensures Valid(r)
    ensures size.Length? ==> Get(r, CONTENT_LENGTH) == Some(Decimal(size.n))
    ensures size.Empty? ==> Get(r, CONTENT_LENGTH) == Some(ZERO)
    ensures size.Chunked? ==> Get(r, TRANSFER_ENCODING) == Some(CHUNKED)
    ensures var set_ := if size.Chunked? then TRANSFER_ENCODING else CONTENT_LENGTH;
            forall k | k != set_ :: GetAll(r, k) == GetAll(m, k)
  {
    match size
    case Length(n) => Overwrite(m, CONTENT_LENGTH, Decimal(n))
    case Chunked => Overwrite(m, TRANSFER_ENCODING, CHUNKED)
    case Empty => Overwrite(m, CONTENT_LENGTH, ZERO)
  }

  /** One field line. */
  function FieldLine(field: (seq<Byte>, seq<Byte>)): seq<Byte>
  {
    field.0 + FIELD_SEPARATOR + field.1 + CRLF
  }

  /** The field lines, in iteration order. */
  function FieldLines(fields: seq<(seq<Byte>, seq<Byte>)>): seq<Byte>
  {
    if fields == [] then [] else FieldLine(fields[0]) + FieldLines(fields[1..])
  }

  /**
   * `HeaderEncoder::encode`. `reason` is the status code's canonical
   * reason phrase, which the source unwraps, so a code without one is a
   * caller error.
   */
  function Encode(head: ResponseHead, size: PayloadSize, reason: Option<seq<Byte>>): (r: Result<seq<Byte>, SendError>)
    requires Valid(head.headers)
    requires head.version == Http11 ==> reason.Some?
    ensures head.version != Http11 <==> r == Err(SendIo(Unsupported))
    ensures r.Ok? ==> StartsWith(r.value, StatusLine(head.status, reason.value))
  {
    if head.version != Http11 then Err(SendIo(Unsupported))
    else
      var line := StatusLine(head.status, reason.value);
      var out := line + FieldLines(Iter(Framed(head.headers, size))) + CRLF;
      assert out[..|line|] == line;
      Ok(out)
  }

  /** Where the line of the `i`-th field starts among the field lines. */
  function LineStart(fields: seq<(seq<Byte>, seq<Byte>)>, i: nat): nat
    requires i <= |fields|
    decreases i
  {
    if i == 0 then 0 else |FieldLine(fields[0])| + LineStart(fields[1..], i - 1)
  }

  /** The `i`-th field's line is `name: value` CRLF, right after the line before it. */
  lemma {:induction false} FieldLineAt(fields: seq<(seq<Byte>, seq<Byte>)>, i: nat)
    requires i < |fields|
    ensures LineStart(fields, i + 1) == LineStart(fields, i) + |FieldLine(fields[i])|
    ensures LineStart(fields, i + 1) <= |FieldLines(fields)|
    ensures FieldLines(fields)[LineStart(fields, i)..LineStart(fields, i + 1)] == fields[i].0 + FIELD_SEPARATOR + fields[i].1 + CRLF
    decreases i
  {
    var a := FieldLine(fields[0]);
    var rest := FieldLines(fields[1..]);
    assert FieldLines(fields) == a + rest;
    if i == 0 {
      assert LineStart(fields, 1) == |a| + LineStart(fields[1..], 0);
      assert (a + rest)[0..|a|] == a;
    } else {
      FieldLineAt(fields[1..], i - 1);
      assert fields[1..][i - 1] == fields[i];
      var from := LineStart(fields[1..], i - 1);
      var to := LineStart(fields[1..], i);
      assert (a + rest)[|a| + from..|a| + to] == rest[from..to];
    }
  }

  /** The field lines end where the last field's line does. */
  lemma {:induction false} FieldLinesLength(fields: seq<(seq<Byte>, seq<Byte>)>)
    ensures LineStart(fields, |fields|) == |FieldLines(fields)|
  {
    if fields != [] {
      FieldLinesLength(fields[1..]);
    }
  }

  /** `w` holds the line of `field` at `at`: its name, `: `, its value and CRLF. */
  predicate LineAt(w: seq<Byte>, at: nat, field: (seq<Byte>, seq<Byte>))
  {
    at + |FieldLine(field)| <= |w| && w[at..at + |FieldLine(field)|] == field.0 + FIELD_SEPARATOR + field.1 + CRLF
  }

  lemma MiddleSlice(a: seq<Byte>, b: seq<Byte>, c: seq<Byte>, from: nat, to: nat)
    requires from <= to <= |b|
    ensures (a + b + c)[|a| + from..|a| + to] == b[from..to]
  {
  }

  lemma LineOf(w: seq<Byte>, line: seq<Byte>, fields: seq<(seq<Byte>, seq<Byte>)>, i: nat)
    requires w == line + FieldLines(fields) + CRLF && i < |fields|
    ensures LineAt(w, |line| + LineStart(fields, i), fields[i])
  {
    FieldLineAt(fields, i);
    MiddleSlice(line, FieldLines(fields), CRLF, LineStart(fields, i), LineStart(fields, i + 1));
  }

  lemma LineStarts(fields: seq<(seq<Byte>, seq<Byte>)>)
    ensures forall i | 0 <= i < |fields| :: LineStart(fields, i + 1) == LineStart(fields, i) + |FieldLine(fields[i])|
  {
    forall i | 0 <= i < |fields|
      ensures LineStart(fields, i + 1) == LineStart(fields, i) + |FieldLine(fields[i])|
    {
      FieldLineAt(fields, i);
    }
  }

  lemma Ends(line: seq<Byte>, fl: seq<Byte>)
    ensures var w := line + fl + CRLF;
            |w| == |line| + |fl| + 2 && w[..|line|] == line && w[|w| - 2..] == CRLF
  {
    var w := line + fl + CRLF;
    assert w[..|line|] == line;
    assert w[|w| - 2..] == CRLF;
  }

  /**
   * The frame of a written head: the status line first, the empty line
   * last, and between them the field lines of the framed map, each starting
   * where the one before it ends (the lines themselves are `HeadFieldLine`).
   */
  lemma HeadLayout(head: ResponseHead, size: PayloadSize, reason: Option<seq<Byte>>)
    requires Valid(head.headers) && head.version == Http11 && reason.Some?
    ensures var w := Encode(head, size, reason).value;
            var fields := Iter(Framed(head.headers, size));
            var n := |StatusLine(head.status, reason.value)|;
            && |w| == n + LineStart(fields, |fields|) + 2
            && w[..n] == StatusLine(head.status, reason.value)
            && w[|w| - 2..] == CRLF
            && (forall i | 0 <= i < |fields| :: LineStart(fields, i + 1) == LineStart(fields, i) + |FieldLine(fields[i])|)
  {
    var fields := Iter(Framed(head.headers, size));
    var line := StatusLine(head.status, reason.value);
    assert Encode(head, size, reason).value == line + FieldLines(fields) + CRLF;
    FieldLinesLength(fields);
    LineStarts(fields);
    Ends(line, FieldLines(fields));
  }

  /**
   * The `i`-th field of the framed map, in iteration order, is written as
   * its name, `: `, its value and CRLF, where `HeadLayout` places it.
   */
  lemma HeadFieldLine(head: ResponseHead, size: PayloadSize, reason: Option<seq<Byte>>, i: nat)
    requires Valid(head.headers) && head.version == Http11 && reason.Some?
    requires i < |Iter(Framed(head.headers, size))|
    ensures var fields := Iter(Framed(head.headers, size));
            LineAt(Encode(head, size, reason).value, |StatusLine(head.status, reason.value)| + LineStart(fields, i), fields[i])
  {
    var fields := Iter(Framed(head.headers, size));
    var line := StatusLine(head.status, reason.value);
    assert Encode(head, size, reason).value == line + FieldLines(fields) + CRLF;
    LineOf(line + FieldLines(fields) + CRLF, line, fields, i);
  }

  lemma {:induction false} FieldLinesEnd(fields: seq<(seq<Byte>, seq<Byte>)>)
    requires fields != []
    ensures var w := FieldLines(fields); |w| >= 2 && w[|w| - 2..] == CRLF
  {
    if fields[1..] == [] {
      assert FieldLines(fields) == FieldLine(fields[0]);
    } else {
      FieldLinesEnd(fields[1..]);
      var a := FieldLine(fields[0]);
      var b := FieldLines(fields[1..]);
      assert (a + b)[|a + b| - 2..] == b[|b| - 2..];
    }
  }

  /**
   * A written head always holds at least the framing field, so it ends with
   * a field line's CRLF followed by the empty line.
   */
  lemma HeadEndsWithEmptyLine(head: ResponseHead, size: PayloadSize, reason: Option<seq<Byte>>)
    requires Valid(head.headers) && head.version == Http11 && reason.Some?
    ensures var w := Encode(head, size, reason).value;
            |w| >= 4 && w[|w| - 4..] == CRLF + CRLF
  {
    var m := Framed(head.headers, size);
    var name := if size.Chunked? then TRANSFER_ENCODING else CONTENT_LENGTH;
    assert GetAll(m, name) != [];
    NonEmptyIter(m, name);
    FieldLinesEnd(Iter(m));
    var line := StatusLine(head.status, reason.value);
    var fl := FieldLines(Iter(m));
    assert (line + fl + CRLF)[|line + fl + CRLF| - 4..] == fl[|fl| - 2..] + CRLF;
  }

  lemma NonEmptyIter(m: HeaderMap, name: seq<Byte>)
    requires GetAll(m, name) != []
    ensures Iter(m) != []
  {
    var i := IndexOf(m.entries, name).value;
    FlattenHas(m.entries, i);
  }

  lemma {:induction false} FlattenHas(entries: seq<Entry>, i: nat)
    requires i < |entries| && entries[i].values != []
    ensures Flatten(entries) != []
  {
    if i > 0 {
      FlattenHas(entries[1..], i - 1);
    }
  }

  /**
   * The framing field the encoder writes reads back as the same framing:
   * a request carrying these fields is framed by the same `PayloadSize`,
   * except that an empty body comes back as length 0.
   */
  lemma FramingReadBack(m: HeaderMap, size: PayloadSize, verb: Method, uri: string)
    requires Valid(m) && !ContainsKey(m, CONTENT_LENGTH) && !ContainsKey(m, TRANSFER_ENCODING)
    requires NeedBody(verb)
    requires size.Length? ==> size.n <= U64_MAX
    ensures HeaderDecoder.ParsePayload(RequestHeader(verb, uri, Http11, Framed(m, size)))
              == Ok(if size.Empty? then Length(0) else size)
  {
    var r := Framed(m, size);
    var h := RequestHeader(verb, uri, Http11, r);
    if size.Chunked? {
      assert Get(r, CONTENT_LENGTH).None?;
      ChunkedReadBack(CHUNKED);
    } else {
      var n := if size.Length? then size.n else 0;
      assert Get(r, TRANSFER_ENCODING).None?;
      assert Get(r, CONTENT_LENGTH) == Some(Decimal(n));
      DecimalReadBack(n);
    }
  }

  /** A length written in decimal passes `to_str`, trimming and `u64` parsing unchanged. */
  lemma DecimalReadBack(n: nat)
    requires n <= U64_MAX
    ensures var d := Decimal(n);
            HeaderDecoder.VisibleAscii(d) && HeaderDecoder.ParseU64(Trim(d, IsTrimWhitespace)) == Some(n)
  {
    var d := Decimal(n);
    assert d == [] + d + [];
    assert IsDecDigit(d[0]) && IsDecDigit(d[|d| - 1]);
    TrimPadded([], d, [], IsTrimWhitespace);
    HeaderDecoder.ParseDecimal(n);
  }

  lemma ChunkedReadBack(k: seq<Byte>)
    requires k == CHUNKED
    ensures HeaderDecoder.IsChunkedAsWritten(k)
  {
    assert k == [] + k + [];
    assert HeaderDecoder.NoComma(k);
    HeaderDecoder.OnlyCodingDecides(k, [], k, []);
  }
}
