/**
 * The request-head decoder: the limits and checks wrapped around the
 * tokeniser, the conversion of its fields into a `RequestHeader`, and the
 * choice of body framing from `Transfer-Encoding` and `Content-Length`
 * (section 6 of RFC 9112).
 *
 * The tokeniser itself (`httparse`) is not modelled: its verdict on the
 * buffer is an input of `Decode`.
 */
module HeaderDecoder {
  import opened Wrappers
  import opened Bytes
  import opened Texts
  import opened Errors
  import opened Messages
  import opened HeaderMaps
  import opened Requests

  const MAX_HEADER_NUM: nat := 64
  const MAX_HEADER_BYTES: nat := 8 * 1024
  /** Fewer buffered bytes than this cannot hold a request head; the tokeniser is not even asked. */
  const MIN_HEAD_BYTES: nat := 14

  const COMMA: Byte := 44
  const PLUS: Byte := 43

  /** What the tokeniser found in a complete head. */
  datatype Parsed = Parsed(
    offset: nat,
    token: Option<string>,
    path: Option<string>,
    minor: Option<nat>,
    fields: seq<(seq<Byte>, seq<Byte>)>)

  /** The tokeniser's verdict on the buffer. */
  datatype Tokenised =
    | Complete(parsed: Parsed)
    | Partial
    | TooManyFields
    | Malformed(reason: string)

  /** A sound tokeniser reports a head that ends inside the buffer. */
  predicate Sound(src: seq<Byte>, t: Tokenised)
  {
    t.Complete? ==> 0 < t.parsed.offset <= |src|
  }

  /** The result of one call, and what is left in the buffer. */
  datatype Decoded = Decoded(result: Result<Option<(RequestHeader, PayloadSize)>, ParseError>, rest: seq<Byte>)

  /**
   * `HeaderDecoder::decode`. Every check runs before the head is split off,
   * so an error leaves the buffer as it was, except an error in the body
   * framing, which comes after the split.
   */
  function Decode(src: seq<Byte>, t: Tokenised): (d: Decoded)
    requires Sound(src, t)
    ensures |src| < MIN_HEAD_BYTES ==> d == Decoded(Ok(None), src)
    ensures d.result.Ok? && d.result.value.None? ==> d.rest == src && |src| <= MAX_HEADER_BYTES
    ensures d.result.Ok? && d.result.value.Some? ==>
              && t.Complete? && d.rest == src[t.parsed.offset..]
              && t.parsed.offset <= MAX_HEADER_BYTES && |t.parsed.fields| <= MAX_HEADER_NUM
              && d.result.value.value.0.version in {Http10, Http11}
              && Valid(d.result.value.value.0.headers)
              && ParsePayload(d.result.value.value.0) == Ok(d.result.value.value.1)
    ensures d.result.Err? && !(t.Complete? && |src| >= MIN_HEAD_BYTES) ==> d.rest == src
    // which limit a head that is long enough breaks, and the error that names it
    ensures |src| >= MIN_HEAD_BYTES && t.Partial? ==>
              (d.result.Ok? <==> |src| <= MAX_HEADER_BYTES) &&
              (d.result.Err? ==> d.result.error == TooLargeHeader(|src|, MAX_HEADER_BYTES))
    ensures |src| >= MIN_HEAD_BYTES && t.Complete? && t.parsed.offset > MAX_HEADER_BYTES ==>
              d.result == Err(TooLargeHeader(t.parsed.offset, MAX_HEADER_BYTES))
    ensures |src| >= MIN_HEAD_BYTES && t.Complete? && t.parsed.offset <= MAX_HEADER_BYTES && |t.parsed.fields| > MAX_HEADER_NUM ==>
              d.result == Err(TooManyHeaders(|t.parsed.fields|))
    ensures |src| >= MIN_HEAD_BYTES && t.TooManyFields? ==> d.result.Err? && d.result.error.TooManyHeaders?
    ensures |src| >= MIN_HEAD_BYTES && t.Malformed? ==> d.result == Err(InvalidHeader(t.reason))
  {
    if |src| < MIN_HEAD_BYTES then Decoded(Ok(None), src)
    else match t
      case TooManyFields => Decoded(Err(TooManyHeaders(MAX_HEADER_NUM)), src)
      case Malformed(reason) => Decoded(Err(InvalidHeader(reason)), src)
      case Partial =>
        if |src| <= MAX_HEADER_BYTES then Decoded(Ok(None), src)
        else Decoded(Err(TooLargeHeader(|src|, MAX_HEADER_BYTES)), src)
      case Complete(p) =>
        if p.offset > MAX_HEADER_BYTES then Decoded(Err(TooLargeHeader(p.offset, MAX_HEADER_BYTES)), src)
        else if |p.fields| > MAX_HEADER_NUM then Decoded(Err(TooManyHeaders(|p.fields|)), src)
        else if p.minor != Some(0) && p.minor != Some(1) then
          Decoded(Err(InvalidVersion(if p.minor.Some? then Minor(p.minor.value) else NoVersion)), src)
        else if p.token.None? then Decoded(Err(InvalidMethod), src)
        else if p.path.None? then Decoded(Err(InvalidUri), src)
        else
          var head := FromParsed(p.token.value, p.path.value, p.minor.value, p.fields);
          match ParsePayload(head)
          case Ok(size) => Decoded(Ok(Some((head, size))), src[p.offset..])
          case Err(e) => Decoded(Err(e), src[p.offset..])
  }

  /**
   * `parse_payload`: how the body of a request is framed. A method without
   * a body has none; otherwise `Transfer-Encoding` alone decides between
   * chunked and no body, `Content-Length` alone must be a `u64`, and both
   * together are refused.
   */
  function ParsePayload(head: RequestHeader): (r: Result<PayloadSize, ParseError>)
    requires Valid(head.headers)
    ensures !NeedBody(head.requestMethod) ==> r == Ok(Empty)
    ensures NeedBody(head.requestMethod) && ContainsKey(head.headers, TRANSFER_ENCODING) && ContainsKey(head.headers, CONTENT_LENGTH) ==>
              r.Err? && r.error.InvalidContentLength?
    ensures NeedBody(head.requestMethod) && !ContainsKey(head.headers, CONTENT_LENGTH) ==> r.Ok? && !r.value.Length?
    ensures r.Ok? && r.value.Chunked? <==>
              NeedBody(head.requestMethod) && !ContainsKey(head.headers, CONTENT_LENGTH)
              && Get(head.headers, TRANSFER_ENCODING).Some? && IsChunkedAsWritten(Get(head.headers, TRANSFER_ENCODING).value)
    ensures r.Ok? && r.value.Length? ==> Get(head.headers, CONTENT_LENGTH).Some? && ParseU64(Trim(Get(head.headers, CONTENT_LENGTH).value, IsTrimWhitespace)) == Some(r.value.n)
    ensures r.Err? ==> r.error.InvalidContentLength?
  {
    if !NeedBody(head.requestMethod) then Ok(Empty)
    else
      var te := Get(head.headers, TRANSFER_ENCODING);
      var cl := Get(head.headers, CONTENT_LENGTH);
      if te.Some? && cl.Some? then
        Err(InvalidContentLength("transfer_encoding and content_length both present in headers"))
      else if te.Some? then
        if IsChunkedAsWritten(te.value) then Ok(Chunked) else Ok(Empty)
      else if cl.None? then Ok(Empty)
      else if !VisibleAscii(cl.value) then Err(InvalidContentLength("value can't to_str"))
      else
        match ParseU64(Trim(cl.value, IsTrimWhitespace))
        case Some(n) => Ok(Length(n))
        case None => Err(InvalidContentLength("value " + Text(cl.value) + " is not u64"))
  }

  /**
   * `parse_payload` with the coding name compared case-insensitively: it
   * differs from the source only where the last coding is `chunked` in
   * another case, which it takes for chunked framing instead of no body.
   */
  function ParsePayloadIgnoringCase(head: RequestHeader): (r: Result<PayloadSize, ParseError>)
    requires Valid(head.headers)
    ensures r.Ok? && r.value.Chunked? <==>
              NeedBody(head.requestMethod) && !ContainsKey(head.headers, CONTENT_LENGTH)
              && Get(head.headers, TRANSFER_ENCODING).Some? && IsChunked(Get(head.headers, TRANSFER_ENCODING).value)
    ensures !(r.Ok? && r.value.Chunked?) ==> r == ParsePayload(head)
  {
    var p := ParsePayload(head);
    var te := Get(head.headers, TRANSFER_ENCODING);
    if p == Ok(Empty) && NeedBody(head.requestMethod) && te.Some? && IsChunked(te.value) then Ok(Chunked) else p
  }

  /** `HeaderValue::to_str` succeeds: tab and the visible ASCII range. */
  predicate VisibleAscii(v: seq<Byte>)
  {
    forall i | 0 <= i < |v| :: v[i] == HTAB || (SP <= v[i] < 127)
  }

  /** What follows the last comma of `v`, or all of `v` when it has none (`rsplit(',').next()`). */
  function LastPiece(v: seq<Byte>): seq<Byte>
    decreases |v|
  {
    if v == [] || v[|v| - 1] == COMMA then []
    else LastPiece(v[..|v| - 1]) + [v[|v| - 1]]
  }

  /** The last piece is the comma-free suffix of `v` that follows its last comma. */
  lemma {:induction false} LastPieceShape(v: seq<Byte>)
    ensures |LastPiece(v)| <= |v| && LastPiece(v) == v[|v| - |LastPiece(v)|..]
    ensures forall i | 0 <= i < |LastPiece(v)| :: LastPiece(v)[i] != COMMA
    ensures |LastPiece(v)| < |v| ==> v[|v| - |LastPiece(v)| - 1] == COMMA
    decreases |v|
  {
    if !(v == [] || v[|v| - 1] == COMMA) {
      var u := v[..|v| - 1];
      LastPieceShape(u);
      var r := LastPiece(u);
      assert LastPiece(v) == r + [v[|v| - 1]];
      assert v[|v| - 1 - |r|..] == u[|u| - |r|..] + [v[|v| - 1]];
    }
  }

  /**
   * `is_chunked` as written: the last coding, stripped of ASCII white
   * space, compared byte for byte with `chunked`, so `Chunked` is not
   * recognised.
   */
  predicate IsChunkedAsWritten(v: seq<Byte>)
  {
    Trim(LastPiece(v), IsAsciiWhitespace) == CHUNKED
  }

  /** `is_chunked` with the coding name compared case-insensitively (section 7 of RFC 9112). */
  predicate IsChunked(v: seq<Byte>)
  {
    EqualsIgnoreCase(Trim(LastPiece(v), IsAsciiWhitespace), CHUNKED)
  }

  /**
   * `str::parse::<u64>`: an optional `+`, then one or more decimal digits
   * whose value fits in 64 bits.
   */
  function ParseU64(s: seq<Byte>): (r: Option<nat>)
    ensures r.Some? ==> r.value <= U64_MAX
    ensures r.Some? ==> var ds := if s != [] && s[0] == PLUS then s[1..] else s;
                        ds != [] && AllDec(ds) && DecFold(0, ds) == r.value
  {
    var ds := if s != [] && s[0] == PLUS then s[1..] else s;
    if ds != [] && AllDec(ds) && DecFold(0, ds) <= U64_MAX then Some(DecFold(0, ds)) else None
  }

  /** A `u64` printed in decimal parses back to itself. */
  lemma ParseDecimal(n: nat)
    requires n <= U64_MAX
    ensures ParseU64(Decimal(n)) == Some(n)
  {
    var d := Decimal(n);
    assert IsDecDigit(d[0]);
  }

  /** ... and so does it with a `+` sign, and with white space around it once trimmed. */
  lemma ParsePaddedDecimal(n: nat, lead: seq<Byte>, trail: seq<Byte>)
    requires n <= U64_MAX
    requires AllSatisfy(lead, IsTrimWhitespace) && AllSatisfy(trail, IsTrimWhitespace)
    ensures ParseU64(Trim(lead + Decimal(n) + trail, IsTrimWhitespace)) == Some(n)
    ensures ParseU64([PLUS] + Decimal(n)) == Some(n)
  {
    var d := Decimal(n);
    assert IsDecDigit(d[0]) && IsDecDigit(d[|d| - 1]);
    TrimPadded(lead, d, trail, IsTrimWhitespace);
    ParseDecimal(n);
    assert ([PLUS] + d)[1..] == d;
  }

  /** Signs other than a leading `+`, and empty numbers, are refused. */
  lemma ParseRefuses(s: seq<Byte>)
    ensures ParseU64([]) == None && ParseU64([PLUS]) == None
    ensures ParseU64([45] + s) == None
  {
    assert !IsDecDigit(([45] + s)[0]);
  }

  predicate NoComma(s: seq<Byte>)
  {
    forall i | 0 <= i < |s| :: s[i] != COMMA
  }

  /** The last piece is exactly what follows the last comma. */
  lemma LastPieceAfterComma(codings: seq<Byte>, t: seq<Byte>)
    requires NoComma(t)
    ensures LastPiece(codings + [COMMA] + t) == t
    ensures LastPiece(t) == t
  {
    var v := codings + [COMMA] + t;
    LastPieceShape(v);
    LastPieceShape(t);
    assert v[|v| - |t| - 1] == COMMA;
  }

  /** What `is_chunked` compares once the last piece of the value is known. */
  lemma LastPieceDecides(v: seq<Byte>, coding: seq<Byte>)
    requires Trim(LastPiece(v), IsAsciiWhitespace) == coding
    ensures IsChunked(v) <==> EqualsIgnoreCase(coding, CHUNKED)
    ensures IsChunkedAsWritten(v) <==> coding == CHUNKED
  {
  }

  /**
   * Only the last coding counts: a header value `v` ending in a comma and a
   * coding, with any ASCII white space around it, means chunked exactly
   * when that coding is `chunked` in some case, whatever came before.
   */
  lemma LastCodingDecides(v: seq<Byte>, codings: seq<Byte>, lead: seq<Byte>, coding: seq<Byte>, trail: seq<Byte>)
    requires v == codings + [COMMA] + (lead + coding + trail)
    requires AllSatisfy(lead, IsAsciiWhitespace) && AllSatisfy(trail, IsAsciiWhitespace)
    requires coding != [] && !IsAsciiWhitespace(coding[0]) && !IsAsciiWhitespace(coding[|coding| - 1])
    requires NoComma(lead + coding + trail)
    ensures IsChunked(v) <==> EqualsIgnoreCase(coding, CHUNKED)
    ensures IsChunkedAsWritten(v) <==> coding == CHUNKED
  {
    LastPieceAfterComma(codings, lead + coding + trail);
    TrimPadded(lead, coding, trail, IsAsciiWhitespace);
    LastPieceDecides(v, coding);
  }

  /** The same for a value holding one coding only. */
  lemma OnlyCodingDecides(v: seq<Byte>, lead: seq<Byte>, coding: seq<Byte>, trail: seq<Byte>)
    requires v == lead + coding + trail
    requires AllSatisfy(lead, IsAsciiWhitespace) && AllSatisfy(trail, IsAsciiWhitespace)
    requires coding != [] && !IsAsciiWhitespace(coding[0]) && !IsAsciiWhitespace(coding[|coding| - 1])
    requires NoComma(v)
    ensures IsChunked(v) <==> EqualsIgnoreCase(coding, CHUNKED)
    ensures IsChunkedAsWritten(v) <==> coding == CHUNKED
  {
    LastPieceAfterComma([], v);
    TrimPadded(lead, coding, trail, IsAsciiWhitespace);
    LastPieceDecides(v, coding);
  }

  /**
   * The first case of the source's own `is_chunked` test, for any coding
   * `c` standing in for `gzip`: `c, chunked` is chunked (`k` is `chunked`).
   */
  lemma ChunkedLast(c: seq<Byte>, k: seq<Byte>)
    requires k == CHUNKED
    ensures IsChunkedAsWritten(c + [COMMA, SP] + k)
  {
    assert NoComma([SP] + k + []) by {
      assert [SP] + k + [] == [SP, 99, 104, 117, 110, 107, 101, 100];
    }
    CommaSpace(c, k);
    LastCodingDecides(c + [COMMA, SP] + k, c, [SP], k, []);
  }

  /**
   * The other cases of that test: for a coding `c` other than `chunked`,
   * neither `chunked, c` nor `c` alone is chunked.
   */
  lemma ChunkedNotLast(c: seq<Byte>, k: seq<Byte>)
    requires c != [] && NoComma(c) && !IsAsciiWhitespace(c[0]) && !IsAsciiWhitespace(c[|c| - 1])
    requires k == CHUNKED && c != k
    ensures !IsChunkedAsWritten(k + [COMMA, SP] + c)
    ensures !IsChunkedAsWritten(c)
  {
    assert NoComma([SP] + c + []) by {
      assert [SP] + c + [] == [SP] + c;
    }
    CommaSpace(k, c);
    LastCodingDecides(k + [COMMA, SP] + c, k, [SP], c, []);
    assert c == [] + c + [];
    OnlyCodingDecides(c, [], c, []);
  }

  lemma CommaSpace(a: seq<Byte>, b: seq<Byte>)
    ensures a + [COMMA, SP] + b == a + [COMMA] + ([SP] + b + [])
  {
  }

  /** `Chunked` */
  const CAPITALISED_CHUNKED: seq<Byte> := [67, 104, 117, 110, 107, 101, 100]

  /**
   * As written, `Transfer-Encoding: Chunked` is not taken for chunked
   * coding, so the request is read as having no body; the corrected test
   * accepts it. On every value the as-written test accepts, the two agree.
   */
  lemma CapitalisedChunkedAsWritten(v: seq<Byte>, w: seq<Byte>)
    requires w == CAPITALISED_CHUNKED
    ensures !IsChunkedAsWritten(w) && IsChunked(w)
    ensures IsChunkedAsWritten(v) ==> IsChunked(v)
  {
    assert w == [] + w + [];
    OnlyCodingDecides(w, [], w, []);
    CapitalisedMatches();
  }

  /**
   * A request that needs a body and carries `Transfer-Encoding: Chunked`
   * alone is read by the source as having no body, and as chunked once the
   * coding name is compared case-insensitively.
   */
  lemma CapitalisedRequestHasNoBody(head: RequestHeader)
    requires Valid(head.headers) && NeedBody(head.requestMethod) && !ContainsKey(head.headers, CONTENT_LENGTH)
    requires Get(head.headers, TRANSFER_ENCODING) == Some(CAPITALISED_CHUNKED)
    ensures ParsePayload(head) == Ok(Empty)
    ensures ParsePayloadIgnoringCase(head) == Ok(Chunked)
  {
    CapitalisedChunkedAsWritten(CAPITALISED_CHUNKED, CAPITALISED_CHUNKED);
  }

  lemma CapitalisedMatches()
    ensures EqualsIgnoreCase(CAPITALISED_CHUNKED, CHUNKED) && CAPITALISED_CHUNKED != CHUNKED
  {
    assert CAPITALISED_CHUNKED[0] != CHUNKED[0];
  }
}
