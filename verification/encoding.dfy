/**
 * Response compression of the web crate: choosing a content coding from
 * the request's `Accept-Encoding`, the rules under which a response is
 * left alone, and the rewrite of a response that is compressed. The
 * compressors themselves are a parameter.
 */
module Encoding {
  import opened Wrappers
  import opened Bytes
  import opened HeaderMaps
  import opened HeaderEncoder
  import opened SizeHints
  import opened Messages
  import opened Connection
  import opened WebBodies
  import opened Responders

  datatype Coding = Gzip | Deflate | Zstd | Br

  /** `gzip` */
  const GZIP: seq<Byte> := [103, 122, 105, 112]
  /** `deflate` */
  const DEFLATE: seq<Byte> := [100, 101, 102, 108, 97, 116, 101]
  /** `zstd` */
  const ZSTD: seq<Byte> := [122, 115, 116, 100]
  /** `br` */
  const BR: seq<Byte> := [98, 114]

  /** `accept-encoding` */
  const ACCEPT_ENCODING: seq<Byte> := [97, 99, 99, 101, 112, 116, 45, 101, 110, 99, 111, 100, 105, 110, 103]
  /** `content-encoding` */
  const CONTENT_ENCODING: seq<Byte> := [99, 111, 110, 116, 101, 110, 116, 45, 101, 110, 99, 111, 100, 105, 110, 103]

  const SWITCHING_PROTOCOLS: StatusCode := 101
  const NO_CONTENT: StatusCode := 204

  /** Bodies whose size is known to be at most this many bytes are not compressed. */
  const COMPRESS_THRESHOLD: nat := 1024

  /** `Encoder::name`: the coding's token. */
  function Name(c: Coding): (n: seq<Byte>)
    ensures n != []
  {
    match c
    case Gzip => GZIP
    case Deflate => DEFLATE
    case Zstd => ZSTD
    case Br => BR
  }

  /**
   * `Encoder::select`: the first of zstd, br, gzip, deflate whose token
   * occurs anywhere in the field value; substrings count, quality values
   * are not read.
   */
  function Select(accept: seq<Byte>): (r: Option<Coding>)
    ensures r == Some(Zstd) <==> Contains(accept, ZSTD)
    ensures r == Some(Br) <==> !Contains(accept, ZSTD) && Contains(accept, BR)
    ensures r == Some(Gzip) <==> !Contains(accept, ZSTD) && !Contains(accept, BR) && Contains(accept, GZIP)
    ensures r == Some(Deflate) <==> !Contains(accept, ZSTD) && !Contains(accept, BR) && !Contains(accept, GZIP) && Contains(accept, DEFLATE)
    ensures r.Some? ==> Contains(accept, Name(r.value))
  {
    if Contains(accept, ZSTD) then Some(Zstd)
    else if Contains(accept, BR) then Some(Br)
    else if Contains(accept, GZIP) then Some(Gzip)
    else if Contains(accept, DEFLATE) then Some(Deflate)
    else None
  }

  /** A field value naming a single coding selects that coding. */
  lemma SelectName(c: Coding)
    ensures Select(Name(c)) == Some(c)
  {
    assert Contains(Name(c), Name(c)) by {
      assert Name(c)[..|Name(c)|] == Name(c);
    }
    match c
    case Zstd =>
    case Br => ShorterLacks(BR, ZSTD);
    case Gzip => GzipLacksOthers();
    case Deflate => DeflateLacksOthers();
  }

  lemma GzipLacksOthers()
    ensures !Contains(GZIP, ZSTD) && !Contains(GZIP, BR)
  {
    LacksByte(GZIP, ZSTD, 1);
    LacksByte(GZIP, BR, 0);
  }

  lemma DeflateLacksOthers()
    ensures !Contains(DEFLATE, ZSTD) && !Contains(DEFLATE, BR) && !Contains(DEFLATE, GZIP)
  {
    LacksByte(DEFLATE, ZSTD, 0);
    LacksByte(DEFLATE, BR, 0);
    LacksByte(DEFLATE, GZIP, 0);
  }

  /** A text lacking one of a needle's bytes does not contain the needle. */
  lemma LacksByte(s: seq<Byte>, needle: seq<Byte>, j: nat)
    requires j < |needle| && needle[j] !in s
    ensures !Contains(s, needle)
  {
    if Contains(s, needle) {
      ContainedBytes(s, needle, j);
    }
  }

  /** A needle longer than the text does not occur in it. */
  lemma {:induction false} ShorterLacks(s: seq<Byte>, needle: seq<Byte>)
    requires |s| < |needle|
    ensures !Contains(s, needle)
    decreases |s|
  {
    if s != [] {
      ShorterLacks(s[1..], needle);
    }
  }

  /** Every byte of a needle that occurs in a text is a byte of the text. */
  lemma {:induction false} ContainedBytes(s: seq<Byte>, needle: seq<Byte>, j: nat)
    requires Contains(s, needle) && j < |needle|
    ensures needle[j] in s
    decreases |s|
  {
    if StartsWith(s, needle) {
      assert s[j] == needle[j];
    } else {
      ContainedBytes(s[1..], needle, j);
    }
  }

  /** `HeaderValue::to_str` succeeds: every byte is visible ASCII or a tab. */
  predicate IsVisibleAscii(v: seq<Byte>)
  {
    forall i | 0 <= i < |v| :: (32 <= v[i] < 127) || v[i] == 9
  }

  /**
   * The coding a response is to be compressed with, if any, given whether
   * the response counts as already encoded. In order: 204 and 101 are
   * left alone; so is an encoded response; then the request must carry an
   * `Accept-Encoding` that is visible ASCII and names a coding; then the
   * body must not be empty nor known to be at most 1024 bytes.
   */
  function Choose(status: StatusCode, encoded: bool, req: HeaderMap, body: ResponseBody, isEmpty: ResponseBody -> bool): (r: Option<Coding>)
    requires Valid(req)
    ensures r.Some? ==> status != NO_CONTENT && status != SWITCHING_PROTOCOLS && !encoded && !isEmpty(body)
    ensures r.Some? ==> Get(req, ACCEPT_ENCODING).Some? && r == Select(Get(req, ACCEPT_ENCODING).value)
    ensures r.Some? ==> Hint(body).upper.None? || Hint(body).upper.value > COMPRESS_THRESHOLD
  {
    if status == NO_CONTENT || status == SWITCHING_PROTOCOLS then None
    else if encoded then None
    else match Get(req, ACCEPT_ENCODING)
      case None => None
      case Some(v) =>
        if !IsVisibleAscii(v) then None
        else match Select(v)
          case None => None
          case Some(c) =>
            if isEmpty(body) then None
            else if Hint(body).upper.Some? && Hint(body).upper.value <= COMPRESS_THRESHOLD then None
            else Some(c)
  }

  /**
   * Every response the rules let through is compressed: the converse of
   * `Choose`'s guarantees.
   */
  lemma ChooseComplete(status: StatusCode, encoded: bool, req: HeaderMap, body: ResponseBody, isEmpty: ResponseBody -> bool)
    requires Valid(req)
    requires status != NO_CONTENT && status != SWITCHING_PROTOCOLS && !encoded && !isEmpty(body)
    requires Get(req, ACCEPT_ENCODING).Some? && IsVisibleAscii(Get(req, ACCEPT_ENCODING).value)
    requires Select(Get(req, ACCEPT_ENCODING).value).Some?
    requires Hint(body).upper.None? || Hint(body).upper.value > COMPRESS_THRESHOLD
    ensures Choose(status, encoded, req, body, isEmpty) == Select(Get(req, ACCEPT_ENCODING).value)
  {
  }

  /** A compressor: the frames of the encoded body, given the coding and the original frames. */
  type Compressor = (Coding, seq<BodyFrame>) -> seq<BodyFrame>

  /**
   * The rewrite of a response compressed with `c`: `Content-Length` goes,
   * `Content-Encoding: <c>` is appended, and the body becomes a stream of
   * unknown size that ends when the original body does.
   */
  function Compress(resp: WebResponse, c: Coding, compress: Compressor): (r: WebResponse)
    requires Valid(resp.headers)
    ensures Valid(r.headers) && r.status == resp.status
    ensures GetAll(r.headers, CONTENT_LENGTH) == []
    ensures GetAll(r.headers, CONTENT_ENCODING) == GetAll(resp.headers, CONTENT_ENCODING) + [Name(c)]
    ensures forall k | k != CONTENT_LENGTH && k != CONTENT_ENCODING :: GetAll(r.headers, k) == GetAll(resp.headers, k)
    ensures Frames(r.body) == compress(c, Frames(resp.body))
    ensures Exact(Hint(r.body)).None? && IsEndStream(r.body) == IsEndStream(resp.body)
  {
    var headers := Append(Remove(resp.headers, CONTENT_LENGTH), CONTENT_ENCODING, Name(c));
    WebResponse(resp.status, headers, Stream(Unknown(), compress(c, Frames(resp.body)), IsEndStream(resp.body)))
  }

  /** `encode` as written: "already encoded" is read from the request's fields. */
  function EncodeAsWritten(req: HeaderMap, resp: WebResponse, isEmpty: ResponseBody -> bool, compress: Compressor): (r: WebResponse)
    requires Valid(req) && Valid(resp.headers)
    ensures Valid(r.headers)
    ensures r.status == resp.status
  {
    match Choose(resp.status, ContainsKey(req, CONTENT_ENCODING), req, resp.body, isEmpty)
    case None => resp
    case Some(c) => Compress(resp, c, compress)
  }

  /** `encode`, reading "already encoded" from the response's own fields. */
  function Encode(req: HeaderMap, resp: WebResponse, isEmpty: ResponseBody -> bool, compress: Compressor): (r: WebResponse)
    requires Valid(req) && Valid(resp.headers)
    ensures Valid(r.headers)
    ensures r.status == resp.status
    ensures ContainsKey(resp.headers, CONTENT_ENCODING) ==> r == resp
  {
    match Choose(resp.status, ContainsKey(resp.headers, CONTENT_ENCODING), req, resp.body, isEmpty)
    case None => resp
    case Some(c) => Compress(resp, c, compress)
  }

  /**
   * A response is either returned untouched, or compressed with the coding
   * the request's `Accept-Encoding` selects, in which case it carries
   * exactly one more `Content-Encoding` than before (so exactly one, since
   * it had none), no `Content-Length`, and is sent chunked.
   */
  lemma EncodeOutcome(req: HeaderMap, resp: WebResponse, isEmpty: ResponseBody -> bool, compress: Compressor)
    requires Valid(req) && Valid(resp.headers)
    ensures var r := Encode(req, resp, isEmpty, compress);
            || r == resp
            || (&& Get(req, ACCEPT_ENCODING).Some?
                && Select(Get(req, ACCEPT_ENCODING).value).Some?
                && var c := Select(Get(req, ACCEPT_ENCODING).value).value;
                && GetAll(r.headers, CONTENT_ENCODING) == [Name(c)]
                && GetAll(r.headers, CONTENT_LENGTH) == []
                && Frames(r.body) == compress(c, Frames(resp.body))
                && ToPayloadSize(Hint(r.body)) == Chunked)
  {
    var r := Encode(req, resp, isEmpty, compress);
    if r != resp {
      var c := Choose(resp.status, ContainsKey(resp.headers, CONTENT_ENCODING), req, resp.body, isEmpty).value;
      assert GetAll(resp.headers, CONTENT_ENCODING) == [];
      assert ToPayloadSize(Hint(r.body)) == Chunked by {
        assert Hint(r.body) == Unknown();
      }
    }
  }

  /** Small responses, responses to requests that accept no coding, and 204/101 answers are never rewritten. */
  lemma SkipRules(req: HeaderMap, resp: WebResponse, isEmpty: ResponseBody -> bool, compress: Compressor)
    requires Valid(req) && Valid(resp.headers)
    requires || resp.status == NO_CONTENT || resp.status == SWITCHING_PROTOCOLS
             || Get(req, ACCEPT_ENCODING).None?
             || isEmpty(resp.body)
             || (Hint(resp.body).upper.Some? && Hint(resp.body).upper.value <= COMPRESS_THRESHOLD)
    ensures Encode(req, resp, isEmpty, compress) == resp
    ensures EncodeAsWritten(req, resp, isEmpty, compress) == resp
  {
  }

  /** A request that accepts gzip only. */
  function AcceptsGzip(): (m: HeaderMap)
    ensures Valid(m) && Get(m, ACCEPT_ENCODING) == Some(GZIP) && !ContainsKey(m, CONTENT_ENCODING)
  {
    var m := Insert(HeaderMaps.Empty(), ACCEPT_ENCODING, GZIP);
    assert m.entries == [Entry(ACCEPT_ENCODING, [GZIP])];
    m
  }

  /**
   * As written, a response that a handler already compressed with gzip,
   * streamed, is compressed a second time when the request accepts gzip:
   * it goes out with `Content-Encoding: gzip, gzip` and its frames are
   * compressed again. Reading the response's own fields leaves it as it is.
   */
  lemma AlreadyEncodedIsEncodedTwice(frames: seq<BodyFrame>, isEmpty: ResponseBody -> bool, compress: Compressor)
    requires !isEmpty(Stream(Unknown(), frames, false))
    ensures var resp := GzipResponse(frames);
            && GetAll(EncodeAsWritten(AcceptsGzip(), resp, isEmpty, compress).headers, CONTENT_ENCODING) == [GZIP, GZIP]
            && Frames(EncodeAsWritten(AcceptsGzip(), resp, isEmpty, compress).body) == compress(Gzip, frames)
            && Encode(AcceptsGzip(), resp, isEmpty, compress) == resp
  {
    var resp := GzipResponse(frames);
    GzipChosen(resp.body, isEmpty);
    assert EncodeAsWritten(AcceptsGzip(), resp, isEmpty, compress) == Compress(resp, Gzip, compress);
  }

  /** A streamed response of unknown size that a handler already compressed with gzip. */
  function GzipResponse(frames: seq<BodyFrame>): (r: WebResponse)
    ensures r.status == OK && r.body == Stream(Unknown(), frames, false)
    ensures Valid(r.headers) && GetAll(r.headers, CONTENT_ENCODING) == [GZIP]
  {
    WebResponse(OK, Insert(HeaderMaps.Empty(), CONTENT_ENCODING, GZIP), Stream(Unknown(), frames, false))
  }

  /** A streamed body of unknown size, for a request that accepts gzip, is given gzip when the request's fields are read. */
  lemma GzipChosen(body: ResponseBody, isEmpty: ResponseBody -> bool)
    requires body.Stream? && body.hint == Unknown() && !isEmpty(body)
    ensures Choose(OK, ContainsKey(AcceptsGzip(), CONTENT_ENCODING), AcceptsGzip(), body, isEmpty) == Some(Gzip)
  {
    assert IsVisibleAscii(GZIP);
    SelectName(Gzip);
    ChooseComplete(OK, false, AcceptsGzip(), body, isEmpty);
  }
}
