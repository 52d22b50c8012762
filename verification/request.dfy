/**
 * The parsed head of a request: method, request target, protocol version
 * and header fields, and the rule for which methods carry a body.
 */
module Requests {
  import opened Bytes
  import opened HeaderMaps

  datatype Method =
    | GET | HEAD | POST | PUT | DELETE | CONNECT | OPTIONS | TRACE | PATCH
    | ExtensionMethod(token: string)

  datatype Version = Http09 | Http10 | Http11 | Http2 | Http3

  datatype RequestHeader = RequestHeader(requestMethod: Method, uri: string, version: Version, headers: HeaderMap)

  /** The method a request-line token names; tokens other than the standard ones are extension methods. */
  function MethodFromToken(t: string): (m: Method)
    ensures m.ExtensionMethod? ==> m.token == t
    ensures MethodName(m) == t
  {
    if t == "GET" then GET
    else if t == "HEAD" then HEAD
    else if t == "POST" then POST
    else if t == "PUT" then PUT
    else if t == "DELETE" then DELETE
    else if t == "CONNECT" then CONNECT
    else if t == "OPTIONS" then OPTIONS
    else if t == "TRACE" then TRACE
    else if t == "PATCH" then PATCH
    else ExtensionMethod(t)
  }

  function MethodName(m: Method): string
  {
    match m
    case GET => "GET"
    case HEAD => "HEAD"
    case POST => "POST"
    case PUT => "PUT"
    case DELETE => "DELETE"
    case CONNECT => "CONNECT"
    case OPTIONS => "OPTIONS"
    case TRACE => "TRACE"
    case PATCH => "PATCH"
    case ExtensionMethod(t) => t
  }

  /**
   * Whether a request with this method may carry a body the server has to
   * read: every method except GET, HEAD, DELETE, OPTIONS and CONNECT.
   */
  predicate NeedBody(m: Method)
  {
    !(m == GET || m == HEAD || m == DELETE || m == OPTIONS || m == CONNECT)
  }

  /** The version conversion of `RequestHeader::from(httparse::Request)`: minor 1 and 0, anything else HTTP/0.9. */
  function VersionFromMinor(minor: nat): (v: Version)
    ensures minor == 1 <==> v == Http11
    ensures minor == 0 <==> v == Http10
    ensures minor > 1 <==> v == Http09
  {
    if minor == 1 then Http11 else if minor == 0 then Http10 else Http09
  }

  /** Naming the method back gives the request-line token, so parsing a method is lossless. */
  lemma MethodTokenRoundTrip(m: Method)
    requires m.ExtensionMethod? ==> MethodFromToken(m.token) == m
    ensures MethodFromToken(MethodName(m)) == m
  {
  }

  /**
   * The header map built from the tokenised fields, in order: each name is
   * lower-cased, as `HeaderName` stores it, and each value is appended.
   */
  function HeadersFrom(fields: seq<(seq<Byte>, seq<Byte>)>): (m: HeaderMap)
    ensures Valid(m)
  {
    if fields == [] then Empty()
    else
      var last := fields[|fields| - 1];
      Append(HeadersFrom(fields[..|fields| - 1]), LowerCase(last.0), last.1)
  }

  /** The values of the fields whose lower-cased name is `name`, in order. */
  function ValuesNamed(fields: seq<(seq<Byte>, seq<Byte>)>, name: seq<Byte>): seq<seq<Byte>>
  {
    if fields == [] then []
    else
      var last := fields[|fields| - 1];
      ValuesNamed(fields[..|fields| - 1], name) + (if LowerCase(last.0) == name then [last.1] else [])
  }

  /** Every tokenised field is kept: the map holds as many values as there were fields. */
  lemma {:induction false} HeadersFromLen(fields: seq<(seq<Byte>, seq<Byte>)>)
    ensures Len(HeadersFrom(fields)) == |fields|
  {
    if fields != [] {
      var last := fields[|fields| - 1];
      HeadersFromLen(fields[..|fields| - 1]);
      AppendLen(HeadersFrom(fields[..|fields| - 1]), LowerCase(last.0), last.1);
    }
  }

  /** Looking a name up gives the values of exactly the fields of that name, in arrival order. */
  lemma {:induction false} HeadersFromValues(fields: seq<(seq<Byte>, seq<Byte>)>, name: seq<Byte>)
    ensures GetAll(HeadersFrom(fields), name) == ValuesNamed(fields, name)
  {
    if fields != [] {
      HeadersFromValues(fields[..|fields| - 1], name);
    }
  }

  /**
   * `RequestHeader::from(httparse::Request)`: the method, path and version
   * the tokeniser found, and every field in order.
   */
  function FromParsed(token: string, path: string, minor: nat, fields: seq<(seq<Byte>, seq<Byte>)>): (h: RequestHeader)
    ensures MethodName(h.requestMethod) == token && h.uri == path
    ensures h.version == VersionFromMinor(minor)
    ensures Len(h.headers) == |fields|
    ensures forall name :: GetAll(h.headers, name) == ValuesNamed(fields, name)
  {
    HeadersFromLen(fields);
    forall name ensures GetAll(HeadersFrom(fields), name) == ValuesNamed(fields, name) {
      HeadersFromValues(fields, name);
    }
    RequestHeader(MethodFromToken(token), path, VersionFromMinor(minor), HeadersFrom(fields))
  }
}
