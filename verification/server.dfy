/**
 * The web crate's server as a connection handler: building it from its
 * builder, and answering a request by routing on the URI's path and
 * invoking the first route item whose filter accepts the request, or the
 * default handler.
 */
module Servers {
  import opened Wrappers
  import opened Bytes
  import opened HeaderMaps
  import opened Requests
  import opened HeaderEncoder
  import opened Filters
  import opened HandlerWrappers
  import opened Routing
  import opened WebBodies
  import opened Responders

  /** A handler, seen from the server: it answers a request head. */
  type Handler = RequestHeader -> WebResponse

  /** A bind address, as resolved by the caller. */
  type SocketAddr = string

  datatype ServerBuilder = ServerBuilder(router: Option<Router<Handler>>, defaultHandler: Option<Handler>, address: Option<seq<SocketAddr>>)

  datatype Server = Server(router: Router<Handler>, defaultHandler: Handler, address: seq<SocketAddr>)

  datatype ServerBuildError = MissingRouter | MissingAddress

  function NewServerBuilder(): (b: ServerBuilder)
    ensures b.router.None? && b.defaultHandler.None? && b.address.None?
  {
    ServerBuilder(None, None, None)
  }

  const NOT_FOUND: StatusCode := 404
  /** `404 Not Found` */
  const NOT_FOUND_TEXT: seq<Byte> := [52, 48, 52, 32, 78, 111, 116, 32, 70, 111, 117, 110, 100]

  /** The handler used when none was set: it answers 404 whatever the request. */
  function NotFoundHandler(): Handler
  {
    _ => RespondTo(StatusFirst(NOT_FOUND, Text(NOT_FOUND_TEXT)))
  }

  /** The default handler answers 404 as plain text, whatever was asked. */
  lemma NotFoundAnswers(req: RequestHeader)
    ensures var r := NotFoundHandler()(req);
            && r.status == 404
            && Iter(r.headers) == [(CONTENT_TYPE, TEXT_PLAIN_UTF_8)]
            && r.body == OnceOf(NOT_FOUND_TEXT)
  {
    TextResponds(NOT_FOUND_TEXT);
  }

  /**
   * `ServerBuilder::build`: a missing router is reported before a missing
   * address; without a default handler, the 404 handler is installed.
   */
  function Build(b: ServerBuilder): (r: Result<Server, ServerBuildError>)
    ensures b.router.None? <==> r == Err(MissingRouter)
    ensures b.router.Some? && b.address.None? <==> r == Err(MissingAddress)
    ensures r.Ok? <==> b.router.Some? && b.address.Some?
    ensures r.Ok? ==> r.value.router == b.router.value && r.value.address == b.address.value
    ensures r.Ok? && b.defaultHandler.Some? ==> r.value.defaultHandler == b.defaultHandler.value
    ensures r.Ok? && b.defaultHandler.None? ==> r.value.defaultHandler == NotFoundHandler()
  {
    var handler := if b.defaultHandler.None? then NotFoundHandler() else b.defaultHandler.value;
    if b.router.None? then Err(MissingRouter)
    else if b.address.None? then Err(MissingAddress)
    else Ok(Server(b.router.value, handler, b.address.value))
  }

  /** Index of the first `?` or `#` in `s`, or `|s|`: where the path stops. */
  function PathEnd(s: string): (i: nat)
    ensures i <= |s|
    ensures '?' !in s[..i] && '#' !in s[..i]
    ensures i < |s| ==> s[i] == '?' || s[i] == '#'
  {
    if s == [] then 0
    else if s[0] == '?' || s[0] == '#' then 0
    else 1 + PathEnd(s[1..])
  }

  /**
   * `Uri::path` of an origin-form request target: everything before the
   * query, and `/` when that is empty. The `http` crate's parser drops a
   * `#` fragment before the path is read, so a fragment ends the path too.
   */
  function UriPath(uri: string): (p: string)
    ensures p != [] && '?' !in p && '#' !in p
    ensures p == "/" || p == uri[..PathEnd(uri)]
  {
    var p := uri[..PathEnd(uri)];
    if p == [] then "/" else p
  }

  /** The query does not take part in routing. */
  lemma {:induction false} QueryIgnored(path: string, query: string)
    requires path != [] && '?' !in path && '#' !in path
    ensures UriPath(path + "?" + query) == path
    ensures UriPath(path) == path
  {
    PathEndAfter(path, "?" + query);
    assert (path + "?" + query)[..|path|] == path;
    PathEndAfter(path, []);
    assert path + [] == path;
  }

  /** Nor does a fragment. */
  lemma {:induction false} FragmentIgnored(path: string, fragment: string)
    requires path != [] && '?' !in path && '#' !in path
    ensures UriPath(path + "#" + fragment) == path
  {
    PathEndAfter(path, "#" + fragment);
    assert (path + "#" + fragment)[..|path|] == path;
  }

  lemma {:induction false} PathEndAfter(path: string, rest: string)
    requires '?' !in path && '#' !in path
    requires rest == [] || rest[0] == '?' || rest[0] == '#'
    ensures PathEnd(path + rest) == |path|
    decreases |path|
  {
    if path == [] {
      assert path + rest == rest;
    } else {
      assert (path + rest)[0] == path[0];
      assert (path + rest)[1..] == path[1..] + rest;
      PathEndAfter(path[1..], rest);
    }
  }

  /** The first item whose filter accepts the request, if any. */
  function FirstMatch(items: seq<RouterItem<Handler>>, req: RequestHeader): (r: Option<nat>)
    requires Valid(req.headers)
    ensures r.Some? ==> r.value < |items| && Matches(items[r.value].filter, req)
    ensures r.Some? ==> forall j | 0 <= j < r.value :: !Matches(items[j].filter, req)
    ensures r.None? ==> forall j | 0 <= j < |items| :: !Matches(items[j].filter, req)
    decreases |items|
  {
    if items == [] then None
    else if Matches(items[0].filter, req) then Some(0)
    else
      match FirstMatch(items[1..], req)
      case None => None
      case Some(i) => Some(i + 1)
  }

  /** The handler a request is given to. */
  function Select(s: Server, req: RequestHeader): (h: Handler)
    requires Valid(req.headers)
    ensures var items := At(s.router, UriPath(req.uri)).items;
            (forall j | 0 <= j < |items| :: !Matches(items[j].filter, req)) ==> h == s.defaultHandler
    ensures var items := At(s.router, UriPath(req.uri)).items;
            forall i | 0 <= i < |items| && Matches(items[i].filter, req) && (forall j | 0 <= j < i :: !Matches(items[j].filter, req)) ::
              h == items[i].handler
  {
    var items := At(s.router, UriPath(req.uri)).items;
    match FirstMatch(items, req)
    case Some(i) => items[i].handler
    case None => s.defaultHandler
  }

  /** `Handler for Server::call`: the selected handler's response. */
  function Call(s: Server, req: RequestHeader): WebResponse
    requires Valid(req.headers)
  {
    Select(s, req)(req)
  }

  /**
   * A server built from a router builder answers a request with the first
   * item routed at the request's path, in routing order, whose conditions
   * all hold, through the builder's wrapper chain; when none holds, or
   * nothing is routed there, the default handler answers.
   */
  lemma ServerCallsFirstMatchingRoute(rb: RouterBuilder<Handler>, sb: ServerBuilder, req: RequestHeader)
    requires Valid(req.headers)
    requires sb.router == Some(Routing.Build(rb)) && sb.address.Some?
    ensures Build(sb).Ok?
    ensures var items := ItemsAt(rb, UriPath(req.uri));
            (forall j | 0 <= j < |items| :: !Matches(AllFilter(items[j].filters), req)) ==>
              Call(Build(sb).value, req) == Build(sb).value.defaultHandler(req)
    ensures var items := ItemsAt(rb, UriPath(req.uri));
            forall i | 0 <= i < |items| && Matches(AllFilter(items[i].filters), req) &&
                       (forall j | 0 <= j < i :: !Matches(AllFilter(items[j].filters), req)) ::
              Call(Build(sb).value, req) == Wrap(rb.wrappers, items[i].handler)(req)
  {
    var s := Build(sb).value;
    var path := UriPath(req.uri);
    var items := ItemsAt(rb, path);
    var built := At(s.router, path).items;
    assert built == BuildItems(items, rb.wrappers);
    var m := FirstMatch(built, req);
    forall i | 0 <= i < |items| && Matches(AllFilter(items[i].filters), req) &&
               (forall j | 0 <= j < i :: !Matches(AllFilter(items[j].filters), req))
      ensures Call(s, req) == Wrap(rb.wrappers, items[i].handler)(req)
    {
      assert built[i].filter == AllFilter(items[i].filters);
      assert m.Some?;
      assert m == Some(i);
    }
  }

  /**
   * Without a default handler, a request nothing routed accepts is answered
   * 404 as plain text.
   */
  lemma UnroutedIsNotFound(sb: ServerBuilder, req: RequestHeader)
    requires Valid(req.headers)
    requires sb.router.Some? && sb.address.Some? && sb.defaultHandler.None?
    requires var items := At(sb.router.value, UriPath(req.uri)).items;
             forall j | 0 <= j < |items| :: !Matches(items[j].filter, req)
    ensures Build(sb).Ok?
    ensures Call(Build(sb).value, req).status == NOT_FOUND
    ensures Call(Build(sb).value, req).body == OnceOf(NOT_FOUND_TEXT)
  {
    NotFoundAnswers(req);
  }
}
