/**
 * The router of the web crate: a builder collects, per path, route items
 * (an AND chain of filters and a handler) in the order they are added, and
 * `build` wraps every handler with the builder's wrapper chain. A path
 * stands for itself: path patterns with parameters are not modelled, so a
 * route result carries no parameters.
 */
module Routing {
  import opened Wrappers
  import opened HeaderMaps
  import opened Requests
  import opened Filters
  import opened HandlerWrappers

  /** `RouterItemBuilder`: the members of its AND filter, and its handler. */
  datatype ItemBuilder<H> = ItemBuilder(filters: seq<Filter>, handler: H)

  datatype RouterItem<H> = RouterItem(filter: Filter, handler: H)

  datatype RouterBuilder<!H> = RouterBuilder(data: map<string, seq<ItemBuilder<H>>>, wrappers: Wrapper<H>)

  datatype Router<H> = Router(routes: map<string, seq<RouterItem<H>>>)

  /** The items routed at a path, and the path parameters matched (none, here). */
  datatype RouteResult<H> = RouteResult(items: seq<RouterItem<H>>, params: seq<(string, string)>)

  /** `Router::builder()`: no routes, and the default (identity) wrapper chain. */
  function NewBuilder<H>(): (b: RouterBuilder<H>)
    ensures b.data == map[]
    ensures Layers(b.wrappers) == []
  {
    RouterBuilder(map[], Default())
  }

  /** The items a builder holds under `path` so far. */
  function ItemsAt<H>(b: RouterBuilder<H>, path: string): seq<ItemBuilder<H>>
  {
    if path in b.data then b.data[path] else []
  }

  /** `RouterBuilder::route`: the item goes after those already under its path. */
  function Route<H>(b: RouterBuilder<H>, path: string, item: ItemBuilder<H>): (r: RouterBuilder<H>)
    ensures r.data.Keys == b.data.Keys + {path}
    ensures r.data[path] == ItemsAt(b, path) + [item]
    ensures forall p | p in b.data && p != path :: r.data[p] == b.data[p]
    ensures r.wrappers == b.wrappers
  {
    b.(data := b.data[path := ItemsAt(b, path) + [item]])
  }

  /** `RouterBuilder::wrap`: the wrapper is applied after the chain so far. */
  function WrapWith<H>(b: RouterBuilder<H>, w: Wrapper<H>): (r: RouterBuilder<H>)
    ensures r.data == b.data
    ensures Layers(r.wrappers) == Layers(b.wrappers) + Layers(w)
  {
    b.(wrappers := AndThen(b.wrappers, w))
  }

  /** `get`, `post`, … `trace`: an item whose AND filter holds exactly the method filter. */
  function ForMethod<H>(m: Method, handler: H): (item: ItemBuilder<H>)
    ensures item.handler == handler
    ensures forall req: RequestHeader | Valid(req.headers) :: Matches(AllFilter(item.filters), req) <==> req.requestMethod == m
  {
    var item := ItemBuilder([MethodFilter(m)], handler);
    assert item.filters[0] == MethodFilter(m);
    item
  }

  /** `RouterItemBuilder::with`: one more condition in the item's AND filter. */
  function With<H>(item: ItemBuilder<H>, f: Filter): (r: ItemBuilder<H>)
    ensures r.handler == item.handler
    ensures forall req: RequestHeader | Valid(req.headers) ::
              Matches(AllFilter(r.filters), req) <==> Matches(AllFilter(item.filters), req) && Matches(f, req)
  {
    var r := item.(filters := Extend(item.filters, f));
    assert forall req: RequestHeader | Valid(req.headers) ::
             Matches(AllFilter(r.filters), req) <==> Matches(AllFilter(item.filters), req) && Matches(f, req) by {
      forall req: RequestHeader | Valid(req.headers)
        ensures Matches(AllFilter(r.filters), req) <==> Matches(AllFilter(item.filters), req) && Matches(f, req)
      {
        AndMatches(item.filters, f, req);
      }
    }
    r
  }

  function BuildItems<H>(items: seq<ItemBuilder<H>>, w: Wrapper<H>): (r: seq<RouterItem<H>>)
    ensures |r| == |items|
    ensures forall i | 0 <= i < |items| :: r[i] == RouterItem(AllFilter(items[i].filters), Wrap(w, items[i].handler))
  {
    seq(|items|, i requires 0 <= i < |items| => RouterItem(AllFilter(items[i].filters), Wrap(w, items[i].handler)))
  }

  /**
   * `RouterBuilder::build`: every path keeps its items in order, each with
   * its AND filter and its handler passed through the wrapper chain.
   */
  function Build<H>(b: RouterBuilder<H>): (r: Router<H>)
    ensures r.routes.Keys == b.data.Keys
    ensures forall p | p in b.data :: r.routes[p] == BuildItems(b.data[p], b.wrappers)
  {
    Router(map p | p in b.data :: BuildItems(b.data[p], b.wrappers))
  }

  /** `Router::at`: the items of the path, and an empty result for a path nothing was routed at. */
  function At<H>(r: Router<H>, path: string): (res: RouteResult<H>)
    ensures path in r.routes ==> res.items == r.routes[path]
    ensures path !in r.routes ==> res.items == [] && res.params == []
  {
    if path in r.routes then RouteResult(r.routes[path], []) else RouteResult([], [])
  }

  /** A run of `route` calls. */
  function RouteAll<H>(b: RouterBuilder<H>, routes: seq<(string, ItemBuilder<H>)>): RouterBuilder<H>
    decreases |routes|
  {
    if routes == [] then b else RouteAll(Route(b, routes[0].0, routes[0].1), routes[1..])
  }

  /** The items of a run of `route` calls that name `path`, in call order. */
  function Named<H>(routes: seq<(string, ItemBuilder<H>)>, path: string): seq<ItemBuilder<H>>
    decreases |routes|
  {
    if routes == [] then []
    else (if routes[0].0 == path then [routes[0].1] else []) + Named(routes[1..], path)
  }

  /**
   * Repeated paths accumulate: after any run of `route` calls, a path holds
   * the items it held before followed by the items routed at it, in call
   * order, and nothing else.
   */
  lemma {:induction false} RoutesAccumulate<H>(b: RouterBuilder<H>, routes: seq<(string, ItemBuilder<H>)>, path: string)
    ensures ItemsAt(RouteAll(b, routes), path) == ItemsAt(b, path) + Named(routes, path)
    decreases |routes|
  {
    if routes != [] {
      var b1 := Route(b, routes[0].0, routes[0].1);
      RoutesAccumulate(b1, routes[1..], path);
      if routes[0].0 == path {
        assert ItemsAt(b1, path) == ItemsAt(b, path) + [routes[0].1];
      } else {
        assert ItemsAt(b1, path) == ItemsAt(b, path);
      }
    } else {
      assert ItemsAt(b, path) + [] == ItemsAt(b, path);
    }
  }
}
