/**
 * Request filters of the web crate: constants, a method test, a header
 * test, a closure, and AND / OR chains of filters. A filter looks at the
 * request head only.
 */
module Filters {
  import opened Wrappers
  import opened Bytes
  import opened HeaderMaps
  import opened Requests

  datatype Filter =
    | TrueFilter
    | FalseFilter
    | AnyFilter(anyOf: seq<Filter>)
    | AllFilter(allOf: seq<Filter>)
    | MethodFilter(verb: Method)
    | HeaderFilter(name: seq<Byte>, value: seq<Byte>)
    | FnFilter(test: RequestHeader -> bool)

  /**
   * What a filter answers for a request: an empty chain of either kind
   * matches, an OR chain when some member matches, an AND chain when every
   * member does, a header filter when the field's first value is the given
   * one.
   */
  predicate Matches(f: Filter, req: RequestHeader)
    requires Valid(req.headers)
    decreases f
  {
    match f
    case TrueFilter => true
    case FalseFilter => false
    case AnyFilter(fs) => fs == [] || exists i | 0 <= i < |fs| :: Matches(fs[i], req)
    case AllFilter(fs) => forall i | 0 <= i < |fs| :: Matches(fs[i], req)
    case MethodFilter(m) => req.requestMethod == m
    case HeaderFilter(n, v) => Get(req.headers, n) == Some(v)
    case FnFilter(test) => test(req)
  }

  /**
   * `AnyFilter::matches`: true for an empty chain, otherwise the members are
   * tried in order and the first that matches decides.
   */
  method AnyMatches(fs: seq<Filter>, req: RequestHeader) returns (b: bool)
    requires Valid(req.headers)
    ensures b <==> fs == [] || exists i | 0 <= i < |fs| :: Matches(fs[i], req)
  {
    if fs == [] {
      return true;
    }
    var k := 0;
    while k < |fs|
      invariant 0 <= k <= |fs|
      invariant forall i | 0 <= i < k :: !Matches(fs[i], req)
    {
      if Matches(fs[k], req) {
        return true;
      }
      k := k + 1;
    }
    return false;
  }

  /**
   * `AllFilter::matches`: the members are tried in order and the first that
   * fails decides; an empty chain matches.
   */
  method AllMatches(fs: seq<Filter>, req: RequestHeader) returns (b: bool)
    requires Valid(req.headers)
    ensures b <==> forall i | 0 <= i < |fs| :: Matches(fs[i], req)
  {
    var k := 0;
    while k < |fs|
      invariant 0 <= k <= |fs|
      invariant forall i | 0 <= i < k :: Matches(fs[i], req)
    {
      if !Matches(fs[k], req) {
        return false;
      }
      k := k + 1;
    }
    return true;
  }

  /**
   * `AllFilter::and` and `AnyFilter::or` alike: one more member, after the
   * others. What that does to matching differs, as the two lemmas below say.
   */
  function Extend(fs: seq<Filter>, f: Filter): (r: seq<Filter>)
    ensures |r| == |fs| + 1 && r[..|fs|] == fs && r[|fs|] == f
  {
    fs + [f]
  }

  /** Adding a member to an AND chain narrows it by exactly that member. */
  lemma AndMatches(all: seq<Filter>, f: Filter, req: RequestHeader)
    requires Valid(req.headers)
    ensures Matches(AllFilter(Extend(all, f)), req) <==> Matches(AllFilter(all), req) && Matches(f, req)
  {
    var r := Extend(all, f);
    if Matches(AllFilter(all), req) && Matches(f, req) {
      forall i | 0 <= i < |r| ensures Matches(r[i], req) {
        if i < |all| { assert r[i] == all[i]; }
      }
    }
    if Matches(AllFilter(r), req) {
      forall i | 0 <= i < |all| ensures Matches(all[i], req) {
        assert all[i] == r[i];
      }
    }
  }

  /**
   * Adding a member to an OR chain widens it by that member, except that
   * the first member replaces the empty chain's "matches everything".
   */
  lemma OrMatches(any: seq<Filter>, f: Filter, req: RequestHeader)
    requires Valid(req.headers)
    ensures Matches(AnyFilter(Extend(any, f)), req)
            <==> if any == [] then Matches(f, req) else Matches(AnyFilter(any), req) || Matches(f, req)
  {
    var r := Extend(any, f);
    if Matches(AnyFilter(r), req) {
      var i :| 0 <= i < |r| && Matches(r[i], req);
      if i < |any| { assert any[i] == r[i]; }
    }
    if any != [] && Matches(AnyFilter(any), req) {
      var i :| 0 <= i < |any| && Matches(any[i], req);
      assert r[i] == any[i];
    }
    if Matches(f, req) {
      assert r[|any|] == f;
    }
  }

  /** The method filters of the `get_method` … `trace_method` constructors match exactly their method. */
  lemma MethodFilterMatches(m: Method, req: RequestHeader)
    requires Valid(req.headers)
    ensures Matches(MethodFilter(m), req) <==> req.requestMethod == m
    ensures Matches(AllFilter([MethodFilter(m)]), req) <==> req.requestMethod == m
  {
    assert [MethodFilter(m)][0] == MethodFilter(m);
  }

  /** A header filter fails when the field is absent and otherwise compares only its first value. */
  lemma HeaderFilterMatches(name: seq<Byte>, value: seq<Byte>, req: RequestHeader)
    requires Valid(req.headers)
    ensures GetAll(req.headers, name) == [] ==> !Matches(HeaderFilter(name, value), req)
    ensures GetAll(req.headers, name) != [] ==>
              (Matches(HeaderFilter(name, value), req) <==> GetAll(req.headers, name)[0] == value)
  {
  }
}
