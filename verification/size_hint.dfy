/**
 * The body size hint of `http_body`: a lower bound and an optional upper
 * bound on the number of body bytes, exact when the two agree; and its
 * conversions to and from the codec's `PayloadSize`.
 */
module SizeHints {
  import opened Wrappers
  import opened Messages

  datatype SizeHint = SizeHint(lower: nat, upper: Option<nat>)

  /** `SizeHint::new`: nothing known. */
  function Unknown(): (h: SizeHint)
    ensures Exact(h).None?
  {
    SizeHint(0, None)
  }

  /** `SizeHint::with_exact`. */
  function WithExact(n: nat): (h: SizeHint)
    ensures Exact(h) == Some(n)
  {
    SizeHint(n, Some(n))
  }

  /** `SizeHint::exact`: the size when both bounds are that size. */
  function Exact(h: SizeHint): (r: Option<nat>)
    ensures r.Some? <==> h.upper == Some(h.lower)
    ensures r.Some? ==> r.value == h.lower
  {
    if h.upper == Some(h.lower) then h.upper else None
  }

  /** `SizeHint` from `PayloadSize`: a length is exact, an empty body exactly 0, chunked unknown. */
  function FromPayloadSize(p: PayloadSize): (h: SizeHint)
    ensures p.Length? ==> Exact(h) == Some(p.n)
    ensures p.Empty? ==> Exact(h) == Some(0)
    ensures p.Chunked? ==> Exact(h).None?
  {
    match p
    case Length(n) => WithExact(n)
    case Chunked => Unknown()
    case Empty => WithExact(0)
  }

  /**
   * `PayloadSize` from `SizeHint`, which is also how a response's framing
   * is chosen from its body's hint: exactly 0 is an empty body, any other
   * exact size a fixed length, and anything else chunked.
   */
  function ToPayloadSize(h: SizeHint): (p: PayloadSize)
    ensures p.Empty? <==> Exact(h) == Some(0)
    ensures p.Length? <==> Exact(h).Some? && Exact(h).value > 0
    ensures p.Length? ==> p.n == h.lower
    ensures p.Chunked? <==> Exact(h).None?
  {
    match Exact(h)
    case Some(0) => Empty
    case Some(n) => Length(n)
    case None => Chunked
  }

  /**
   * Through a size hint and back, a framing is kept, except that a length
   * of 0 comes back as an empty body.
   */
  lemma PayloadSizeRoundTrip(p: PayloadSize)
    ensures ToPayloadSize(FromPayloadSize(p)) == if p == Length(0) then Empty else p
  {
  }

  /** Through a framing and back, a hint keeps its exact size, if it has one. */
  lemma SizeHintRoundTrip(h: SizeHint)
    ensures Exact(FromPayloadSize(ToPayloadSize(h))) == Exact(h)
  {
  }
}
