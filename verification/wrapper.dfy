/**
 * Handler wrappers of the web crate: a wrapper turns a handler into
 * another, and a chain of wrappers applies its head, then its tail. Every
 * wrapper here maps handlers of one type `H` to the same type; the source
 * lets each wrapper change the type, which only the compiler tracks.
 */
module HandlerWrappers {

  datatype Wrapper<!H> =
    | IdentityWrapper
    | Layer(wrap: H -> H)
    | Wrappers(head: Wrapper<H>, tail: Wrapper<H>)

  /** `IdentityWrappers::default()`: a chain of two identities. */
  function Default<H>(): Wrapper<H>
  {
    Wrappers(IdentityWrapper, IdentityWrapper)
  }

  /** `Wrapper::wrap`: a chain wraps with its head first, then with its tail. */
  function Wrap<H>(w: Wrapper<H>, handler: H): H
    decreases w
  {
    match w
    case IdentityWrapper => handler
    case Layer(f) => f(handler)
    case Wrappers(head, tail) => Wrap(tail, Wrap(head, handler))
  }

  /** `Wrappers::and_then`: the chain so far becomes the head of a new chain. */
  function AndThen<H>(w: Wrapper<H>, next: Wrapper<H>): (r: Wrapper<H>)
    ensures r.Wrappers? && r.head == w && r.tail == next
  {
    Wrappers(w, next)
  }

  /** The transforming layers of a chain, in the order they are applied. */
  function Layers<H>(w: Wrapper<H>): seq<H -> H>
    decreases w
  {
    match w
    case IdentityWrapper => []
    case Layer(f) => [f]
    case Wrappers(head, tail) => Layers(head) + Layers(tail)
  }

  /** Applies functions first to last. */
  function ApplyAll<H>(fs: seq<H -> H>, handler: H): H
    decreases |fs|
  {
    if fs == [] then handler else ApplyAll(fs[1..], fs[0](handler))
  }

  lemma {:induction false} ApplyAllAppend<H>(fs: seq<H -> H>, gs: seq<H -> H>, handler: H)
    ensures ApplyAll(fs + gs, handler) == ApplyAll(gs, ApplyAll(fs, handler))
    decreases |fs|
  {
    if fs != [] {
      assert (fs + gs)[1..] == fs[1..] + gs;
      ApplyAllAppend(fs[1..], gs, fs[0](handler));
    } else {
      assert fs + gs == gs;
    }
  }

  /**
   * However a chain is nested, wrapping applies its layers in the order
   * they were added, identities being no-ops.
   */
  lemma {:induction false} WrapAppliesLayersInOrder<H>(w: Wrapper<H>, handler: H)
    ensures Wrap(w, handler) == ApplyAll(Layers(w), handler)
    decreases w
  {
    match w
    case IdentityWrapper =>
    case Layer(f) =>
      assert [f][1..] == [];
    case Wrappers(head, tail) =>
      WrapAppliesLayersInOrder(head, handler);
      WrapAppliesLayersInOrder(tail, Wrap(head, handler));
      ApplyAllAppend(Layers(head), Layers(tail), handler);
  }

  /** The default chain wraps nothing, and `and_then` applies the new wrapper after every existing one. */
  lemma AndThenWrapsLast<H>(w: Wrapper<H>, f: H -> H, handler: H)
    ensures Wrap(Default<H>(), handler) == handler
    ensures Layers(AndThen(w, Layer(f))) == Layers(w) + [f]
    ensures Wrap(AndThen(w, Layer(f)), handler) == f(Wrap(w, handler))
  {
  }

  /** A service of the test: a function of its input text. */
  type Service = string -> string

  function Prefixing(tag: string, inner: Service): Service
  {
    s => tag + " " + inner(s)
  }

  /**
   * Two wrappers added to the default chain, each prefixing the inner
   * service's answer: the last one added is outermost, so "Hello" comes
   * back as "s2 s1 s0 Hello".
   */
  lemma ChainOrderExample()
    ensures var s0: Service := s => "s0 " + s;
            var chain := AndThen(AndThen(Default<Service>(), Layer(inner => Prefixing("s1", inner))), Layer(inner => Prefixing("s2", inner)));
            Wrap(chain, s0)("Hello") == "s2 s1 s0 Hello"
  {
  }
}
