/**
 The memoised middleware chain of pkg/gofr/http/router.go: what a cached chain is worth when
 middleware keeps being registered.
 */
module MiddlewareChain {

  type Middleware = nat
  type RouteId = nat

  /** A handler, or a middleware's wrapper around one. */
  datatype Handler = Base(id: nat) | Wrapped(mw: Middleware, inner: Handler)

  /** The middlewares a request passes, outermost first. */
  function Layers(h: Handler): seq<Middleware> {
    match h
    case Base(_) => []
    case Wrapped(mw, inner) => [mw] + Layers(inner)
  }

  function Composed(mws: seq<Middleware>, h: Handler): Handler {
    if mws == [] then h else Wrapped(mws[0], Composed(mws[1..], h))
  }

  lemma {:induction false} FirstIsOutermost(mws: seq<Middleware>, h: Handler)
    ensures Layers(Composed(mws, h)) == mws + Layers(h)
  {
    if mws != [] { FirstIsOutermost(mws[1..], h); }
  }

  /** composeMiddleware: from the last to the first, so that the first ends up outermost. */
  method ComposeMiddleware(mws: seq<Middleware>, h: Handler) returns (out: Handler)
    ensures out == Composed(mws, h)
    ensures Layers(out) == mws + Layers(h)
  {
    out := h;
    var i := |mws|;
    while i > 0
      invariant 0 <= i <= |mws| && out == Composed(mws[i..], h)
    {
      i := i - 1;
      assert mws[i..] == [mws[i]] + mws[i + 1..];
      out := Wrapped(mws[i], out);
    }
    FirstIsOutermost(mws, h);
  }

  class Router {
    var mws: seq<Middleware>
    var own: map<RouteId, Handler>          // routes GoFr registered, with their fixed handler
    var chains: map<RouteId, Handler>
    ghost var seen: map<RouteId, nat>       // how many middlewares there were when a chain was cached

    constructor ()
      ensures Valid() && mws == [] && own == map[] && chains == map[]
    {
      mws, own, chains, seen := [], map[], map[], map[];
    }

    /** Every cached chain is its route's handler under the middlewares of its day. */
    ghost predicate Valid()
      reads this
    {
      chains.Keys == seen.Keys &&
      forall r | r in chains :: r in own && seen[r] <= |mws| && chains[r] == Composed(mws[..seen[r]], own[r])
    }

    method Use(more: seq<Middleware>)
      requires Valid()
      modifies `mws
      ensures Valid() && mws == old(mws) + more
    {
      ghost var before := mws;
      mws := mws + more;
      assert forall n | 0 <= n <= |before| :: mws[..n] == before[..n];
    }

    method MarkOwned(r: RouteId, h: Handler)
      requires Valid() && r !in own
      modifies `own
      ensures Valid() && own == old(own)[r := h]
    {
      own := own[r := h];
    }

    /**
     chainFor a matched route. The chain is what composing afresh would give exactly when no
     middleware has been registered since the route's chain was cached.
     */
    method ChainFor(r: RouteId, h: Handler) returns (out: Handler)
      requires Valid() && (r in own ==> own[r] == h)
      modifies `chains, `seen
      ensures Valid() && (forall q | q in old(chains) :: q in chains && chains[q] == old(chains[q]))
      ensures r !in own ==> out == Composed(mws, h) && chains == old(chains)
      ensures r in own ==> r in chains && out == chains[r]
      ensures r in own ==> seen[r] == if r in old(seen) then old(seen[r]) else |mws|
      ensures out == Composed(mws, h) <==> r !in own || seen[r] == |mws|
    {
      if r !in own {
        out := ComposeMiddleware(mws, h);
        return;
      }
      if r in chains {
        ChainsDiffer(mws, seen[r], h);
        return chains[r];
      }
      out := ComposeMiddleware(mws, h);
      assert mws[..|mws|] == mws;
      chains, seen := chains[r := out], seen[r := |mws|];
    }
  }

  /** A chain of fewer middlewares is a different chain. */
  lemma ChainsDiffer(mws: seq<Middleware>, n: nat, h: Handler)
    requires n <= |mws|
    ensures Composed(mws[..n], h) == Composed(mws, h) <==> n == |mws|
  {
    FirstIsOutermost(mws[..n], h);
    FirstIsOutermost(mws, h);
    assert mws[..|mws|] == mws;
  }

  /** Whatever the route, its handler and the middleware: registered after the first request, it is never applied. */
  method StaleChain(r: RouteId, h: Handler, m: Middleware) returns (first: Handler, second: Handler)
    ensures first == second == h
    ensures second != Composed([m], h)
  {
    var router := new Router();
    router.MarkOwned(r, h);
    first := router.ChainFor(r, h);
    router.Use([m]);
    second := router.ChainFor(r, h);
  }
}
