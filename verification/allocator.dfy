/**
 * The heap as the code under test sees it while the fault injector is
 * installed: every allocation is a hooked call, and a delegated call is
 * served by a libc allocator that hands out addresses never handed out
 * before. `live` is the set of blocks allocated and not yet freed.
 */
module Allocator {
  import opened MallMock

  datatype World = World(mock: MockState, live: set<nat>, nextAddr: nat)

  /** Every live block was handed out before `nextAddr`. */
  ghost predicate Good(w: World) {
    forall a :: a in w.live ==> a < w.nextAddr
  }

  /**
   * One hooked allocation (`malloc`, `calloc`, or the `malloc` inside
   * `strdup`). A delegated call returns a fresh block, which becomes live;
   * a failing call returns the injected value and allocates nothing.
   */
  function Allocate(w: World, req: Request): (r: (World, Ptr))
    ensures r.0.mock == Decide(w.mock).0
    ensures Decide(w.mock).1 == Delegate ==>
              r.1 == Addr(w.nextAddr) && r.0.live == w.live + {w.nextAddr} && r.0.nextAddr == w.nextAddr + 1
    ensures Decide(w.mock).1 != Delegate ==>
              r.1 == w.mock.failReturn && r.0.live == w.live && r.0.nextAddr == w.nextAddr
    ensures Good(w) ==> Good(r.0)
    ensures Good(w) && r.1.Addr? && Decide(w.mock).1 == Delegate ==> r.1.a !in w.live
  {
    var (mock', p) := Intercept(w.mock, req, Addr(w.nextAddr));
    if Decide(w.mock).1 == Delegate then
      (World(mock', w.live + {w.nextAddr}, w.nextAddr + 1), p)
    else
      (w.(mock := mock'), p)
  }

  /** `free(p)` of a block: it is no longer live. */
  function Free(w: World, a: nat): (r: World)
    ensures r.live == w.live - {a}
    ensures r.mock == w.mock && r.nextAddr == w.nextAddr
    ensures Good(w) ==> Good(r)
  {
    w.(live := w.live - {a})
  }

  /**
   * Allocating and then freeing the block restores the set of live
   * blocks: nothing leaks and nothing else is touched.
   */
  lemma AllocateThenFree(w: World, req: Request)
    requires Good(w)
    requires Allocate(w, req).1.Addr?
    requires Decide(w.mock).1 == Delegate
    ensures Free(Allocate(w, req).0, Allocate(w, req).1.a).live == w.live
  {
    assert w.nextAddr !in w.live;
  }
}
