/**
 * The intrusive circular doubly-linked list of `link_list.h`.
 *
 * Links live in an arena: a sequence indexed by link id, each entry holding
 * that link's `next`/`prev` pair. A list is a sentinel link; its members are read off
 * the ring by following `next` from the sentinel until the sentinel comes
 * round again. `IsList(h, l, s)` relates a sentinel `l` to the sequence `s`
 * of its members, and `Elements(h, l)` computes that sequence by following
 * `next`.
 */
module LinkList {
  import opened Optional

  /** The id of a link, its index in the arena; it stands for a `link_t*`. */
  type NodeId = nat

  /** The two pointers of a `link_t`. */
  datatype Link = Link(next: NodeId, prev: NodeId)

  /** The `next`/`prev` graph of every link in the arena: entry `x` holds link `x`. */
  type Heap = seq<Link>

  /** Every pointer stored in the arena points at a link of the arena. */
  ghost predicate Closed(h: Heap) {
    forall x :: 0 <= x < |h| ==> h[x].next < |h| && h[x].prev < |h|
  }

  /**
   * The ring invariant, stated pairwise: `x->next == y` exactly when
   * `y->prev == x`. Lemma `RingPointwise` turns it into the familiar
   * `x->next->prev == x && x->prev->next == x`.
   */
  ghost predicate RingValid(h: Heap) {
    && Closed(h)
    && forall x, y :: 0 <= x < |h| && 0 <= y < |h| ==> (h[x].next == y <==> h[y].prev == x)
  }

  /** A link that shares a ring with no other link: it points at itself both ways. */
  predicate Detached(h: Heap, x: NodeId)
    requires x < |h|
  {
    h[x] == Link(x, x)
  }

  ghost predicate Distinct(s: seq<NodeId>) {
    forall i, j :: 0 <= i < j < |s| ==> s[i] != s[j]
  }

  /** The successor of the `i`-th member on the ring `l, s[0], ..., s[|s|-1], l`. */
  function NextIn(l: NodeId, s: seq<NodeId>, i: nat): NodeId
    requires i < |s|
  {
    if i + 1 < |s| then s[i + 1] else l
  }

  /** The predecessor of the `i`-th member on the same ring. */
  function PrevIn(l: NodeId, s: seq<NodeId>, i: nat): NodeId
    requires i < |s|
  {
    if i == 0 then l else s[i - 1]
  }

  /**
   * The abstraction relation: walking `next` from sentinel `l` visits the
   * members `s` in order and then `l` again, and `prev` walks the same ring
   * backwards.
   */
  ghost predicate IsList(h: Heap, l: NodeId, s: seq<NodeId>) {
    && l < |h|
    && l !in s
    && Distinct(s)
    && (forall i :: 0 <= i < |s| ==> s[i] < |h|)
    && h[l] == (if s == [] then Link(l, l) else Link(s[0], s[|s| - 1]))
    && (forall i {:trigger h[s[i]]} :: 0 <= i < |s| ==> h[s[i]] == Link(NextIn(l, s, i), PrevIn(l, s, i)))
  }

  // ---------------------------------------------------------------------------
  // Splicing primitives. Each body performs the stores of the C code
  // in the same order, so aliasing between the links involved is as in C.
  // ---------------------------------------------------------------------------

  /** `link_insert_prev(base, n)`: splice `n` in just before `base`. */
  function LinkInsertPrev(h: Heap, base: NodeId, n: NodeId): (h': Heap)
    requires Closed(h) && base < |h| && n < |h|
    ensures Closed(h') && |h'| == |h|
    ensures n != base ==> h'[base].prev == n
    ensures n != base && h[base].prev != n ==> h'[n] == Link(base, h[base].prev)
    ensures n != base ==> h'[h[base].prev].next == n
    ensures n != base && h[base].prev != base ==> h'[base].next == h[base].next
    ensures n != base && h[base].prev != n && h[base].prev != base ==>
              h'[h[base].prev].prev == h[h[base].prev].prev
    ensures forall x :: 0 <= x < |h| && x != n && x != base && x != h[base].prev ==> h'[x] == h[x]
  {
    var h1 := h[n := Link(base, h[base].prev)];
    var p := h1[base].prev;
    var h2 := h1[p := h1[p].(next := n)];
    h2[base := h2[base].(prev := n)]
  }

  /** `link_insert_next(base, n)`: splice `n` in just after `base`. */
  function LinkInsertNext(h: Heap, base: NodeId, n: NodeId): (h': Heap)
    requires Closed(h) && base < |h| && n < |h|
    ensures Closed(h') && |h'| == |h|
    ensures n != base ==> h'[base].next == n
    ensures n != base && h[base].next != n ==> h'[n] == Link(h[base].next, base)
    ensures n != base ==> h'[h[base].next].prev == n
    ensures n != base && h[base].next != base ==> h'[base].prev == h[base].prev
    ensures n != base && h[base].next != n && h[base].next != base ==>
              h'[h[base].next].next == h[h[base].next].next
    ensures forall x :: 0 <= x < |h| && x != n && x != base && x != h[base].next ==> h'[x] == h[x]
  {
    var h1 := h[n := Link(h[base].next, base)];
    var q := h1[base].next;
    var h2 := h1[q := h1[q].(prev := n)];
    h2[base := h2[base].(next := n)]
  }

  /**
   * `link_remove(x)`: join `x`'s neighbours to each other, leave `x`
   * self-referential and return it.
   */
  function LinkRemove(h: Heap, x: NodeId): (r: (Heap, NodeId))
    requires Closed(h) && x < |h|
    ensures Closed(r.0) && |r.0| == |h|
    ensures r.1 == x && r.0[x] == Link(x, x)
    ensures h[x].prev != x ==> r.0[h[x].prev].next == h[x].next
    ensures h[x].next != x ==> r.0[h[x].next].prev == h[x].prev
    ensures forall y :: 0 <= y < |h| && y != x && y != h[x].prev && y != h[x].next ==> r.0[y] == h[y]
  {
    var p := h[x].prev;
    var h1 := h[p := h[p].(next := h[x].next)];
    var q := h1[x].next;
    var h2 := h1[q := h1[q].(prev := h1[x].prev)];
    (h2[x := Link(x, x)], x)
  }

  // ---------------------------------------------------------------------------
  // The list operations.
  // ---------------------------------------------------------------------------

  /** `list_init(l)`: make `l` an empty list. */
  function ListInit(h: Heap, l: NodeId): (h': Heap)
    requires Closed(h) && l < |h|
    ensures Closed(h') && |h'| == |h|
    ensures IsList(h', l, [])
    ensures forall x :: 0 <= x < |h| && x != l ==> h'[x] == h[x]
  {
    h[l := Link(l, l)]
  }

  /** `list_empty(l)`: the sentinel's `next` points back at it. */
  predicate ListEmpty(h: Heap, l: NodeId)
    requires l < |h|
  {
    h[l].next == l
  }

  /** `list_insert_prev(l, x)`: insert at the tail. */
  function ListInsertPrev(h: Heap, l: NodeId, x: NodeId): Heap
    requires Closed(h) && l < |h| && x < |h|
  {
    LinkInsertPrev(h, l, x)
  }

  /** `list_insert_next(l, x)`: insert at the head. */
  function ListInsertNext(h: Heap, l: NodeId, x: NodeId): Heap
    requires Closed(h) && l < |h| && x < |h|
  {
    LinkInsertNext(h, l, x)
  }

  /** `list_remove_prev(l)`: NULL on an empty list, otherwise unlink and return the tail. */
  function ListRemovePrev(h: Heap, l: NodeId): (r: (Heap, Option<NodeId>))
    requires Closed(h) && l < |h|
    ensures Closed(r.0) && |r.0| == |h|
    ensures ListEmpty(h, l) <==> r.1 == None
    ensures ListEmpty(h, l) ==> r.0 == h
    ensures !ListEmpty(h, l) ==> r.1 == Some(h[l].prev) && r.0[h[l].prev] == Link(h[l].prev, h[l].prev)
  {
    if ListEmpty(h, l) then (h, None)
    else
      var (h', x) := LinkRemove(h, h[l].prev);
      (h', Some(x))
  }

  /** `list_remove_next(l)`: NULL on an empty list, otherwise unlink and return the head. */
  function ListRemoveNext(h: Heap, l: NodeId): (r: (Heap, Option<NodeId>))
    requires Closed(h) && l < |h|
    ensures Closed(r.0) && |r.0| == |h|
    ensures ListEmpty(h, l) <==> r.1 == None
    ensures ListEmpty(h, l) ==> r.0 == h
    ensures !ListEmpty(h, l) ==> r.1 == Some(h[l].next) && r.0[h[l].next] == Link(h[l].next, h[l].next)
  {
    if ListEmpty(h, l) then (h, None)
    else
      var (h', x) := LinkRemove(h, h[l].next);
      (h', Some(x))
  }

  /** `list_push(l, x)`: a stack push is an insertion at the head. */
  function Push(h: Heap, l: NodeId, x: NodeId): Heap
    requires Closed(h) && l < |h| && x < |h|
  {
    ListInsertNext(h, l, x)
  }

  /** `list_pop(l)`: a stack pop removes the head. */
  function Pop(h: Heap, l: NodeId): (Heap, Option<NodeId>)
    requires Closed(h) && l < |h|
  {
    ListRemoveNext(h, l)
  }

  /**
   * `list_has_link(l, x, maxCount)`: look for `x` among the links reached
   * from `l->next`, giving up after `maxCount` links or at the sentinel.
   */
  method HasLink(h: Heap, l: NodeId, x: NodeId, maxCount: int, ghost s: seq<NodeId>) returns (found: bool)
    requires IsList(h, l, s)
    ensures found <==> exists i :: 0 <= i < |s| && i < maxCount && s[i] == x
    ensures found ==> x != l
  {
    var cur := h[l].next;
    var count := maxCount;
    ghost var i := 0;
    while count > 0 && cur != l
      invariant 0 <= i <= |s|
      invariant count == maxCount - i
      invariant cur == (if i < |s| then s[i] else l)
      invariant forall j :: 0 <= j < i ==> s[j] != x
      decreases |s| - i
    {
      if cur == x {
        return true;
      }
      cur := h[cur].next;
      count := count - 1;
      i := i + 1;
    }
    return false;
  }

  // ---------------------------------------------------------------------------
  // Walking the ring.
  // ---------------------------------------------------------------------------

  /**
   * The links met by following `next` from `x` until the sentinel `l`, at
   * most `fuel` of them.
   */
  function Walk(h: Heap, l: NodeId, x: NodeId, fuel: nat): seq<NodeId>
    decreases fuel
  {
    if fuel == 0 || x == l || x >= |h| then []
    else [x] + Walk(h, l, h[x].next, fuel - 1)
  }

  /** The abstraction function: the members of list `l`, head first. */
  function Elements(h: Heap, l: NodeId): seq<NodeId>
    requires l < |h|
  {
    Walk(h, l, h[l].next, |h|)
  }

  /**
   * `list_foreach_link` with a body that may remove the current link: the
   * successor is read before the body runs, and the body unlinks `x` when
   * `drop(x)` holds. Returns the final arena and the links visited.
   */
  function Traverse(h: Heap, l: NodeId, x: NodeId, drop: NodeId -> bool, fuel: nat): (r: (Heap, seq<NodeId>))
    requires Closed(h)
    ensures Closed(r.0) && |r.0| == |h|
    decreases fuel
  {
    if fuel == 0 || x == l || x >= |h| then (h, [])
    else
      var next := h[x].next;
      var h1 := if drop(x) then LinkRemove(h, x).0 else h;
      var rest := Traverse(h1, l, next, drop, fuel - 1);
      (rest.0, [x] + rest.1)
  }

  /** `list_foreach_link` over list `l`, starting from `l->next`. */
  function ForeachLink(h: Heap, l: NodeId, drop: NodeId -> bool): (r: (Heap, seq<NodeId>))
    requires Closed(h) && l < |h|
    ensures Closed(r.0) && |r.0| == |h|
  {
    Traverse(h, l, h[l].next, drop, |h|)
  }

  /** The body of a drain loop unlinks every link it visits. */
  predicate DropAll(x: NodeId) {
    true
  }

  /** The members of `s` the traversal keeps. */
  function Kept(s: seq<NodeId>, drop: NodeId -> bool): seq<NodeId>
  {
    if s == [] then []
    else (if drop(s[0]) then [] else [s[0]]) + Kept(s[1..], drop)
  }
}
