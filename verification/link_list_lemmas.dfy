/**
 * What the operations of `LinkList` do to the abstract member sequence and
 * to the ring invariant.
 */
module LinkListLemmas {
  import opened Optional
  import opened LinkList

  /** The link at position `i` of the ring `s[0], ..., s[|s|-1], l`: a member, or `l` at the end. */
  function At(l: NodeId, s: seq<NodeId>, i: nat): NodeId
    requires i <= |s|
  {
    if i < |s| then s[i] else l
  }

  /** The pairwise ring invariant gives back `x->next->prev == x` and `x->prev->next == x`. */
  lemma RingPointwise(h: Heap)
    requires RingValid(h)
    ensures forall x :: 0 <= x < |h| ==> h[h[x].next].prev == x && h[h[x].prev].next == x
  {
  }

  /** A self-referential link other than the sentinel is not a member. */
  lemma DetachedNotMember(h: Heap, l: NodeId, s: seq<NodeId>, n: NodeId)
    requires IsList(h, l, s) && n < |h| && Detached(h, n) && n != l
    ensures n !in s
  {
    forall j | 0 <= j < |s|
      ensures s[j] != n
    {
      assert h[s[j]].next == NextIn(l, s, j);
    }
  }

  lemma DistinctInsert(s: seq<NodeId>, i: nat, n: NodeId)
    requires Distinct(s) && n !in s && i <= |s|
    ensures Distinct(s[..i] + [n] + s[i..])
  {
    var s' := s[..i] + [n] + s[i..];
    forall a, b | 0 <= a < b < |s'|
      ensures s'[a] != s'[b]
    {
      if b < i {
      } else if b == i {
        assert s'[a] == s[a];
      } else if a == i {
        assert s'[b] == s[b - 1];
      } else if a < i {
        assert s'[a] == s[a] && s'[b] == s[b - 1];
      } else {
        assert s'[a] == s[a - 1] && s'[b] == s[b - 1];
      }
    }
  }

  /** The stores of `link_insert_prev(a, n)` seen from the three links they touch. */
  lemma InsertPrevEffect(h: Heap, a: NodeId, p: NodeId, n: NodeId)
    requires Closed(h) && a < |h| && n < |h| && h[a].prev == p && n != a && n != p
    ensures var h' := LinkInsertPrev(h, a, n);
      && h'[n] == Link(a, p)
      && h'[a] == (if p == a then Link(n, n) else Link(h[a].next, n))
      && (p != a ==> h'[p] == Link(n, h[p].prev))
      && forall x :: 0 <= x < |h| && x != n && x != a && x != p ==> h'[x] == h[x]
  {
  }

  /**
   * `link_insert_prev(anchor, n)` with the anchor at position `i` of the
   * ring (a member, or the sentinel when `i == |s|`) puts `n` at position `i`.
   */
  lemma InsertPrevAt(h: Heap, l: NodeId, s: seq<NodeId>, i: nat, n: NodeId)
    requires Closed(h) && IsList(h, l, s) && i <= |s|
    requires n < |h| && Detached(h, n) && n != l
    ensures IsList(LinkInsertPrev(h, At(l, s, i), n), l, s[..i] + [n] + s[i..])
  {
    DetachedNotMember(h, l, s, n);
    DistinctInsert(s, i, n);
    var a := At(l, s, i);
    var p := if i == 0 then l else s[i - 1];
    InsertPrevEffect(h, a, p, n);
    var h' := LinkInsertPrev(h, a, n);
    var s' := s[..i] + [n] + s[i..];
    SpliceMembers(h, h', l, s, s', i, n, a, p);
  }

  lemma SpliceMembers(h: Heap, h': Heap, l: NodeId, s: seq<NodeId>, s': seq<NodeId>, i: nat,
                          n: NodeId, a: NodeId, p: NodeId)
    requires IsList(h, l, s) && i <= |s| && n !in s && n != l && Distinct(s') && |h'| == |h| && n < |h|
    requires s' == s[..i] + [n] + s[i..]
    requires a == At(l, s, i) && p == (if i == 0 then l else s[i - 1])
    requires h'[n] == Link(a, p)
    requires h'[a] == (if p == a then Link(n, n) else Link(h[a].next, n))
    requires p != a ==> h'[p] == Link(n, h[p].prev)
    requires forall x :: 0 <= x < |h| && x != n && x != a && x != p ==> h'[x] == h[x]
    ensures IsList(h', l, s')
  {
    InsertShape(s, s', i, n);
    SpliceSentinel(h, h', l, s, s', i, n, a, p);
    forall j | 0 <= j < |s'|
      ensures s'[j] < |h'|
      ensures h'[s'[j]] == Link(NextIn(l, s', j), PrevIn(l, s', j))
    {
      if j < i {
        MemberBefore(h, h', l, s, s', i, n, a, p, j);
      } else if j > i {
        MemberAfter(h, h', l, s, s', i, n, a, p, j);
      } else {
        MemberInserted(h, h', l, s, s', i, n, a, p);
      }
    }
    ListFromParts(h', l, s');
  }

  /** Positions of `s[..i] + [n] + s[i..]` in terms of positions of `s`. */
  lemma InsertShape(s: seq<NodeId>, s': seq<NodeId>, i: nat, n: NodeId)
    requires i <= |s| && s' == s[..i] + [n] + s[i..]
    ensures |s'| == |s| + 1 && s'[i] == n
    ensures forall j :: 0 <= j < i ==> s'[j] == s[j]
    ensures forall j :: i < j < |s'| ==> s'[j] == s[j - 1]
    ensures forall x :: x in s' ==> x in s || x == n
  {
  }

  /** After the splice the sentinel points at the new first and last members. */
  lemma SpliceSentinel(h: Heap, h': Heap, l: NodeId, s: seq<NodeId>, s': seq<NodeId>, i: nat,
                       n: NodeId, a: NodeId, p: NodeId)
    requires IsList(h, l, s) && i <= |s| && n !in s && n != l && |h'| == |h| && n < |h|
    requires |s'| == |s| + 1 && s'[i] == n
    requires forall k :: 0 <= k < i ==> s'[k] == s[k]
    requires forall k :: i < k < |s'| ==> s'[k] == s[k - 1]
    requires a == At(l, s, i) && p == (if i == 0 then l else s[i - 1])
    requires h'[a] == (if p == a then Link(n, n) else Link(h[a].next, n))
    requires p != a ==> h'[p] == Link(n, h[p].prev)
    requires forall x :: 0 <= x < |h| && x != n && x != a && x != p ==> h'[x] == h[x]
    ensures h'[l] == Link(s'[0], s'[|s'| - 1])
  {
    if s == [] {
    } else if i == 0 {
      assert a == s[0] && p == l;
    } else if i == |s| {
      assert a == l && p == s[|s| - 1];
    } else {
      assert l != a && l != p;
    }
  }

  /** After the splice the new link sits between its two neighbours. */
  lemma MemberInserted(h: Heap, h': Heap, l: NodeId, s: seq<NodeId>, s': seq<NodeId>, i: nat,
                       n: NodeId, a: NodeId, p: NodeId)
    requires i <= |s| && |h'| == |h| && n < |h|
    requires |s'| == |s| + 1 && s'[i] == n
    requires forall k :: 0 <= k < i ==> s'[k] == s[k]
    requires forall k :: i < k < |s'| ==> s'[k] == s[k - 1]
    requires a == At(l, s, i) && p == (if i == 0 then l else s[i - 1])
    requires h'[n] == Link(a, p)
    ensures h'[s'[i]] == Link(NextIn(l, s', i), PrevIn(l, s', i))
  {
  }

  lemma MemberBefore(h: Heap, h': Heap, l: NodeId, s: seq<NodeId>, s': seq<NodeId>, i: nat,
                     n: NodeId, a: NodeId, p: NodeId, j: nat)
    requires IsList(h, l, s) && i <= |s| && n !in s && n != l && |h'| == |h| && n < |h|
    requires |s'| == |s| + 1 && s'[i] == n
    requires forall k :: 0 <= k < i ==> s'[k] == s[k]
    requires a == At(l, s, i) && p == (if i == 0 then l else s[i - 1])
    requires p != a ==> h'[p] == Link(n, h[p].prev)
    requires forall x :: 0 <= x < |h| && x != n && x != a && x != p ==> h'[x] == h[x]
    requires j < i
    ensures h'[s'[j]] == Link(NextIn(l, s', j), PrevIn(l, s', j))
  {
    assert h[s[j]] == Link(NextIn(l, s, j), PrevIn(l, s, j));
    assert s[j] != a;
    if j == i - 1 {
      assert s'[j] == p;
    } else {
      assert s[j] != p;
      assert s'[j + 1] == s[j + 1];
    }
  }

  lemma MemberAfter(h: Heap, h': Heap, l: NodeId, s: seq<NodeId>, s': seq<NodeId>, i: nat,
                    n: NodeId, a: NodeId, p: NodeId, j: nat)
    requires IsList(h, l, s) && i <= |s| && n !in s && n != l && |h'| == |h| && n < |h|
    requires |s'| == |s| + 1 && s'[i] == n
    requires forall k :: i < k < |s'| ==> s'[k] == s[k - 1]
    requires a == At(l, s, i) && p == (if i == 0 then l else s[i - 1])
    requires h'[a] == (if p == a then Link(n, n) else Link(h[a].next, n))
    requires forall x :: 0 <= x < |h| && x != n && x != a && x != p ==> h'[x] == h[x]
    requires i < j < |s'|
    ensures h'[s'[j]] == Link(NextIn(l, s', j), PrevIn(l, s', j))
  {
    assert h[s[j - 1]] == Link(NextIn(l, s, j - 1), PrevIn(l, s, j - 1));
    assert s[j - 1] != p;
    if j == i + 1 {
      assert s'[j] == a;
    } else {
      assert s[j - 1] != a;
      assert s'[j - 1] == s[j - 2];
    }
  }

  /** The stores of `link_insert_next(p, n)` seen from the three links they touch. */
  lemma InsertNextEffect(h: Heap, p: NodeId, a: NodeId, n: NodeId)
    requires Closed(h) && p < |h| && n < |h| && h[p].next == a && n != a && n != p
    ensures var h' := LinkInsertNext(h, p, n);
      && h'[n] == Link(a, p)
      && h'[p] == (if p == a then Link(n, n) else Link(n, h[p].prev))
      && (p != a ==> h'[a] == Link(h[a].next, n))
      && forall x :: 0 <= x < |h| && x != n && x != a && x != p ==> h'[x] == h[x]
  {
  }

  /**
   * `link_insert_next(anchor, n)` with the anchor just before position `i`
   * (the sentinel when `i == 0`) puts `n` at position `i`.
   */
  lemma InsertNextAt(h: Heap, l: NodeId, s: seq<NodeId>, i: nat, n: NodeId)
    requires Closed(h) && IsList(h, l, s) && i <= |s|
    requires n < |h| && Detached(h, n) && n != l
    ensures IsList(LinkInsertNext(h, if i == 0 then l else s[i - 1], n), l, s[..i] + [n] + s[i..])
  {
    DetachedNotMember(h, l, s, n);
    DistinctInsert(s, i, n);
    var a := At(l, s, i);
    var p := if i == 0 then l else s[i - 1];
    assert h[p].next == a;
    InsertNextEffect(h, p, a, n);
    var h' := LinkInsertNext(h, p, n);
    if p == a {
      assert h'[a] == Link(n, n);
    } else {
      assert h'[a] == Link(h[a].next, n) && h'[p] == Link(n, h[p].prev);
    }
    SpliceMembers(h, h', l, s, s[..i] + [n] + s[i..], i, n, a, p);
  }

  /** `list_insert_prev(l, n)` appends `n` to the member sequence. */
  lemma InsertPrevAppends(h: Heap, l: NodeId, s: seq<NodeId>, n: NodeId)
    requires Closed(h) && IsList(h, l, s)
    requires n < |h| && Detached(h, n) && n != l
    ensures IsList(ListInsertPrev(h, l, n), l, s + [n])
  {
    InsertPrevAt(h, l, s, |s|, n);
    assert s[..|s|] + [n] + s[|s|..] == s + [n];
  }

  /** `list_insert_next(l, n)` prepends `n` to the member sequence. */
  lemma InsertNextPrepends(h: Heap, l: NodeId, s: seq<NodeId>, n: NodeId)
    requires Closed(h) && IsList(h, l, s)
    requires n < |h| && Detached(h, n) && n != l
    ensures IsList(ListInsertNext(h, l, n), l, [n] + s)
  {
    InsertNextAt(h, l, s, 0, n);
    assert s[..0] + [n] + s[0..] == [n] + s;
  }

  /** The stores of `link_remove(x)` seen from `x` and its two neighbours `p` and `q`. */
  lemma RemoveEffect(h: Heap, x: NodeId, p: NodeId, q: NodeId)
    requires Closed(h) && x < |h| && h[x] == Link(q, p) && x != p && x != q
    ensures var h' := LinkRemove(h, x).0;
      && h'[x] == Link(x, x)
      && h'[p] == (if p == q then Link(p, p) else Link(q, h[p].prev))
      && (p != q ==> h'[q] == Link(h[q].next, p))
      && forall y :: 0 <= y < |h| && y != x && y != p && y != q ==> h'[y] == h[y]
  {
  }

  /** `link_remove` of the member at position `i` deletes exactly that position. */
  lemma RemoveAt(h: Heap, l: NodeId, s: seq<NodeId>, i: nat)
    requires Closed(h) && IsList(h, l, s) && i < |s|
    ensures IsList(LinkRemove(h, s[i]).0, l, s[..i] + s[i + 1..])
    ensures LinkRemove(h, s[i]).0[s[i]] == Link(s[i], s[i])
  {
    var x := s[i];
    var p := PrevIn(l, s, i);
    var q := NextIn(l, s, i);
    assert h[x] == Link(q, p);
    RemoveEffect(h, x, p, q);
    UnspliceMembers(h, LinkRemove(h, x).0, l, s, i, p, q);
  }

  lemma DistinctRemove(s: seq<NodeId>, i: nat)
    requires Distinct(s) && i < |s|
    ensures Distinct(s[..i] + s[i + 1..])
    ensures s[i] !in s[..i] + s[i + 1..]
  {
    var s' := s[..i] + s[i + 1..];
    forall a, b | 0 <= a < b < |s'|
      ensures s'[a] != s'[b]
    {
      if b < i {
      } else if a < i {
        assert s'[b] == s[b + 1];
      } else {
        assert s'[a] == s[a + 1] && s'[b] == s[b + 1];
      }
    }
    forall j | 0 <= j < |s'|
      ensures s'[j] != s[i]
    {
      if j >= i {
        assert s'[j] == s[j + 1];
      }
    }
  }

  lemma UnspliceMembers(h: Heap, h': Heap, l: NodeId, s: seq<NodeId>, i: nat, p: NodeId, q: NodeId)
    requires IsList(h, l, s) && i < |s| && |h'| == |h|
    requires p == PrevIn(l, s, i) && q == NextIn(l, s, i)
    requires h'[p] == (if p == q then Link(p, p) else Link(q, h[p].prev))
    requires p != q ==> h'[q] == Link(h[q].next, p)
    requires forall y :: 0 <= y < |h| && y != s[i] && y != p && y != q ==> h'[y] == h[y]
    ensures IsList(h', l, s[..i] + s[i + 1..])
  {
    var s' := s[..i] + s[i + 1..];
    DistinctRemove(s, i);
    RemoveShape(s, s', i);
    UnspliceSentinel(h, h', l, s, s', i, p, q);
    forall j | 0 <= j < |s'|
      ensures s'[j] < |h'|
      ensures h'[s'[j]] == Link(NextIn(l, s', j), PrevIn(l, s', j))
    {
      if j < i {
        RemainingBefore(h, h', l, s, s', i, p, q, j);
      } else {
        RemainingAfter(h, h', l, s, s', i, p, q, j);
      }
    }
    ListFromParts(h', l, s');
  }

  /** Positions of `s[..i] + s[i + 1..]` in terms of positions of `s`. */
  lemma RemoveShape(s: seq<NodeId>, s': seq<NodeId>, i: nat)
    requires i < |s| && s' == s[..i] + s[i + 1..]
    ensures |s'| == |s| - 1
    ensures forall j :: 0 <= j < i ==> s'[j] == s[j]
    ensures forall j :: i <= j < |s'| ==> s'[j] == s[j + 1]
    ensures forall x :: x in s' ==> x in s
  {
  }

  /** After the unsplice the sentinel points at the remaining first and last members. */
  lemma UnspliceSentinel(h: Heap, h': Heap, l: NodeId, s: seq<NodeId>, s': seq<NodeId>, i: nat, p: NodeId, q: NodeId)
    requires IsList(h, l, s) && i < |s| && |h'| == |h|
    requires p == PrevIn(l, s, i) && q == NextIn(l, s, i)
    requires |s'| == |s| - 1
    requires forall k :: 0 <= k < i ==> s'[k] == s[k]
    requires forall k :: i <= k < |s'| ==> s'[k] == s[k + 1]
    requires h'[p] == (if p == q then Link(p, p) else Link(q, h[p].prev))
    requires p != q ==> h'[q] == Link(h[q].next, p)
    requires forall y :: 0 <= y < |h| && y != s[i] && y != p && y != q ==> h'[y] == h[y]
    ensures h'[l] == (if s' == [] then Link(l, l) else Link(s'[0], s'[|s'| - 1]))
  {
    if |s| == 1 {
      assert p == l && q == l;
    } else if i == 0 {
      assert p == l && q == s[1] && s'[0] == s[1];
    } else if i == |s| - 1 {
      assert q == l && p == s[i - 1] && s'[|s'| - 1] == s[i - 1];
    } else {
      assert p != l && q != l && l != s[i];
    }
  }

  /** The conditions of `IsList`, gathered one by one. */
  lemma ListFromParts(h: Heap, l: NodeId, s: seq<NodeId>)
    requires l < |h| && l !in s && Distinct(s)
    requires forall j :: 0 <= j < |s| ==> s[j] < |h| && h[s[j]] == Link(NextIn(l, s, j), PrevIn(l, s, j))
    requires h[l] == (if s == [] then Link(l, l) else Link(s[0], s[|s| - 1]))
    ensures IsList(h, l, s)
  {
  }

  lemma RemainingBefore(h: Heap, h': Heap, l: NodeId, s: seq<NodeId>, s': seq<NodeId>, i: nat,
                        p: NodeId, q: NodeId, j: nat)
    requires IsList(h, l, s) && i < |s| && |h'| == |h|
    requires p == PrevIn(l, s, i) && q == NextIn(l, s, i)
    requires |s'| == |s| - 1
    requires forall k :: 0 <= k < i ==> s'[k] == s[k]
    requires forall k :: i <= k < |s'| ==> s'[k] == s[k + 1]
    requires h'[p] == (if p == q then Link(p, p) else Link(q, h[p].prev))
    requires forall y :: 0 <= y < |h| && y != s[i] && y != p && y != q ==> h'[y] == h[y]
    requires j < i
    ensures h'[s'[j]] == Link(NextIn(l, s', j), PrevIn(l, s', j))
  {
    assert h[s[j]] == Link(NextIn(l, s, j), PrevIn(l, s, j));
    assert s[j] != q;
    if j == i - 1 {
      assert s'[j] == p;
    } else {
      assert s[j] != p;
      assert s'[j + 1] == s[j + 1];
    }
  }

  lemma RemainingAfter(h: Heap, h': Heap, l: NodeId, s: seq<NodeId>, s': seq<NodeId>, i: nat,
                       p: NodeId, q: NodeId, j: nat)
    requires IsList(h, l, s) && i < |s| && |h'| == |h|
    requires p == PrevIn(l, s, i) && q == NextIn(l, s, i)
    requires |s'| == |s| - 1
    requires forall k :: 0 <= k < i ==> s'[k] == s[k]
    requires forall k :: i <= k < |s'| ==> s'[k] == s[k + 1]
    requires p != q ==> h'[q] == Link(h[q].next, p)
    requires forall y :: 0 <= y < |h| && y != s[i] && y != p && y != q ==> h'[y] == h[y]
    requires i <= j < |s'|
    ensures h'[s'[j]] == Link(NextIn(l, s', j), PrevIn(l, s', j))
  {
    assert h[s[j + 1]] == Link(NextIn(l, s, j + 1), PrevIn(l, s, j + 1));
    assert s[j + 1] != p;
    if j == i {
      assert s'[j] == q;
    } else {
      assert s[j + 1] != q;
      assert s'[j - 1] == s[j];
    }
  }

  /** Removing a self-referential link stores nothing new, so a second `link_remove` is harmless. */
  lemma RemoveDetachedIsNoop(h: Heap, x: NodeId)
    requires Closed(h) && x < |h| && Detached(h, x)
    ensures LinkRemove(h, x) == (h, x)
  {
    var h' := LinkRemove(h, x).0;
    forall y | 0 <= y < |h|
      ensures h'[y] == h[y]
    {
    }
    assert h' == h;
  }

  /** `list_empty(l)` holds exactly when the list has no members. */
  lemma EmptyIffNoMembers(h: Heap, l: NodeId, s: seq<NodeId>)
    requires IsList(h, l, s)
    ensures ListEmpty(h, l) <==> s == []
  {
    if s != [] {
      assert s[0] != l;
    }
  }

  /** `list_remove_next(l)`: NULL and no change on an empty list, otherwise the head comes off. */
  lemma RemoveNextTakesHead(h: Heap, l: NodeId, s: seq<NodeId>)
    requires Closed(h) && IsList(h, l, s)
    ensures s == [] ==> ListRemoveNext(h, l) == (h, None)
    ensures s != [] ==> ListRemoveNext(h, l).1 == Some(s[0])
    ensures s != [] ==> IsList(ListRemoveNext(h, l).0, l, s[1..])
    ensures s != [] ==> Detached(ListRemoveNext(h, l).0, s[0])
  {
    EmptyIffNoMembers(h, l, s);
    if s != [] {
      RemoveAt(h, l, s, 0);
      assert s[..0] + s[1..] == s[1..];
    }
  }

  /** `list_remove_prev(l)`: NULL and no change on an empty list, otherwise the tail comes off. */
  lemma RemovePrevTakesTail(h: Heap, l: NodeId, s: seq<NodeId>)
    requires Closed(h) && IsList(h, l, s)
    ensures s == [] ==> ListRemovePrev(h, l) == (h, None)
    ensures s != [] ==> ListRemovePrev(h, l).1 == Some(s[|s| - 1])
    ensures s != [] ==> IsList(ListRemovePrev(h, l).0, l, s[..|s| - 1])
    ensures s != [] ==> Detached(ListRemovePrev(h, l).0, s[|s| - 1])
  {
    EmptyIffNoMembers(h, l, s);
    if s != [] {
      RemoveAt(h, l, s, |s| - 1);
      assert s[..|s| - 1] + s[|s|..] == s[..|s| - 1];
    }
  }

  /** Stack discipline: a pop right after a push returns the pushed link and restores the arena. */
  lemma PushThenPop(h: Heap, l: NodeId, s: seq<NodeId>, n: NodeId)
    requires Closed(h) && IsList(h, l, s)
    requires n < |h| && Detached(h, n) && n != l
    ensures Pop(Push(h, l, n), l) == (h, Some(n))
  {
    DetachedNotMember(h, l, s, n);
    var a := At(l, s, 0);
    assert h[l].next == a;
    InsertNextEffect(h, l, a, n);
    var h1 := Push(h, l, n);
    InsertNextPrepends(h, l, s, n);
    assert h1[n] == Link(a, l);
    assert h1[l].next == n;
    RemoveEffect(h1, n, l, a);
    var h2 := Pop(h1, l).0;
    assert |h2| == |h|;
    forall y | 0 <= y < |h|
      ensures h2[y] == h[y]
    {
      if y == l && a != l {
        assert h[a].prev == l;
      }
    }
    assert h2 == h;
  }

  /**
   * A link `n` placed between `p` and its successor `a`, with every other
   * link as before, leaves a valid ring.
   */
  lemma SpliceKeepsRing(h: Heap, h': Heap, n: NodeId, a: NodeId, p: NodeId)
    requires RingValid(h) && |h'| == |h| && n < |h| && a < |h| && p < |h|
    requires Detached(h, n) && n != a && n != p && h[a].prev == p
    requires h'[n] == Link(a, p)
    requires h'[a] == (if p == a then Link(n, n) else Link(h[a].next, n))
    requires p != a ==> h'[p] == Link(n, h[p].prev)
    requires forall x :: 0 <= x < |h| && x != n && x != a && x != p ==> h'[x] == h[x]
    ensures RingValid(h')
  {
    assert h[p].next == a;
    forall x, y | 0 <= x < |h'| && 0 <= y < |h'|
      ensures h'[x].next == y <==> h'[y].prev == x
    {
      assert h[x].next == y <==> h[y].prev == x;
      assert h[x].next == a <==> x == p;
      assert h[p].next == y <==> y == a;
    }
  }

  /** `link_insert_prev(a, n)` of a self-referential `n` keeps the ring invariant. */
  lemma InsertPrevKeepsRing(h: Heap, a: NodeId, n: NodeId)
    requires RingValid(h) && a < |h| && n < |h| && Detached(h, n) && n != a
    ensures RingValid(LinkInsertPrev(h, a, n))
  {
    var p := h[a].prev;
    assert h[p].next == a;
    InsertPrevEffect(h, a, p, n);
    SpliceKeepsRing(h, LinkInsertPrev(h, a, n), n, a, p);
  }

  /** `link_insert_next(p, n)` of a self-referential `n` keeps the ring invariant. */
  lemma InsertNextKeepsRing(h: Heap, p: NodeId, n: NodeId)
    requires RingValid(h) && p < |h| && n < |h| && Detached(h, n) && n != p
    ensures RingValid(LinkInsertNext(h, p, n))
  {
    var a := h[p].next;
    assert h[a].prev == p;
    InsertNextEffect(h, p, a, n);
    var h' := LinkInsertNext(h, p, n);
    if p == a {
      assert h'[a] == Link(n, n);
    } else {
      assert h'[a] == Link(h[a].next, n) && h'[p] == Link(n, h[p].prev);
    }
    SpliceKeepsRing(h, h', n, a, p);
  }

  /** `link_remove(x)` keeps the ring invariant, for members and detached links alike. */
  lemma RemoveKeepsRing(h: Heap, x: NodeId)
    requires RingValid(h) && x < |h|
    ensures RingValid(LinkRemove(h, x).0)
  {
    var p := h[x].prev;
    var q := h[x].next;
    assert h[p].next == x && h[q].prev == x;
    if p == x || q == x {
      assert p == x && q == x;
      RemoveDetachedIsNoop(h, x);
    } else {
      RemoveEffect(h, x, p, q);
      var h' := LinkRemove(h, x).0;
      forall y, z | 0 <= y < |h'| && 0 <= z < |h'|
        ensures h'[y].next == z <==> h'[z].prev == y
      {
        assert h[y].next == z <==> h[z].prev == y;
        assert h[y].next == x <==> y == p;
        assert h[x].next == z <==> z == q;
      }
    }
  }

  /** Distinct ids below `n` number at most `n`. */
  lemma {:induction false} DistinctBound(s: seq<NodeId>, n: nat)
    requires Distinct(s) && forall i :: 0 <= i < |s| ==> s[i] < n
    ensures |s| <= n
    decreases n
  {
    if s != [] {
      assert s[0] < n;
      if n - 1 in s {
        var k :| 0 <= k < |s| && s[k] == n - 1;
        var t := s[..k] + s[k + 1..];
        DistinctRemove(s, k);
        assert forall j :: 0 <= j < |t| ==> t[j] in s;
        DistinctBound(t, n - 1);
      } else {
        DistinctBound(s, n - 1);
      }
    }
  }

  /** Following `next` from position `i` visits exactly the members from `i` on. */
  lemma {:induction false} WalkFrom(h: Heap, l: NodeId, s: seq<NodeId>, i: nat, fuel: nat)
    requires IsList(h, l, s) && i <= |s| && fuel >= |s| - i
    ensures Walk(h, l, At(l, s, i), fuel) == s[i..]
    decreases |s| - i
  {
    if i < |s| {
      assert h[s[i]] == Link(NextIn(l, s, i), PrevIn(l, s, i));
      WalkFrom(h, l, s, i + 1, fuel - 1);
    }
  }

  /** The abstraction function agrees with the abstraction relation. */
  lemma ElementsAreMembers(h: Heap, l: NodeId, s: seq<NodeId>)
    requires IsList(h, l, s)
    ensures Elements(h, l) == s
  {
    DistinctBound(s, |h|);
    WalkFrom(h, l, s, 0, |h|);
  }

  lemma {:induction false} KeptSplit(s: seq<NodeId>, i: nat, drop: NodeId -> bool)
    requires i < |s|
    ensures Kept(s[..i + 1], drop) == Kept(s[..i], drop) + (if drop(s[i]) then [] else [s[i]])
    decreases i
  {
    if i > 0 {
      assert s[..i + 1][1..] == s[1..][..i];
      assert s[..i][1..] == s[1..][..i - 1];
      KeptSplit(s[1..], i - 1, drop);
    }
  }

  /**
   * The traversal invariant: links before position `i` that the body
   * dropped are detached, the others are still members, and the walk goes
   * on from position `i` thanks to the successor read before the body.
   */
  lemma {:induction false} TraverseFrom(h: Heap, l: NodeId, s: seq<NodeId>, i: nat,
                                        drop: NodeId -> bool, fuel: nat)
    requires Closed(h) && i <= |s| && fuel >= |s| - i
    requires Distinct(s) && l !in s
    requires IsList(h, l, Kept(s[..i], drop) + s[i..])
    requires forall j :: 0 <= j < i && drop(s[j]) ==> s[j] < |h| && Detached(h, s[j])
    ensures Traverse(h, l, At(l, s, i), drop, fuel).1 == s[i..]
    ensures IsList(Traverse(h, l, At(l, s, i), drop, fuel).0, l, Kept(s, drop))
    ensures forall j :: 0 <= j < |s| && drop(s[j]) ==>
              s[j] < |h| && Detached(Traverse(h, l, At(l, s, i), drop, fuel).0, s[j])
    decreases |s| - i, 2
  {
    if i == |s| {
      assert s[..i] == s && s[i..] == [];
      assert Kept(s[..i], drop) + s[i..] == Kept(s, drop);
    } else {
      TraverseStep(h, l, s, i, drop, fuel);
    }
  }

  /** One iteration of the traversal followed by the rest of it. */
  lemma {:induction false} TraverseStep(h: Heap, l: NodeId, s: seq<NodeId>, i: nat,
                                        drop: NodeId -> bool, fuel: nat)
    requires Closed(h) && i < |s| && fuel >= |s| - i
    requires Distinct(s) && l !in s
    requires IsList(h, l, Kept(s[..i], drop) + s[i..])
    requires forall j :: 0 <= j < i && drop(s[j]) ==> s[j] < |h| && Detached(h, s[j])
    ensures Traverse(h, l, s[i], drop, fuel).1 == s[i..]
    ensures IsList(Traverse(h, l, s[i], drop, fuel).0, l, Kept(s, drop))
    ensures forall j :: 0 <= j < |s| && drop(s[j]) ==>
              s[j] < |h| && Detached(Traverse(h, l, s[i], drop, fuel).0, s[j])
    decreases |s| - i, 1
  {
    if drop(s[i]) {
      TraverseDrop(h, l, s, i, drop, fuel);
    } else {
      TraverseKeep(h, l, s, i, drop, fuel);
    }
  }

  /** One iteration whose body unlinks the current link. */
  lemma {:induction false} TraverseDrop(h: Heap, l: NodeId, s: seq<NodeId>, i: nat,
                                        drop: NodeId -> bool, fuel: nat)
    requires Closed(h) && i < |s| && fuel >= |s| - i && drop(s[i])
    requires Distinct(s) && l !in s
    requires IsList(h, l, Kept(s[..i], drop) + s[i..])
    requires forall j :: 0 <= j < i && drop(s[j]) ==> s[j] < |h| && Detached(h, s[j])
    ensures Traverse(h, l, s[i], drop, fuel).1 == s[i..]
    ensures IsList(Traverse(h, l, s[i], drop, fuel).0, l, Kept(s, drop))
    ensures forall j :: 0 <= j < |s| && drop(s[j]) ==>
              s[j] < |h| && Detached(Traverse(h, l, s[i], drop, fuel).0, s[j])
    decreases |s| - i, 0
  {
    StepFacts(h, l, s, i, drop);
    DropStep(h, l, s, i, drop);
    var h1 := LinkRemove(h, s[i]).0;
    TraverseFrom(h1, l, s, i + 1, drop, fuel - 1);
    TraverseUnfold(h, h1, l, s[i], At(l, s, i + 1), drop, fuel);
    TraverseTransfer(Traverse(h, l, s[i], drop, fuel), Traverse(h1, l, At(l, s, i + 1), drop, fuel - 1), |h|, l, s, i, drop);
  }

  /** One iteration whose body leaves the current link in place. */
  lemma {:induction false} TraverseKeep(h: Heap, l: NodeId, s: seq<NodeId>, i: nat,
                                        drop: NodeId -> bool, fuel: nat)
    requires Closed(h) && i < |s| && fuel >= |s| - i && !drop(s[i])
    requires Distinct(s) && l !in s
    requires IsList(h, l, Kept(s[..i], drop) + s[i..])
    requires forall j :: 0 <= j < i && drop(s[j]) ==> s[j] < |h| && Detached(h, s[j])
    ensures Traverse(h, l, s[i], drop, fuel).1 == s[i..]
    ensures IsList(Traverse(h, l, s[i], drop, fuel).0, l, Kept(s, drop))
    ensures forall j :: 0 <= j < |s| && drop(s[j]) ==>
              s[j] < |h| && Detached(Traverse(h, l, s[i], drop, fuel).0, s[j])
    decreases |s| - i, 0
  {
    StepFacts(h, l, s, i, drop);
    TraverseFrom(h, l, s, i + 1, drop, fuel - 1);
    TraverseUnfold(h, h, l, s[i], At(l, s, i + 1), drop, fuel);
    TraverseTransfer(Traverse(h, l, s[i], drop, fuel), Traverse(h, l, At(l, s, i + 1), drop, fuel - 1), |h|, l, s, i, drop);
  }

  /** The facts about the rest of the traversal are facts about the whole, one link longer. */
  lemma TraverseTransfer(r: (Heap, seq<NodeId>), rest: (Heap, seq<NodeId>), n: nat, l: NodeId, s: seq<NodeId>, i: nat,
                         drop: NodeId -> bool)
    requires i < |s| && r == (rest.0, [s[i]] + rest.1) && |rest.0| == n
    requires rest.1 == s[i + 1..]
    requires IsList(rest.0, l, Kept(s, drop))
    requires forall j :: 0 <= j < |s| && drop(s[j]) ==> s[j] < n && Detached(rest.0, s[j])
    ensures r.1 == s[i..]
    ensures IsList(r.0, l, Kept(s, drop))
    ensures forall j :: 0 <= j < |s| && drop(s[j]) ==> s[j] < n && Detached(r.0, s[j])
  {
    assert r.0 == rest.0;
    assert s[i..] == [s[i]] + s[i + 1..];
  }

  /** One iteration of `list_foreach_link`: read the successor, run the body, go on from the successor. */
  lemma TraverseUnfold(h: Heap, h1: Heap, l: NodeId, x: NodeId, nx: NodeId, drop: NodeId -> bool, fuel: nat)
    requires Closed(h) && fuel > 0 && x != l && x < |h|
    requires nx == h[x].next && h1 == (if drop(x) then LinkRemove(h, x).0 else h)
    ensures Closed(h1)
    ensures Traverse(h, l, x, drop, fuel) == (Traverse(h1, l, nx, drop, fuel - 1).0, [x] + Traverse(h1, l, nx, drop, fuel - 1).1)
  {
  }

  /** The successor read before the body runs is the next position of the original sequence. */
  lemma StepFacts(h: Heap, l: NodeId, s: seq<NodeId>, i: nat, drop: NodeId -> bool)
    requires i < |s| && IsList(h, l, Kept(s[..i], drop) + s[i..])
    ensures s[i] < |h| && h[s[i]].next == At(l, s, i + 1)
    ensures !drop(s[i]) ==> Kept(s[..i], drop) + s[i..] == Kept(s[..i + 1], drop) + s[i + 1..]
  {
    var k := Kept(s[..i], drop);
    var c := k + s[i..];
    var m := |k|;
    assert c[m] == s[i];
    assert h[c[m]] == Link(NextIn(l, c, m), PrevIn(l, c, m));
    KeptSplit(s, i, drop);
    if !drop(s[i]) {
      assert s[i..] == [s[i]] + s[i + 1..];
    }
  }

  /** One step of the traversal whose body unlinks the current link. */
  lemma DropStep(h: Heap, l: NodeId, s: seq<NodeId>, i: nat, drop: NodeId -> bool)
    requires Closed(h) && i < |s| && drop(s[i])
    requires Distinct(s) && l !in s
    requires IsList(h, l, Kept(s[..i], drop) + s[i..])
    requires forall j :: 0 <= j < i && drop(s[j]) ==> s[j] < |h| && Detached(h, s[j])
    ensures s[i] < |h|
    ensures IsList(LinkRemove(h, s[i]).0, l, Kept(s[..i + 1], drop) + s[i + 1..])
    ensures forall j :: 0 <= j < i + 1 && drop(s[j]) ==> s[j] < |h| && Detached(LinkRemove(h, s[i]).0, s[j])
  {
    var k := Kept(s[..i], drop);
    var c := k + s[i..];
    var m := |k|;
    DropSplit(s, i, drop);
    RemoveAt(h, l, c, m);
    forall j | 0 <= j < i && drop(s[j])
      ensures Detached(LinkRemove(h, s[i]).0, s[j])
    {
      assert s[j] in s[..i];
      KeptMembers(s[..i], drop);
      assert s[j] !in k;
      assert s[j] !in s[i..];
      UntouchedByRemove(h, l, c, m, s[j]);
    }
  }

  /** Dropping position `i` from the traversal state gives the state at `i + 1`. */
  lemma DropSplit(s: seq<NodeId>, i: nat, drop: NodeId -> bool)
    requires i < |s| && drop(s[i])
    ensures var c := Kept(s[..i], drop) + s[i..];
      var m := |Kept(s[..i], drop)|;
      m < |c| && c[m] == s[i] && c[..m] + c[m + 1..] == Kept(s[..i + 1], drop) + s[i + 1..]
  {
    KeptSplit(s, i, drop);
    var k := Kept(s[..i], drop);
    var c := k + s[i..];
    assert c[..|k|] == k;
    assert c[|k| + 1..] == s[i + 1..];
  }

  /** The traversal keeps exactly the members the body does not drop. */
  lemma {:induction false} KeptMembers(s: seq<NodeId>, drop: NodeId -> bool)
    ensures forall x :: x in Kept(s, drop) <==> x in s && !drop(x)
  {
    if s != [] {
      KeptMembers(s[1..], drop);
      assert s == [s[0]] + s[1..];
    }
  }

  /** `link_remove` of a member leaves every link outside the ring as it was. */
  lemma UntouchedByRemove(h: Heap, l: NodeId, c: seq<NodeId>, m: nat, d: NodeId)
    requires Closed(h) && IsList(h, l, c) && m < |c| && d < |h| && d !in c && d != l
    ensures LinkRemove(h, c[m]).0[d] == h[d]
  {
    assert h[c[m]] == Link(NextIn(l, c, m), PrevIn(l, c, m));
  }

  /**
   * `list_foreach_link` whose body may unlink the current link: every
   * original member is visited exactly once, in order; the dropped ones end
   * up detached and the rest stay, in order.
   */
  lemma ForeachVisitsEachOnce(h: Heap, l: NodeId, s: seq<NodeId>, drop: NodeId -> bool)
    requires Closed(h) && IsList(h, l, s)
    ensures ForeachLink(h, l, drop).1 == s
    ensures IsList(ForeachLink(h, l, drop).0, l, Kept(s, drop))
    ensures forall j :: 0 <= j < |s| && drop(s[j]) ==> Detached(ForeachLink(h, l, drop).0, s[j])
  {
    DistinctBound(s, |h|);
    assert s[..0] == [] && s[0..] == s;
    TraverseFrom(h, l, s, 0, drop, |h|);
  }

  /** The drain loop: unlinking every visited link empties the list and detaches every member. */
  lemma DrainEmpties(h: Heap, l: NodeId, s: seq<NodeId>)
    requires Closed(h) && IsList(h, l, s)
    ensures ForeachLink(h, l, DropAll).1 == s
    ensures IsList(ForeachLink(h, l, DropAll).0, l, [])
    ensures forall j :: 0 <= j < |s| ==> Detached(ForeachLink(h, l, DropAll).0, s[j])
  {
    ForeachVisitsEachOnce(h, l, s, DropAll);
    KeptNothing(s);
  }

  lemma {:induction false} KeptNothing(s: seq<NodeId>)
    ensures Kept(s, DropAll) == []
  {
    if s != [] {
      KeptNothing(s[1..]);
    }
  }

  /** Adding a detached link to the arena changes no list: the new link is not a member of any. */
  lemma GrowArena(h: Heap, l: NodeId, s: seq<NodeId>)
    requires Closed(h) && IsList(h, l, s)
    ensures Closed(h + [Link(|h|, |h|)])
    ensures IsList(h + [Link(|h|, |h|)], l, s)
    ensures Detached(h + [Link(|h|, |h|)], |h|)
  {
    var h' := h + [Link(|h|, |h|)];
    forall x | 0 <= x < |h'|
      ensures h'[x].next < |h'| && h'[x].prev < |h'|
    {
      if x < |h| {
        assert h'[x] == h[x];
      }
    }
    forall j | 0 <= j < |s|
      ensures h'[s[j]] == Link(NextIn(l, s, j), PrevIn(l, s, j))
    {
      assert h'[s[j]] == h[s[j]];
    }
    assert h'[l] == h[l];
  }
}
