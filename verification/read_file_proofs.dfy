/**
 * What `read_file_new`, `read_file_delete` and the getters promise, with
 * every allocation going through the fault injector.
 *
 * The theorems assume the injected failure value is `NULL`, as in the
 * low-memory test: a failing allocation then looks like an out-of-memory
 * `NULL` to the code under test.
 */
module ReadFileProofs {
  import opened Optional
  import opened LinkList
  import opened LinkListLemmas
  import opened MallMock
  import opened Allocator
  import opened Lines
  import opened LinesLemmas
  import opened ReadFile

  /** The link ids of the first `n` items, in creation order. */
  function Ids(n: nat): (s: seq<NodeId>)
    ensures |s| == n
    ensures forall k :: 0 <= k < n ==> s[k] == k + 1
  {
    if n == 0 then [] else Ids(n - 1) + [n]
  }

  /** A well-formed object: the list holds exactly the item links, in creation order. */
  ghost predicate Valid(f: ReadFileObject) {
    && Shaped(f)
    && f.lineCount == |f.items|
    && IsList(f.links, Sentinel, Ids(|f.items|))
  }

  /** The text of the lines, in order. */
  function LinesOf(f: ReadFileObject): seq<seq<char>> {
    Texts(f.items)
  }

  /** The text of each block, in order. */
  function Texts(items: seq<Block>): (t: seq<seq<char>>)
    ensures |t| == |items|
    ensures forall k :: 0 <= k < |items| ==> t[k] == items[k].text
  {
    if items == [] then [] else Texts(items[..|items| - 1]) + [items[|items| - 1].text]
  }

  /** The addresses `a, a + 1, ..., b - 1`. */
  function Range(a: nat, b: nat): set<nat>
    decreases b - a
  {
    if b <= a then {} else {a} + Range(a + 1, b)
  }

  /** `Range(a, b)` holds exactly the addresses from `a` up to but excluding `b`. */
  lemma {:induction false} InRange(a: nat, b: nat)
    ensures forall x :: x in Range(a, b) <==> a <= x < b
    decreases b - a
  {
    if b > a {
      InRange(a + 1, b);
    }
  }

  /** The heap blocks an object owns. */
  ghost function Blocks(f: ReadFileObject): set<nat> {
    {f.addr}
    + (if f.filename.Some? then {f.filename.value.addr} else {})
    + ItemAddrsFrom(f.items, 0)
  }

  /** The addresses of the items from position `j` on. */
  function ItemAddrsFrom(items: seq<Block>, j: nat): set<nat>
    decreases |items| - j
  {
    if j >= |items| then {} else {items[j].addr} + ItemAddrsFrom(items, j + 1)
  }

  /** The object, the name copy and the items occupy consecutive addresses from `base`, in allocation order. */
  ghost predicate LaidOut(f: ReadFileObject, base: nat) {
    && f.addr == base
    && f.filename.Some? && f.filename.value.addr == base + 1
    && forall k :: 0 <= k < |f.items| ==> f.items[k].addr == base + 2 + k
  }

  /** How many of the next `n` hooked calls are granted before the first failure. */
  function Granted(st: MockState, n: nat): nat {
    if PendingFailure(st).Some? && PendingFailure(st).value < n then PendingFailure(st).value else n
  }

  // ---------------------------------------------------------------------------
  // read_file_add_line.
  // ---------------------------------------------------------------------------

  /**
   * `read_file_add_line` fails exactly when its allocation is refused, and
   * then changes nothing.
   */
  lemma AddLineOutcome(w: World, f: ReadFileObject, line: seq<char>)
    requires Shaped(f) && |line| > 0 && w.mock.failReturn == Null
    ensures AddLine(w, f, line).2 <==> Decide(w.mock).1 == Delegate
    ensures !AddLine(w, f, line).2 ==> AddLine(w, f, line).0 == w.(mock := Decide(w.mock).0)
  {
  }

  /**
   * A successful `read_file_add_line` appends the line, in a fresh block,
   * at the tail of the list.
   */
  lemma AddLineAppends(w: World, f: ReadFileObject, line: seq<char>)
    requires Valid(f) && |line| > 0 && w.mock.failReturn == Null
    requires AddLine(w, f, line).2
    ensures var r := AddLine(w, f, line);
      && Valid(r.1) && LinesOf(r.1) == LinesOf(f) + [line]
      && r.1.items[|f.items|].addr == w.nextAddr
      && r.0.live == w.live + {w.nextAddr} && r.0.nextAddr == w.nextAddr + 1
  {
    var r := AddLine(w, f, line);
    var n := |f.items|;
    GrowArena(f.links, Sentinel, Ids(n));
    var h := f.links + [Link(n + 1, n + 1)];
    InsertPrevAppends(h, Sentinel, Ids(n), n + 1);
    assert Ids(n) + [n + 1] == Ids(n + 1);
    assert r.1.links == ListInsertPrev(h, Sentinel, n + 1);
    assert r.1.items[..n] == f.items;
  }

  /** One round of the loop of `AddLines`. */
  lemma AddLinesUnfold(w: World, f: ReadFileObject, lines: seq<seq<char>>)
    requires Shaped(f) && lines != []
    requires forall k :: 0 <= k < |lines| ==> |lines[k]| > 0
    ensures var a := AddLine(w, f, lines[0]);
      AddLines(w, f, lines) == if a.2 then AddLines(a.0, a.1, lines[1..]) else a
  {
  }

  /** A delegated call uses up one of the calls granted before the failure. */
  lemma GrantedStep(st: MockState, n: nat, m: nat)
    requires n > 0 && Decide(st).1 == Delegate
    ensures Granted(st, n) == Granted(Decide(st).0, n - 1) + 1
    ensures Run(st, m + 1).0 == Run(Decide(st).0, m).0
  {
    PendingStep(st);
  }

  /**
   * `AddLines` asks for one allocation per line until one is refused:
   * it succeeds exactly when all of them are granted, and it adds one
   * item per granted allocation.
   */
  lemma {:induction false} AddLinesGrants(w: World, f: ReadFileObject, lines: seq<seq<char>>)
    requires Shaped(f) && w.mock.failReturn == Null
    requires forall k :: 0 <= k < |lines| ==> |lines[k]| > 0
    ensures var r := AddLines(w, f, lines); var g := Granted(w.mock, |lines|);
      && (r.2 <==> g == |lines|)
      && r.0.mock == Run(w.mock, if r.2 then |lines| else g + 1).0
      && |r.1.items| == |f.items| + g
    decreases |lines|
  {
    if lines != [] {
      PendingStep(w.mock);
      AddLineOutcome(w, f, lines[0]);
      AddLinesUnfold(w, f, lines);
      var a := AddLine(w, f, lines[0]);
      if a.2 {
        AddLinesGrants(a.0, a.1, lines[1..]);
        var r1 := AddLines(a.0, a.1, lines[1..]);
        GrantedStep(w.mock, |lines|, if r1.2 then |lines| - 1 else Granted(a.0.mock, |lines| - 1) + 1);
      }
    }
  }

  /**
   * `f'` is the well-formed `f` with the first lines of `lines` appended,
   * in order, each in a fresh block; `w'` is the world that allocated
   * them one after another from `w.nextAddr`.
   */
  ghost predicate Appended(w: World, f: ReadFileObject, lines: seq<seq<char>>, w': World, f': ReadFileObject) {
    && |f.items| <= |f'.items| <= |f.items| + |lines|
    && Valid(f')
    && LinesOf(f') == LinesOf(f) + lines[..|f'.items| - |f.items|]
    && f'.items[..|f.items|] == f.items
    && (forall k :: |f.items| <= k < |f'.items| ==> f'.items[k].addr == w.nextAddr + (k - |f.items|))
    && w'.nextAddr == w.nextAddr + (|f'.items| - |f.items|)
    && w'.live == w.live + Range(w.nextAddr, w'.nextAddr)
  }

  /**
   * The lines `AddLines` adds are the first lines of its input, in order,
   * each in a fresh block at the next address.
   */
  lemma {:induction false} AddLinesAppends(w: World, f: ReadFileObject, lines: seq<seq<char>>)
    requires Valid(f) && w.mock.failReturn == Null
    requires forall k :: 0 <= k < |lines| ==> |lines[k]| > 0
    ensures Appended(w, f, lines, AddLines(w, f, lines).0, AddLines(w, f, lines).1)
    decreases |lines|
  {
    if lines == [] {
      AppendedNone(w, f, lines, w);
    } else {
      AddLineOutcome(w, f, lines[0]);
      AddLinesUnfold(w, f, lines);
      var a := AddLine(w, f, lines[0]);
      if !a.2 {
        AppendedNone(w, f, lines, a.0);
      } else {
        AddLineAppends(w, f, lines[0]);
        AddLinesAppends(a.0, a.1, lines[1..]);
        var r1 := AddLines(a.0, a.1, lines[1..]);
        AppendsStep(w, a.0, f, a.1, r1.0, r1.1, lines);
      }
    }
  }

  /** Adding no line appends nothing. */
  lemma AppendedNone(w: World, f: ReadFileObject, lines: seq<seq<char>>, w': World)
    requires Valid(f) && w'.live == w.live && w'.nextAddr == w.nextAddr
    ensures Appended(w, f, lines, w', f)
  {
    assert LinesOf(f) + lines[..0] == LinesOf(f);
    assert f.items[..|f.items|] == f.items;
  }

  /** One added line followed by the rest of the loop. */
  lemma AppendsStep(w: World, w1: World, f: ReadFileObject, f1: ReadFileObject, w': World, f': ReadFileObject,
                    lines: seq<seq<char>>)
    requires |lines| > 0
    requires LinesOf(f1) == LinesOf(f) + [lines[0]] && |f1.items| == |f.items| + 1
    requires f1.items[|f.items|].addr == w.nextAddr && f1.items[..|f.items|] == f.items
    requires w1.live == w.live + {w.nextAddr} && w1.nextAddr == w.nextAddr + 1
    requires Appended(w1, f1, lines[1..], w', f')
    ensures Appended(w, f, lines, w', f')
  {
    var k1 := |f'.items| - |f1.items|;
    assert lines[..k1 + 1] == [lines[0]] + lines[1..][..k1];
    assert f'.items[..|f.items|] == f'.items[..|f1.items|][..|f.items|];
    forall k | |f.items| <= k < |f'.items|
      ensures f'.items[k].addr == w.nextAddr + (k - |f.items|)
    {
      if k == |f.items| {
        assert f'.items[k] == f'.items[..|f1.items|][k] == f1.items[k];
      }
    }
    assert Range(w.nextAddr, w'.nextAddr) == {w.nextAddr} + Range(w1.nextAddr, w'.nextAddr);
  }

  // ---------------------------------------------------------------------------
  // read_file_delete.
  // ---------------------------------------------------------------------------

  /** The addresses `FreeItems` hands to `free`: the item of each visited link that has one. */
  function FreedBy(items: seq<Block>, visited: seq<NodeId>): set<nat>
    decreases |visited|
  {
    if visited == [] then {}
    else (if 0 < visited[0] <= |items| then {items[visited[0] - 1].addr} else {}) + FreedBy(items, visited[1..])
  }

  /** Freeing the items of the visited links takes exactly their addresses out of the live set. */
  lemma {:induction false} FreeItemsSpec(w: World, items: seq<Block>, visited: seq<NodeId>)
    ensures FreeItems(w, items, visited).live == w.live - FreedBy(items, visited)
    decreases |visited|
  {
    if visited != [] {
      var id := visited[0];
      var w1 := if 0 < id <= |items| then Free(w, items[id - 1].addr) else w;
      FreeItemsSpec(w1, items, visited[1..]);
    }
  }

  /** Visiting the links `j + 1, ..., n` frees the items from position `j` on. */
  lemma {:induction false} FreedByIds(items: seq<Block>, j: nat)
    requires j <= |items|
    ensures FreedBy(items, Ids(|items|)[j..]) == ItemAddrsFrom(items, j)
    decreases |items| - j
  {
    if j < |items| {
      var vs := Ids(|items|)[j..];
      assert vs[0] == j + 1 && vs[1..] == Ids(|items|)[j + 1..];
      FreedByIds(items, j + 1);
    }
  }

  /** Visiting the link of every item frees every item. */
  lemma FreeAllItems(w: World, items: seq<Block>)
    ensures FreeItems(w, items, Ids(|items|)).live == w.live - ItemAddrsFrom(items, 0)
  {
    FreeItemsSpec(w, items, Ids(|items|));
    FreedByIds(items, 0);
    assert Ids(|items|)[0..] == Ids(|items|);
  }

  /**
   * `read_file_delete` of a well-formed object frees exactly the blocks it
   * owns: every item, the name copy when there is one, and the object.
   */
  lemma DeleteSpec(w: World, f: ReadFileObject)
    requires Valid(f)
    ensures Delete(w, Some(f)).live == w.live - Blocks(f)
    ensures Delete(w, Some(f)).mock == w.mock
  {
    ForeachVisitsEachOnce(f.links, Sentinel, Ids(|f.items|), DropAll);
    FreeAllItems(w, f.items);
  }

  /** `read_file_delete_null` deletes the object it is pointed at and clears the variable. */
  lemma DeleteNullSpec(w: World, f: ReadFileObject)
    requires Valid(f)
    ensures DeleteNull(w, Some(Some(f))) == (Delete(w, Some(f)), Some(None))
    ensures DeleteNull(w, Some(Some(f))).0.live == w.live - Blocks(f)
  {
    DeleteSpec(w, f);
  }

  // ---------------------------------------------------------------------------
  // read_file_new.
  // ---------------------------------------------------------------------------

  /** Items at consecutive addresses from `base` occupy exactly a range. */
  lemma {:induction false} ItemBlocks(items: seq<Block>, base: nat, j: nat)
    requires j <= |items|
    requires forall k :: 0 <= k < |items| ==> items[k].addr == base + k
    ensures ItemAddrsFrom(items, j) == Range(base + j, base + |items|)
    decreases |items| - j
  {
    if j < |items| {
      ItemBlocks(items, base, j + 1);
    }
  }

  /** An object laid out from `base` owns exactly the addresses from `base` on, one per block. */
  lemma LaidOutBlocks(f: ReadFileObject, base: nat)
    requires LaidOut(f, base)
    ensures Blocks(f) == Range(base, base + 2 + |f.items|)
  {
    var items := f.items;
    assert forall k :: 0 <= k < |items| ==> items[k].addr == (base + 2) + k;
    ItemBlocks(items, base + 2, 0);
  }

  /** Taking back fresh blocks, all past every live one, gives back the live set. */
  lemma GiveBack(live: set<nat>, next: nat, b: nat, gone: set<nat>)
    requires forall a :: a in live ==> a < next
    ensures live + Range(next, b) - (Range(next, b) + gone) == live - gone
  {
    InRange(next, b);
  }

  /**
   * The error path of `read_file_new` after the name copy and some items
   * were allocated, all at fresh addresses: deleting the object gives back
   * every fresh block as well as the object and the name copy.
   */
  lemma AbandonFreesAll(w: World, w1: World, f1: ReadFileObject, a: nat, b: nat)
    requires Good(w) && a in w.live && b in w.live
    requires Valid(f1) && f1.addr == a && f1.filename.Some? && f1.filename.value.addr == b
    requires forall k :: 0 <= k < |f1.items| ==> f1.items[k].addr == w.nextAddr + k
    requires w1.nextAddr == w.nextAddr + |f1.items|
    requires w1.live == w.live + Range(w.nextAddr, w1.nextAddr)
    ensures Delete(w1, Some(f1)).live == w.live - {a, b}
  {
    DeleteSpec(w1, f1);
    ItemBlocks(f1.items, w.nextAddr, 0);
    assert Blocks(f1) == Range(w.nextAddr, w1.nextAddr) + {a, b};
    GiveBack(w.live, w.nextAddr, w1.nextAddr, {a, b});
  }

  /** The read loop and the flush hand every scanned line, none of them empty, to `AddLines`. */
  lemma LoadLinesUnfold(w: World, f: ReadFileObject, content: seq<char>, chunks: seq<nat>,
                        policy: FullBufferPolicy)
    requires Shaped(f)
    ensures var lines := Scan(content, chunks, policy);
      && (forall k :: 0 <= k < |lines| ==> |lines[k]| > 0)
      && var a := AddLines(w, f, lines);
         LoadLines(w, f, content, chunks, policy) == if a.2 then (a.0, Some(a.1)) else (Delete(a.0, Some(a.1)), None)
  {
    ScanNonEmpty(content, chunks, policy);
  }

  /**
   * With `n` scanned lines the loop asks for `n` allocations and fails
   * exactly when one of them is refused, after which it asks for no more.
   */
  lemma LoadLinesGrants(w: World, f: ReadFileObject, content: seq<char>, chunks: seq<nat>,
                        policy: FullBufferPolicy)
    requires Shaped(f) && w.mock.failReturn == Null
    ensures var r := LoadLines(w, f, content, chunks, policy); var n := |Scan(content, chunks, policy)|;
      var g := Granted(w.mock, n);
      && (r.1.None? <==> g < n)
      && r.0.mock == Run(w.mock, if r.1.None? then g + 1 else n).0
  {
    LoadLinesUnfold(w, f, content, chunks, policy);
    AddLinesGrants(w, f, Scan(content, chunks, policy));
  }

  /** When the loop fails, the object, its name copy and every item added so far are freed. */
  lemma LoadLinesFail(w: World, f: ReadFileObject, content: seq<char>, chunks: seq<nat>,
                      policy: FullBufferPolicy)
    requires Good(w) && w.mock.failReturn == Null
    requires Valid(f) && f.items == [] && f.filename.Some?
    requires f.addr in w.live && f.filename.value.addr in w.live
    requires LoadLines(w, f, content, chunks, policy).1.None?
    ensures LoadLines(w, f, content, chunks, policy).0.live == w.live - {f.addr, f.filename.value.addr}
  {
    var lines := Scan(content, chunks, policy);
    LoadLinesUnfold(w, f, content, chunks, policy);
    AddLinesAppends(w, f, lines);
    var a := AddLines(w, f, lines);
    AbandonFreesAll(w, a.0, a.1, f.addr, f.filename.value.addr);
  }

  /**
   * `f` is well formed and holds `lines`, item `k` in the block at
   * `first + k`; `w'` is `w` plus every block handed out from `w.nextAddr`
   * up to the last item.
   */
  ghost predicate Holds(w: World, w': World, f: ReadFileObject, lines: seq<seq<char>>, first: nat) {
    && Valid(f) && LinesOf(f) == lines
    && w.nextAddr <= first
    && (forall k :: 0 <= k < |f.items| ==> f.items[k].addr == first + k)
    && w'.nextAddr == first + |lines|
    && w'.live == w.live + Range(w.nextAddr, w'.nextAddr)
  }

  /** A loop that added every line, starting from no items, leaves an object holding exactly those lines. */
  lemma HoldsFromAppended(w: World, f: ReadFileObject, lines: seq<seq<char>>, w': World, f': ReadFileObject)
    requires f.items == [] && |f'.items| == |lines|
    requires Appended(w, f, lines, w', f')
    ensures Holds(w, w', f', lines, w.nextAddr)
  {
    assert LinesOf(f) == [];
    assert lines[..|lines|] == lines;
  }

  /** One more block allocated in front of the ones an object holds. */
  lemma HoldsShift(w0: World, w: World, w': World, f: ReadFileObject, lines: seq<seq<char>>, first: nat)
    requires Holds(w, w', f, lines, first)
    requires w.live == w0.live + {w0.nextAddr} && w.nextAddr == w0.nextAddr + 1
    ensures Holds(w0, w', f, lines, first)
  {
    assert Range(w0.nextAddr, w'.nextAddr) == {w0.nextAddr} + Range(w.nextAddr, w'.nextAddr);
  }

  /** When the loop succeeds, the object holds the scanned lines, in `n` fresh blocks. */
  lemma LoadLinesOk(w: World, f: ReadFileObject, content: seq<char>, chunks: seq<nat>,
                    policy: FullBufferPolicy)
    requires w.mock.failReturn == Null
    requires Valid(f) && f.items == []
    requires LoadLines(w, f, content, chunks, policy).1.Some?
    ensures var r := LoadLines(w, f, content, chunks, policy);
      && r.1.value.addr == f.addr && r.1.value.filename == f.filename
      && Holds(w, r.0, r.1.value, Scan(content, chunks, policy), w.nextAddr)
  {
    var lines := Scan(content, chunks, policy);
    LoadLinesUnfold(w, f, content, chunks, policy);
    AddLinesGrants(w, f, lines);
    AddLinesAppends(w, f, lines);
    var a := AddLines(w, f, lines);
    HoldsFromAppended(w, f, lines, a.0, a.1);
  }

  /**
   * Once the object exists `read_file_new` asks for `n + 1` allocations,
   * the name copy first, and fails exactly when one of them is refused.
   */
  lemma NameAndLinesGrants(w: World, f: ReadFileObject, name: seq<char>, content: seq<char>, chunks: seq<nat>,
                           policy: FullBufferPolicy)
    requires Shaped(f) && f.lineCount == 0 && w.mock.failReturn == Null
    ensures var r := NameAndLines(w, f, name, content, chunks, policy); var n := |Scan(content, chunks, policy)|;
      var g := Granted(w.mock, n + 1);
      && (r.1.None? <==> g < n + 1)
      && r.0.mock == Run(w.mock, if r.1.None? then g + 1 else n + 1).0
  {
    var n := |Scan(content, chunks, policy)|;
    PendingStep(w.mock);
    var (w1, q) := Allocate(w, Malloc(|name| + 1));
    if q != Null {
      var f1 := f.(filename := Some(Block(q.a, name)));
      LoadLinesGrants(w1, f1, content, chunks, policy);
      var r := LoadLines(w1, f1, content, chunks, policy);
      GrantedStep(w.mock, n + 1, if r.1.None? then Granted(w1.mock, n) + 1 else n);
    }
  }

  /** When `read_file_new` fails after the object exists, the object and everything after it is freed. */
  lemma NameAndLinesFail(w: World, f: ReadFileObject, name: seq<char>, content: seq<char>, chunks: seq<nat>,
                         policy: FullBufferPolicy)
    requires Good(w) && w.mock.failReturn == Null
    requires Valid(f) && f.items == [] && f.filename.None? && f.addr in w.live
    requires NameAndLines(w, f, name, content, chunks, policy).1.None?
    ensures NameAndLines(w, f, name, content, chunks, policy).0.live == w.live - {f.addr}
  {
    var (w1, q) := Allocate(w, Malloc(|name| + 1));
    if q == Null {
      DeleteSpec(w1, f);
      assert Blocks(f) == {f.addr};
    } else {
      LoadLinesFail(w1, f.(filename := Some(Block(q.a, name))), content, chunks, policy);
      assert w1.live - {f.addr, w.nextAddr} == w.live - {f.addr};
    }
  }

  /** When `read_file_new` succeeds, the name copy and the lines sit in `n + 1` fresh blocks. */
  lemma NameAndLinesOk(w: World, f: ReadFileObject, name: seq<char>, content: seq<char>, chunks: seq<nat>,
                       policy: FullBufferPolicy)
    requires w.mock.failReturn == Null
    requires Valid(f) && f.items == [] && f.filename.None?
    requires NameAndLines(w, f, name, content, chunks, policy).1.Some?
    ensures var r := NameAndLines(w, f, name, content, chunks, policy);
      && r.1.value.addr == f.addr && r.1.value.filename == Some(Block(w.nextAddr, name))
      && Holds(w, r.0, r.1.value, Scan(content, chunks, policy), w.nextAddr + 1)
  {
    var (w1, q) := Allocate(w, Malloc(|name| + 1));
    if q == Null {
      assert false;
    } else {
      var f1 := f.(filename := Some(Block(q.a, name)));
      LoadLinesOk(w1, f1, content, chunks, policy);
      var r := LoadLines(w1, f1, content, chunks, policy);
      HoldsShift(w, w1, r.0, r.1.value, Scan(content, chunks, policy), w1.nextAddr);
    }
  }

  /**
   * `read_file_new` on a readable file with `n` scanned lines asks for
   * `n + 2` allocations: the object, the name copy and one per line. It
   * fails exactly when one of them is refused, and asks for nothing after
   * the refused one.
   */
  lemma NewGrants(w: World, name: seq<char>, content: seq<char>, chunks: seq<nat>, policy: FullBufferPolicy)
    requires w.mock.failReturn == Null
    ensures var r := New(w, Some(name), Some(content), chunks, policy);
      var n := |Scan(content, chunks, policy)|; var g := Granted(w.mock, n + 2);
      && (r.1.None? <==> g < n + 2)
      && r.0.mock == Run(w.mock, if r.1.None? then g + 1 else n + 2).0
  {
    var n := |Scan(content, chunks, policy)|;
    PendingStep(w.mock);
    var (w1, p) := Allocate(w, Calloc(1, ObjectSize));
    if p != Null {
      var f0 := EmptyObject(p.a);
      NameAndLinesGrants(w1, f0, name, content, chunks, policy);
      var r := NameAndLines(w1, f0, name, content, chunks, policy);
      GrantedStep(w.mock, n + 2, if r.1.None? then Granted(w1.mock, n + 1) + 1 else n + 1);
    }
  }

  /** A failed `read_file_new` leaks nothing: every block it allocated is freed. */
  lemma NewFail(w: World, name: seq<char>, content: seq<char>, chunks: seq<nat>, policy: FullBufferPolicy)
    requires Good(w) && w.mock.failReturn == Null
    requires New(w, Some(name), Some(content), chunks, policy).1.None?
    ensures New(w, Some(name), Some(content), chunks, policy).0.live == w.live
  {
    var (w1, p) := Allocate(w, Calloc(1, ObjectSize));
    if p != Null {
      var f0 := EmptyObject(p.a);
      assert Valid(f0);
      NameAndLinesFail(w1, f0, name, content, chunks, policy);
    }
  }

  /** An object holding its lines past the object and the name copy, laid out from `base`. */
  lemma HoldsLaidOut(w: World, w': World, f: ReadFileObject, lines: seq<seq<char>>, name: seq<char>)
    requires Holds(w, w', f, lines, w.nextAddr + 2)
    requires f.addr == w.nextAddr && f.filename == Some(Block(w.nextAddr + 1, name))
    requires w'.live == w.live + Range(w.nextAddr, w'.nextAddr)
    ensures LaidOut(f, w.nextAddr) && GetFilename(Some(f)) == Some(name)
    ensures Blocks(f) == Range(w.nextAddr, w.nextAddr + |lines| + 2)
    ensures w'.live == w.live + Blocks(f)
  {
    LaidOutBlocks(f, w.nextAddr);
  }

  /** A successful `read_file_new`: the object, the name copy and the items in consecutive fresh blocks. */
  lemma NewHolds(w: World, name: seq<char>, content: seq<char>, chunks: seq<nat>, policy: FullBufferPolicy)
    requires w.mock.failReturn == Null
    requires New(w, Some(name), Some(content), chunks, policy).1.Some?
    ensures var r := New(w, Some(name), Some(content), chunks, policy);
      && r.1.value.addr == w.nextAddr && r.1.value.filename == Some(Block(w.nextAddr + 1, name))
      && Holds(w, r.0, r.1.value, Scan(content, chunks, policy), w.nextAddr + 2)
  {
    var (w1, p) := Allocate(w, Calloc(1, ObjectSize));
    if p == Null {
      assert false;
    } else {
      var f0 := EmptyObject(p.a);
      assert Valid(f0);
      NameAndLinesOk(w1, f0, name, content, chunks, policy);
      var r := NameAndLines(w1, f0, name, content, chunks, policy);
      HoldsShift(w, w1, r.0, r.1.value, Scan(content, chunks, policy), w.nextAddr + 2);
    }
  }

  /** A successful `read_file_new` is well formed and holds the name and the scanned lines, in order. */
  lemma NewOk(w: World, name: seq<char>, content: seq<char>, chunks: seq<nat>, policy: FullBufferPolicy)
    requires w.mock.failReturn == Null
    requires New(w, Some(name), Some(content), chunks, policy).1.Some?
    ensures var r := New(w, Some(name), Some(content), chunks, policy);
      && Valid(r.1.value)
      && LinesOf(r.1.value) == Scan(content, chunks, policy)
      && GetFilename(r.1) == Some(name)
  {
    NewHolds(w, name, content, chunks, policy);
  }

  /**
   * A successful `read_file_new` owns exactly the `n + 2` fresh blocks,
   * laid out in allocation order: the object, the name copy, the lines.
   */
  lemma NewOwns(w: World, name: seq<char>, content: seq<char>, chunks: seq<nat>, policy: FullBufferPolicy)
    requires w.mock.failReturn == Null
    requires New(w, Some(name), Some(content), chunks, policy).1.Some?
    ensures var r := New(w, Some(name), Some(content), chunks, policy); var n := |Scan(content, chunks, policy)|;
      && LaidOut(r.1.value, w.nextAddr)
      && Blocks(r.1.value) == Range(w.nextAddr, w.nextAddr + n + 2)
      && r.0.live == w.live + Blocks(r.1.value)
      && r.0.nextAddr == w.nextAddr + n + 2
  {
    NewHolds(w, name, content, chunks, policy);
    var r := New(w, Some(name), Some(content), chunks, policy);
    HoldsLaidOut(w, r.0, r.1.value, Scan(content, chunks, policy), name);
  }
}
