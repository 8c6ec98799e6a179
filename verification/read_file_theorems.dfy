/**
 * The getters of the read-file object, and what `read_file_new` promises
 * end to end: the text it reads, the allocations it makes under the fault
 * injector, and that nothing leaks once the object is deleted.
 */
module ReadFileTheorems {
  import opened Optional
  import opened LinkList
  import opened LinkListLemmas
  import opened MallMock
  import opened Allocator
  import opened Lines
  import opened LinesLemmas
  import opened ReadFile
  import opened ReadFileProofs

  // ---------------------------------------------------------------------------
  // The getters.
  // ---------------------------------------------------------------------------

  /** `read_file_get_line_count` counts the links on the line list, which are the lines. */
  lemma GetLineCountSpec(f: ReadFileObject)
    requires Valid(f)
    ensures GetLineCount(Some(f)) == |LinesOf(f)|
    ensures GetLineCount(Some(f)) == |Elements(f.links, Sentinel)|
  {
    ElementsAreMembers(f.links, Sentinel, Ids(|f.items|));
  }

  /**
   * The countdown from the link of item `x - 1`: `n` steps further on is
   * the item `x - 1 + n`, or the sentinel once the items run out.
   */
  lemma {:induction false} LineAtIds(links: Heap, items: seq<Block>, x: NodeId, n: nat, fuel: nat)
    requires IsList(links, Sentinel, Ids(|items|))
    requires 1 <= x <= |items| && fuel >= |items| - x + 1
    ensures LineAt(links, items, x, n, fuel) == if x - 1 + n < |items| then Some(items[x - 1 + n].text) else None
    decreases n
  {
    var m := |items|;
    var s := Ids(m);
    assert s[x - 1] == x;
    assert links[s[x - 1]] == Link(NextIn(Sentinel, s, x - 1), PrevIn(Sentinel, s, x - 1));
    if n > 0 {
      if x < m {
        assert links[x].next == x + 1;
        LineAtIds(links, items, x + 1, n - 1, fuel - 1);
      } else {
        assert links[x].next == Sentinel;
      }
    }
  }

  /** `read_file_get_line` returns the `n`-th line, and `NULL` past the last one. */
  lemma GetLineSpec(f: ReadFileObject, n: nat)
    requires Valid(f)
    ensures GetLine(Some(f), n) == if n < |LinesOf(f)| then Some(LinesOf(f)[n]) else None
  {
    var m := |f.items|;
    if m > 0 {
      assert Ids(m)[0] == 1;
      LineAtIds(f.links, f.items, 1, n, m + 1);
    }
  }

  // ---------------------------------------------------------------------------
  // read_file_new end to end.
  // ---------------------------------------------------------------------------

  /** Freeing blocks that were all fresh gives back the live set as it was before they were allocated. */
  lemma ReturnFresh(live: set<nat>, next: nat, b: nat, blocks: set<nat>)
    requires forall a :: a in live ==> a < next
    requires blocks == Range(next, b)
    ensures live + blocks - blocks == live
  {
    InRange(next, b);
  }

  /** Deleting an object that owns only fresh blocks gives back the live set from before they were allocated. */
  lemma DeleteFresh(w: World, w': World, f: ReadFileObject, b: nat)
    requires Good(w) && Valid(f)
    requires Blocks(f) == Range(w.nextAddr, b) && w'.live == w.live + Blocks(f)
    ensures Delete(w', Some(f)).live == w.live
  {
    DeleteSpec(w', f);
    ReturnFresh(w.live, w.nextAddr, b, Blocks(f));
  }

  /**
   * Whatever the fault injector decides, `read_file_new` followed by
   * `read_file_delete` of its result leaves exactly the blocks that were
   * live before: no path leaks.
   */
  lemma NewThenDelete(w: World, name: seq<char>, content: seq<char>, chunks: seq<nat>,
                      policy: FullBufferPolicy)
    requires Good(w) && w.mock.failReturn == Null
    ensures var r := New(w, Some(name), Some(content), chunks, policy);
      Delete(r.0, r.1).live == w.live
  {
    var r := New(w, Some(name), Some(content), chunks, policy);
    if r.1.None? {
      NewFail(w, name, content, chunks, policy);
    } else {
      NewOk(w, name, content, chunks, policy);
      NewOwns(w, name, content, chunks, policy);
      DeleteFresh(w, r.0, r.1.value, w.nextAddr + |Scan(content, chunks, policy)| + 2);
    }
  }

  /**
   * The lines of a new object are the scanned lines; with the corrected
   * full-buffer branch they put back together are the file, whatever sizes
   * the reads come in; with either branch, when every line fits the buffer
   * they are the file's lines exactly.
   */
  lemma NewText(w: World, name: seq<char>, content: seq<char>, chunks: seq<nat>, policy: FullBufferPolicy)
    requires w.mock.failReturn == Null
    requires New(w, Some(name), Some(content), chunks, policy).1.Some?
    ensures policy == Intended ==> Concat(LinesOf(New(w, Some(name), Some(content), chunks, policy).1.value)) == content
    ensures ShortLines(content) ==> LinesOf(New(w, Some(name), Some(content), chunks, policy).1.value) == SplitLines(content)
  {
    NewOk(w, name, content, chunks, policy);
    ScanIntendedConcat(content, chunks);
    if ShortLines(content) {
      ScanShort(content, chunks, policy);
    }
  }

  /**
   * `read_file_new` as written, disarmed, on a file of `"a\n"` and 1024
   * `x` read in full reads: it succeeds but stores `"a\n"` and `"xx"`,
   * so the object's lines do not put the file back together.
   */
  lemma NewAsWrittenLoses(w: World, name: seq<char>)
    requires !w.mock.hookActive && w.mock.failReturn == Null
    ensures var r := New(w, Some(name), Some(LongTailContent()), [], AsWritten);
      && r.1.Some?
      && LinesOf(r.1.value) == ["a\n", "xx"]
      && Concat(LinesOf(r.1.value)) != LongTailContent()
  {
    DisarmedNew(w, name, LongTailContent(), [], AsWritten);
    NewOk(w, name, LongTailContent(), [], AsWritten);
    AsWrittenDropsBytes();
  }

  /**
   * Armed to fail the call with ordinal `k`, `read_file_new` on a file
   * with `n` scanned lines fails exactly when `k < n + 2`; the counter
   * then stands just past the refused call, and otherwise at `n + 2`.
   */
  lemma ArmedNew(w: World, st: MockState, k: nat, name: seq<char>, content: seq<char>, chunks: seq<nat>,
                 policy: FullBufferPolicy)
    requires w.mock == Arm(st, Null, k)
    ensures var r := New(w, Some(name), Some(content), chunks, policy); var n := |Scan(content, chunks, policy)|;
      && (r.1.None? <==> k < n + 2)
      && r.0.mock == MockState(if k < n + 2 then k + 1 else n + 2, k, Null, true)
  {
    var n := |Scan(content, chunks, policy)|;
    NewGrants(w, name, content, chunks, policy);
    ArmedRun(w.mock, if k < n + 2 then k + 1 else n + 2);
  }

  /** Disarmed, the fault injector refuses nothing: `read_file_new` succeeds and the injector's state is unchanged. */
  lemma DisarmedNew(w: World, name: seq<char>, content: seq<char>, chunks: seq<nat>, policy: FullBufferPolicy)
    requires !w.mock.hookActive && w.mock.failReturn == Null
    ensures New(w, Some(name), Some(content), chunks, policy).1.Some?
    ensures New(w, Some(name), Some(content), chunks, policy).0.mock == w.mock
  {
    var n := |Scan(content, chunks, policy)|;
    NewGrants(w, name, content, chunks, policy);
    DisarmedRun(w.mock, n + 2);
  }

  /**
   * The low-memory test for any file whose lines fit the buffer: with the
   * call of ordinal `k` failing, `read_file_new` returns `NULL` and leaks
   * nothing while `k` is below `n + 2`; from `n + 2` on it returns the
   * object, which reports the name, the line count and every line.
   */
  lemma LowMemory(w: World, st: MockState, k: nat, name: seq<char>, content: seq<char>, chunks: seq<nat>,
                  policy: FullBufferPolicy, ls: seq<seq<char>>)
    requires Good(w) && w.mock == Arm(st, Null, k) && ShortLines(content) && ls == SplitLines(content)
    ensures var r := New(w, Some(name), Some(content), chunks, policy);
      && (k < |ls| + 2 ==> r.1.None? && r.0.live == w.live)
      && (k >= |ls| + 2 ==> && r.1.Some?
                            && GetFilename(r.1) == Some(name)
                            && GetLineCount(r.1) == |ls|
                            && (forall i :: 0 <= i < |ls| ==> GetLine(r.1, i) == Some(ls[i]))
                            && (forall i :: |ls| <= i ==> GetLine(r.1, i) == None))
  {
    var r := New(w, Some(name), Some(content), chunks, policy);
    ScanShort(content, chunks, policy);
    ArmedNew(w, st, k, name, content, chunks, policy);
    if r.1.None? {
      NewFail(w, name, content, chunks, policy);
    } else {
      var f := r.1.value;
      NewOk(w, name, content, chunks, policy);
      GetLineCountSpec(f);
      forall i | 0 <= i
        ensures GetLine(r.1, i) == if i < |LinesOf(f)| then Some(LinesOf(f)[i]) else None
      {
        GetLineSpec(f, i);
      }
    }
  }

  /** A newline-terminated line with no other newline, short enough for the buffer. */
  ghost predicate ShortLine(l: seq<char>) {
    l != [] && l[|l| - 1] == '\n' && '\n' !in l[..|l| - 1] && |l| <= BufferSize
  }

  /** Such a line fits the buffer. */
  lemma ShortBody(l: seq<char>)
    requires ShortLine(l)
    ensures |Body(l)| < BufferSize
  {
  }

  /** A line in front of a file that is one line. */
  lemma TwoLines(l0: seq<char>, l1: seq<char>)
    requires l0 != [] && l0[|l0| - 1] == '\n' && '\n' !in l0[..|l0| - 1]
    requires SplitLines(l1) == [l1]
    ensures SplitLines(l0 + l1) == [l0, l1]
  {
    LineThenRest(l0, l1);
  }

  /** Three such lines one after another split back into the three lines. */
  lemma ThreeLinesSplit(l0: seq<char>, l1: seq<char>, l2: seq<char>)
    requires ShortLine(l0) && ShortLine(l1) && ShortLine(l2)
    ensures SplitLines(l0 + l1 + l2) == [l0, l1, l2]
  {
    OneLine(l2);
    TwoLines(l1, l2);
    var t := l1 + l2;
    LineThenRest(l0, t);
    assert l0 + l1 + l2 == l0 + t;
  }

  /** A file of three lines fits the buffer when each of the three does. */
  lemma ShortFromThree(c: seq<char>, l0: seq<char>, l1: seq<char>, l2: seq<char>)
    requires SplitLines(c) == [l0, l1, l2]
    requires |Body(l0)| < BufferSize && |Body(l1)| < BufferSize && |Body(l2)| < BufferSize
    ensures ShortLines(c)
  {
    var ls := [l0, l1, l2];
    assert forall k :: 0 <= k < 3 ==> ls[k] == l0 || ls[k] == l1 || ls[k] == l2;
  }

  /** Every line of such a file fits the buffer. */
  lemma ThreeLinesShort(l0: seq<char>, l1: seq<char>, l2: seq<char>)
    requires ShortLine(l0) && ShortLine(l1) && ShortLine(l2)
    ensures ShortLines(l0 + l1 + l2)
  {
    ThreeLinesSplit(l0, l1, l2);
    ShortBody(l0);
    ShortBody(l1);
    ShortBody(l2);
    ShortFromThree(l0 + l1 + l2, l0, l1, l2);
  }

  /**
   * The low-memory test as written, for a file of three short lines: it
   * needs five allocations, so failing any of the calls `0` to `4` yields
   * `NULL` and leaks nothing.
   */
  lemma LowMemoryThreeLinesFail(w: World, st: MockState, k: nat, name: seq<char>, chunks: seq<nat>,
                                policy: FullBufferPolicy, l0: seq<char>, l1: seq<char>, l2: seq<char>)
    requires Good(w) && w.mock == Arm(st, Null, k) && k <= 4
    requires ShortLine(l0) && ShortLine(l1) && ShortLine(l2)
    ensures New(w, Some(name), Some(l0 + l1 + l2), chunks, policy).1.None?
    ensures New(w, Some(name), Some(l0 + l1 + l2), chunks, policy).0.live == w.live
  {
    ThreeLinesSplit(l0, l1, l2);
    ThreeLinesShort(l0, l1, l2);
    LowMemory(w, st, k, name, l0 + l1 + l2, chunks, policy, [l0, l1, l2]);
  }

  /**
   * ... and failing call `5` lets `read_file_new` succeed with the name
   * and all three lines, the fourth and fifth lines being `NULL`.
   */
  lemma LowMemoryThreeLinesOk(w: World, st: MockState, name: seq<char>, chunks: seq<nat>,
                              policy: FullBufferPolicy, l0: seq<char>, l1: seq<char>, l2: seq<char>)
    requires Good(w) && w.mock == Arm(st, Null, 5)
    requires ShortLine(l0) && ShortLine(l1) && ShortLine(l2)
    ensures var r := New(w, Some(name), Some(l0 + l1 + l2), chunks, policy);
      && r.1.Some? && GetFilename(r.1) == Some(name) && GetLineCount(r.1) == 3
      && GetLine(r.1, 0) == Some(l0) && GetLine(r.1, 1) == Some(l1) && GetLine(r.1, 2) == Some(l2)
      && GetLine(r.1, 3) == None && GetLine(r.1, 4) == None
  {
    ThreeLinesSplit(l0, l1, l2);
    ThreeLinesShort(l0, l1, l2);
    var ls := [l0, l1, l2];
    LowMemory(w, st, 5, name, l0 + l1 + l2, chunks, policy, ls);
    assert ls[0] == l0 && ls[1] == l1 && ls[2] == l2;
  }
}
