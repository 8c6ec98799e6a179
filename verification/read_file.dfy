/**
 * The read-file object of `read_file.c`: a file's lines, each in a heap
 * block that carries a list link, chained on a list whose sentinel lives in
 * the object.
 *
 * The links of one object sit in their own arena: link 0 is the sentinel
 * `line_list`, and link `k + 1` is the link of the `k`-th line item
 * created. Every block (the object, the copy of the file name, each line
 * item) is allocated through the fault injector, so `World` tracks which
 * blocks are live.
 */
module ReadFile {
  import opened Optional
  import opened LinkList
  import opened MallMock
  import opened Allocator
  import opened Lines
  import LinesLemmas

  /** The sentinel link `line_list` inside the object. */
  const Sentinel: NodeId := 0

  /** `sizeof(link_t)`, two pointers on an LP64 target: the header of a line item. */
  const LinkSize: nat := 16

  /** `sizeof(struct read_file_s)` on an LP64 target: a pointer, a `size_t` and a `link_t`. */
  const ObjectSize: nat := 32

  /** A heap block holding text: a line item or the copy of the file name. */
  datatype Block = Block(addr: nat, text: seq<char>)

  /**
   * `struct read_file_s` at address `addr`. `filename` is `None` while
   * `strdup` has not succeeded; `links` is the arena of the sentinel and
   * the item links; `items[k]` is the line item whose link is `k + 1`.
   */
  datatype ReadFileObject = ReadFileObject(addr: nat, filename: Option<Block>, lineCount: nat,
                                           links: Heap, items: seq<Block>)

  /** The shape every object keeps: one link per item plus the sentinel, all pointers inside the arena. */
  ghost predicate Shaped(f: ReadFileObject) {
    Closed(f.links) && |f.links| == |f.items| + 1
  }

  /**
   * `read_file_add_line`: allocate an item of `LinkSize + |line| + 1`
   * bytes, copy the line into it and link it at the tail. Returns the new
   * world, the object, and whether the allocation succeeded.
   */
  function AddLine(w: World, f: ReadFileObject, line: seq<char>): (r: (World, ReadFileObject, bool))
    requires Shaped(f) && |line| > 0
    ensures r.0.mock == Decide(w.mock).0
    ensures Shaped(r.1)
    ensures !r.2 ==> r.1 == f && r.0.live == w.live
    ensures r.2 ==> r.1.lineCount == f.lineCount + 1 && r.1.addr == f.addr && r.1.filename == f.filename
    ensures r.2 ==> |r.1.items| == |f.items| + 1 && r.1.items[..|f.items|] == f.items
    ensures r.2 ==> r.1.items[|f.items|].text == line
  {
    var (w1, p) := Allocate(w, Calloc(1, LinkSize + |line| + 1));
    if p == Null then (w1, f, false)
    else
      var id := |f.links|;
      var h := f.links + [Link(id, id)];
      assert Closed(h) by {
        forall x | 0 <= x < |h| ensures h[x].next < |h| && h[x].prev < |h| {
          if x < id { assert h[x] == f.links[x]; }
        }
      }
      var f' := f.(lineCount := f.lineCount + 1,
                   links := ListInsertPrev(h, Sentinel, id),
                   items := f.items + [Block(p.a, line)]);
      (w1, f', true)
  }

  /**
   * The lines handed to `read_file_add_line`, one after another, stopping
   * at the first failed allocation (`goto Error`).
   */
  function AddLines(w: World, f: ReadFileObject, lines: seq<seq<char>>): (r: (World, ReadFileObject, bool))
    requires Shaped(f)
    requires forall k :: 0 <= k < |lines| ==> |lines[k]| > 0
    ensures Shaped(r.1)
    ensures r.1.addr == f.addr && r.1.filename == f.filename
    ensures r.2 ==> r.1.lineCount == f.lineCount + |lines|
    decreases |lines|
  {
    if lines == [] then (w, f, true)
    else
      var (w1, f1, ok) := AddLine(w, f, lines[0]);
      if !ok then (w1, f1, false)
      else AddLines(w1, f1, lines[1..])
  }

  /** Free the item of every link visited; the sentinel and unknown ids have no item. */
  function FreeItems(w: World, items: seq<Block>, visited: seq<NodeId>): (r: World)
    ensures r.mock == w.mock && r.nextAddr == w.nextAddr
    ensures r.live <= w.live
    decreases |visited|
  {
    if visited == [] then w
    else
      var id := visited[0];
      var w1 := if 0 < id <= |items| then Free(w, items[id - 1].addr) else w;
      FreeItems(w1, items, visited[1..])
  }

  /**
   * `read_file_delete`: nothing for `NULL`; otherwise unlink and free every
   * item, then the name copy when there is one, then the object.
   */
  function Delete(w: World, f: Option<ReadFileObject>): (r: World)
    requires f.Some? ==> Shaped(f.value)
    ensures r.mock == w.mock && r.nextAddr == w.nextAddr
    ensures r.live <= w.live
    ensures f.None? ==> r == w
    ensures f.Some? ==> f.value.addr !in r.live
    ensures f.Some? && f.value.filename.Some? ==> f.value.filename.value.addr !in r.live
  {
    match f
    case None => w
    case Some(obj) =>
      var (_, visited) := ForeachLink(obj.links, Sentinel, DropAll);
      var w1 := FreeItems(w, obj.items, visited);
      var w2 := if obj.filename.Some? then Free(w1, obj.filename.value.addr) else w1;
      Free(w2, obj.addr)
  }

  /**
   * `read_file_delete_null`: `slot` is `f_ptr` (`None` for a `NULL`
   * pointer) and its content is `*f_ptr`. The object is deleted and the
   * variable cleared.
   */
  function DeleteNull(w: World, slot: Option<Option<ReadFileObject>>): (r: (World, Option<Option<ReadFileObject>>))
    requires slot.Some? && slot.value.Some? ==> Shaped(slot.value.value)
    ensures slot.None? ==> r == (w, None)
    ensures slot.Some? ==> r.1 == Some(None)
    ensures r.0.live <= w.live && r.0.mock == w.mock
  {
    match slot
    case None => (w, None)
    case Some(f) => (Delete(w, f), Some(None))
  }

  /** The object as `calloc` and `list_init` leave it: no name yet, an empty list. */
  function EmptyObject(addr: nat): (f: ReadFileObject)
    ensures Shaped(f) && f.addr == addr && f.filename.None? && f.items == [] && f.lineCount == 0
  {
    ReadFileObject(addr, None, 0, ListInit([Link(0, 0)], Sentinel), [])
  }

  /**
   * `read_file_new`. `filename` is `None` for a `NULL` argument; `file` is
   * the content of the named file, `None` when `open` fails; `chunks` sizes
   * the short reads. `policy` picks the full-buffer branch of the read
   * loop: `AsWritten` is the loop of `read_file.c` line for line,
   * `Intended` the one that hands over the whole buffer. On failure every
   * block allocated so far is freed and the result is `None`.
   */
  function New(w: World, filename: Option<seq<char>>, file: Option<seq<char>>, chunks: seq<nat>,
               policy: FullBufferPolicy)
    : (r: (World, Option<ReadFileObject>))
    ensures filename.None? || file.None? ==> r == (w, None)
    ensures r.1.Some? ==> Shaped(r.1.value) && r.1.value.filename.Some? && r.1.value.filename.value.text == filename.value
    ensures r.1.Some? ==> r.1.value.lineCount == |Scan(file.value, chunks, policy)|
  {
    if filename.None? || file.None? then (w, None)
    else
      var (w1, p) := Allocate(w, Calloc(1, ObjectSize));
      if p == Null then (w1, None)
      else NameAndLines(w1, EmptyObject(p.a), filename.value, file.value, chunks, policy)
  }

  /** `read_file_new` once the object exists: copy the name, then read the lines. */
  function NameAndLines(w: World, f: ReadFileObject, name: seq<char>, content: seq<char>, chunks: seq<nat>,
                        policy: FullBufferPolicy)
    : (r: (World, Option<ReadFileObject>))
    requires Shaped(f) && f.lineCount == 0
    ensures r.1.Some? ==> Shaped(r.1.value) && r.1.value.filename.Some? && r.1.value.filename.value.text == name
    ensures r.1.Some? ==> r.1.value.lineCount == |Scan(content, chunks, policy)|
  {
    var (w1, q) := Allocate(w, Malloc(|name| + 1));
    if q == Null then (Delete(w1, Some(f)), None)
    else LoadLines(w1, f.(filename := Some(Block(q.a, name))), content, chunks, policy)
  }

  /**
   * The read loop and the final flush of `read_file_new`: every line the
   * scanner produces goes to `read_file_add_line`; the first failure
   * deletes the object (`goto Error`).
   */
  function LoadLines(w: World, f: ReadFileObject, content: seq<char>, chunks: seq<nat>, policy: FullBufferPolicy)
    : (r: (World, Option<ReadFileObject>))
    requires Shaped(f)
    ensures r.1.Some? ==> Shaped(r.1.value) && r.1.value.filename == f.filename
    ensures r.1.Some? ==> r.1.value.lineCount == f.lineCount + |Scan(content, chunks, policy)|
  {
    var lines := Scan(content, chunks, policy);
    LinesLemmas.ScanNonEmpty(content, chunks, policy);
    var (w1, f1, ok) := AddLines(w, f, lines);
    if ok then (w1, Some(f1)) else (Delete(w1, Some(f1)), None)
  }

  /** `read_file_get_filename`: `NULL` for no object. */
  function GetFilename(f: Option<ReadFileObject>): (r: Option<seq<char>>)
    ensures f.None? ==> r.None?
    ensures f.Some? && f.value.filename.Some? ==> r == Some(f.value.filename.value.text)
  {
    match f
    case None => None
    case Some(obj) => if obj.filename.Some? then Some(obj.filename.value.text) else None
  }

  /** `read_file_get_line_count`: 0 for no object. */
  function GetLineCount(f: Option<ReadFileObject>): (r: nat)
    ensures f.None? ==> r == 0
  {
    match f
    case None => 0
    case Some(obj) => obj.lineCount
  }

  /**
   * The countdown of `read_file_get_line` from link `x`: the text of the
   * item `n` links further on, or `None` once the sentinel comes round.
   */
  function LineAt(links: Heap, items: seq<Block>, x: NodeId, n: nat, fuel: nat): (r: Option<seq<char>>)
    ensures r.Some? ==> exists k :: 0 <= k < |items| && items[k].text == r.value
    decreases fuel
  {
    if fuel == 0 || x == Sentinel || x >= |links| then None
    else if n == 0 then (if x <= |items| then Some(items[x - 1].text) else None)
    else LineAt(links, items, links[x].next, n - 1, fuel - 1)
  }

  /** `read_file_get_line`: the `n`-th line, `NULL` past the end or for no object. */
  function GetLine(f: Option<ReadFileObject>, n: nat): (r: Option<seq<char>>)
    ensures f.None? ==> r.None?
    ensures r.Some? ==> exists k :: 0 <= k < |f.value.items| && f.value.items[k].text == r.value
  {
    match f
    case None => None
    case Some(obj) =>
      if |obj.links| == 0 then None
      else LineAt(obj.links, obj.items, obj.links[Sentinel].next, n, |obj.links|)
  }
}
