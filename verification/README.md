# mallmock in Dafny

This project models the three pieces of the mallmock repository and proves properties of them:

- `mallmock.c`: the allocation fault injector. It interposes `malloc`, `calloc` and `realloc`. After `mallmock_set_any_alloc_return(rval, k)` the call with zero-based ordinal `k` returns `rval` instead of reaching libc. Every other call is delegated.
- `link_list.h`: the intrusive circular doubly-linked list.
- `read_file.c`: the read-file object. It reads a file into a list of heap-allocated lines and must give every block back when an allocation fails part way.

## Modules

- `Optional` (`optional.dfy`): the `Option` type.
- `LinkList` (`link_list.dfy`): the list model.
  - Links live in an arena `seq<Link>` indexed by link id. A link id stands for a `link_t*`.
  - Every splice performs the same stores as the C code, in the same order.
  - `IsList(h, l, s)` relates a sentinel `l` to the sequence `s` of its members.
  - `Elements(h, l)` walks the `next` pointers to compute that sequence.
- `LinkListLemmas` (`link_list_lemmas.dfy`): what each list operation does to the member sequence.
  - Also the ring invariant (`x->next->prev == x`).
  - Also the removal-safe `list_foreach_*` traversal.
- `MallMock` (`mallmock.dfy`): the four globals as a `MockState`.
  - The decision step shared by the three hooked entry points.
  - `mallmock_unhook`, `mallmock_reset` and `mallmock_set_any_alloc_return`.
  - `Run`, which makes `n` calls in a row, with lemmas about which call fails.
- `Allocator` (`allocator.dfy`): the heap seen by code running under the injector.
  - A delegated call hands out an address never handed out before.
  - `live` is the set of blocks not yet freed.
- `Lines` (`lines.dfy`): how lines are cut.
  - `SplitLines` is the reference: each line is the text up to and including a newline, plus a final unterminated piece.
  - `Scan` is the buffered `read` loop of `read_file_new`, with its 0x400-byte buffer, the slide of the leftover and the final flush.
  - `Scan` exists twice, as the code is written and as corrected (see Findings).
- `LinesLemmas` (`lines_lemmas.dfy`): the link between the scanner and the reference.
- `ReadFile` (`read_file.dfy`): the object and every public function of `read_file.c`.
- `ReadFileProofs` (`read_file_proofs.dfy`) and `ReadFileTheorems` (`read_file_theorems.dfy`): end-to-end properties of the object:
  - which allocation attempt fails;
  - which blocks are live afterwards;
  - what the getters return;
  - that a failure leaks nothing.

## Model

| member | source | states |
|---|---|---|
| LinkList.LinkInsertPrev | link_list.h:33-39 | the new link sits between `base` and its old predecessor: `base->prev` and the old predecessor's `next` point at it, it points back at both, and every other link is untouched |
| LinkList.LinkInsertNext | link_list.h:41-47 | the mirror image: the new link sits between `base` and its old successor, and nothing else changes |
| LinkList.LinkRemove | link_list.h:49-55 | the neighbours of `x` are joined to each other, `x` is left pointing at itself and is returned, and no other link changes |
| LinkList.ListInit | link_list.h:72-76 | afterwards the sentinel heads a list with no members, and the rest of the arena is unchanged |
| LinkList.ListRemovePrev | link_list.h:90-92 | NULL exactly when the list is empty, in which case nothing changes; otherwise the returned link is the old tail and is left self-referential |
| LinkList.ListRemoveNext | link_list.h:94-96 | NULL exactly when the list is empty, in which case nothing changes; otherwise the returned link is the old head and is left self-referential |
| LinkList.HasLink | link_list.h:108-117 | the result is 1 exactly when `x` is among the first `maxCount` members (none when `maxCount <= 0`); the sentinel itself is never found |
| LinkListLemmas.RingPointwise | link_list.h:19-22 | the ring invariant, stated pairwise, gives `x->next->prev == x` and `x->prev->next == x` for every link |
| LinkListLemmas.DetachedNotMember | link_list.h:49-55 | a self-referential link other than the sentinel is not a member of the list |
| LinkListLemmas.InsertPrevAt | link_list.h:33-39 | inserting a detached link before the member at position `i` (or before the sentinel) yields the member sequence with the link at position `i` |
| LinkListLemmas.InsertNextAt | link_list.h:41-47 | inserting a detached link after the member at position `i - 1` (or after the sentinel) yields the member sequence with the link at position `i` |
| LinkListLemmas.InsertPrevAppends | link_list.h:82-84 | `list_insert_prev` adds the link at the tail of the member sequence |
| LinkListLemmas.InsertNextPrepends | link_list.h:86-88 | `list_insert_next` adds the link at the head of the member sequence |
| LinkListLemmas.RemoveAt | link_list.h:49-55 | removing the member at position `i` deletes exactly that position from the sequence and detaches the link |
| LinkListLemmas.RemoveDetachedIsNoop | link_list.h:49-55 | removing a link that is already self-referential changes nothing, so a repeated `link_remove` is harmless |
| LinkListLemmas.EmptyIffNoMembers | link_list.h:78-80 | `list_empty` holds if and only if the list has no members |
| LinkListLemmas.RemoveNextTakesHead | link_list.h:94-96 | on an empty list: NULL and no change; otherwise the head is returned, detached, and the rest of the sequence remains |
| LinkListLemmas.RemovePrevTakesTail | link_list.h:90-92 | on an empty list: NULL and no change; otherwise the tail is returned, detached, and the rest of the sequence remains |
| LinkListLemmas.PushThenPop | link_list.h:98-102 | stack discipline: a pop straight after a push returns the pushed link and restores the arena exactly |
| LinkListLemmas.InsertPrevKeepsRing | link_list.h:33-39 | inserting a detached link before any link keeps the ring invariant |
| LinkListLemmas.InsertNextKeepsRing | link_list.h:41-47 | inserting a detached link after any link keeps the ring invariant |
| LinkListLemmas.RemoveKeepsRing | link_list.h:49-55 | removing any link, whether a member or detached, keeps the ring invariant |
| LinkListLemmas.ElementsAreMembers | link_list.h:125-133 | walking `next` from the sentinel until it comes round again yields exactly the member sequence |
| LinkListLemmas.ForeachVisitsEachOnce | link_list.h:119-133 | when the body may unlink the current link, each original member is visited exactly once, in order; unlinked members end up detached and the kept ones remain, in order |
| LinkListLemmas.DrainEmpties | link_list.h:135-151 | a traversal that unlinks every link it visits visits all members, empties the list and detaches every member |
| LinkListLemmas.GrowArena | read_file.c:44-50 | a newly allocated, self-referential link is not a member of any existing list and leaves every list unchanged |
| MallMock.Decide | mallmock.c:28-32 | disarmed: state unchanged and the call is delegated; armed: the counter advances by one, and the call fails exactly when the counter's old value equals the configured number of successes |
| MallMock.Intercept | mallmock.c:24-78 | a hooked call returns the libc result when delegated and the configured fail value when failing, and moves to the decided state |
| MallMock.Unhook | mallmock.c:81-85 | only the active flag is cleared; counter, ordinal and fail value are kept |
| MallMock.Reset | mallmock.c:88-90 | reset equals unhook: disarms and leaves the counter alone; unhooking again changes nothing |
| MallMock.Arm | mallmock.c:93-100 | armed, counter restarted at zero, failing ordinal `k`, fail value `rval` |
| MallMock.ArmedRun | mallmock.c:28-32 | while armed, call `i` of a run fails exactly when counter + `i` equals the ordinal, and the counter grows by the run's length |
| MallMock.DisarmedRun | mallmock.c:28-37 | while disarmed, every call is delegated and the state never changes |
| MallMock.ArmedSchedule | mallmock.c:93-100 | after arming with `k`, calls `0 .. k-1` succeed, call `k` returns `rval`, and all later calls succeed, whatever came before |
| MallMock.AtMostOneFailure | mallmock.c:28-32 | any run, from any state, has at most one failing call |
| MallMock.RunFailsAt | mallmock.c:28-32 | some call among the next `n` fails exactly when `PendingFailure` predicts one within `n`, and the failing call is the predicted one |
| MallMock.ResetDisarms | mallmock.c:81-90 | after reset every call is delegated, the state stays as reset left it, and the counter keeps its value |
| MallMock.SharedCounter | mallmock.c:24-78 | `malloc`, `calloc` and `realloc` share one counter: which entry point is called changes neither the next state nor the result |
| MallMock.FailureIgnoresReal | mallmock.c:33-37 | a failing call returns the fail value whatever libc would have returned |
| MallMock.ArmForgets | mallmock.c:93-100 | arming discards all earlier state |
| MallMock.RunSplit | mallmock.c:28-32 | a run of `m` calls followed by `n` more equals a run of `m + n` calls, in both decisions and final state |
| MallMock.PendingStep | mallmock.c:28-32 | the next call fails exactly when the pending count is zero, and a delegated call lowers the count by one |
| Allocator.Allocate | mallmock.c:33-37 | a delegated call returns a block that was not live and makes it live; a failing call returns the fail value and allocates nothing; the decision is the injector's |
| Allocator.Free | read_file.c:133-138 | the freed block is no longer live and nothing else changes |
| Allocator.AllocateThenFree | mallmock.c:33-37 | freeing a block that was just handed out restores the live set exactly |
| Lines.ReadSize | read_file.c:80 | `read` returns at most the requested count and at most what is left, and returns zero only at end of file or for a zero-byte request |
| LinesLemmas.NoNewlineBefore | read_file.c:84-91 | no newline occurs before the position of the first newline, so the first line a scan emits holds exactly one newline, at its end |
| LinesLemmas.NewlineIndexIs | read_file.c:84-91 | the first-newline position is unique: any position with no newline before it and a newline at it (or at the end of the text) is that position |
| LinesLemmas.ConcatSplit | read_file.c:84-91 | the reference lines put back together are the original text |
| LinesLemmas.SplitWellFormed | read_file.c:84-91 | every reference line is non-empty, and all lines but the last end with their only newline |
| LinesLemmas.SplitUnique | read_file.c:84-91 | any well-formed sequence of lines whose concatenation is the text is the reference split, so the split is unique |
| LinesLemmas.SplitAppend | read_file.c:84-91 | after a text that ends on a line boundary, the split of the rest continues independently |
| LinesLemmas.InnerLoop | read_file.c:84-91 | the inner `for` hands over the reference lines of the buffer up to its last newline, and no newline remains after that point |
| LinesLemmas.ScanNonEmpty | read_file.c:80-113 | every line handed to `read_file_add_line` is non-empty, which is the `size > 0` assertion at read_file.c:42 |
| LinesLemmas.RoundConcat | read_file.c:92-106 | in the corrected loop, one round's lines followed by its leftover are exactly the old leftover plus the bytes just read |
| LinesLemmas.ScanIntendedConcat | read_file.c:80-113 | the corrected loop hands over every byte of the file, in order, for every pattern of short reads |
| LinesLemmas.ScanShort | read_file.c:80-113 | when every line body fits the buffer, both the written and the corrected loop produce exactly the reference lines, for every pattern of short reads |
| LinesLemmas.LongFirstLine | read_file.c:92-100 | a file whose first 0x400 bytes hold no newline has a line too long for the buffer, so the short-lines condition of `ScanShort` excludes every file that reaches the full-buffer branch on its first read |
| LinesLemmas.AsWrittenDropsBytes | read_file.c:92-100 | on the input of the Findings table the loop as written hands over two lines whose concatenation is not the file |
| ReadFile.AddLine | read_file.c:37-53 | a failed allocation leaves the object and live set unchanged; a success appends one item holding the line and increments the line count |
| ReadFile.AddLines | read_file.c:84-113 | the object's address and name are kept, and if every allocation succeeds the line count grows by the number of lines |
| ReadFile.FreeItems | read_file.c:131-133 | freeing visited items only shrinks the live set and leaves the injector alone |
| ReadFile.Delete | read_file.c:129-140 | NULL changes nothing; otherwise the object and its name copy are no longer live, no allocation call is made, and nothing becomes live |
| ReadFile.DeleteNull | read_file.c:143-148 | a NULL `f_ptr` changes nothing; otherwise `*f_ptr` is cleared and the object is deleted |
| ReadFile.EmptyObject | read_file.c:70-74 | the zeroed object has no name, no items, a zero count and an empty list |
| ReadFile.New | read_file.c:56-126 | a NULL name or an unopenable file yields NULL with no allocation; a returned object holds a copy of the name and one line per line the read loop produced, where `policy` selects the loop: `AsWritten` is the code's full-buffer branch, `Intended` the corrected one |
| ReadFile.NameAndLines | read_file.c:75-113 | a returned object holds a copy of the given name and one line per line the selected read loop produced |
| ReadFile.LoadLines | read_file.c:80-113 | a returned object keeps its name and gains one line per line the selected read loop produced |
| ReadFile.GetFilename | read_file.c:151-156 | NULL for a NULL object; otherwise the stored copy of the name |
| ReadFile.GetLine | read_file.c:167-178 | NULL for a NULL object; any text returned is the text of one of the object's items |
| ReadFileProofs.AddLineOutcome | read_file.c:44-48 | with NULL as the fail value, `read_file_add_line` succeeds exactly when the injector delegates, and on failure only the injector state changes |
| ReadFileProofs.AddLineAppends | read_file.c:44-52 | a successful `read_file_add_line` appends the line at the tail of the list, in a fresh block that becomes live |
| ReadFileProofs.AddLinesGrants | read_file.c:84-113 | the lines loop makes one allocation call per line until the first refusal; it succeeds exactly when every call was granted, and the number of items added is the number granted |
| ReadFileProofs.AddLinesAppends | read_file.c:84-113 | the lines granted are appended in order, in consecutive fresh blocks that become live, and the list stays well formed |
| ReadFileProofs.FreeItemsSpec | read_file.c:131-133 | exactly the items of the visited links are freed |
| ReadFileProofs.FreeAllItems | read_file.c:131-133 | visiting every link frees every item block |
| ReadFileProofs.DeleteSpec | read_file.c:129-140 | deleting a well-formed object frees exactly its blocks: every item, the name copy and the object |
| ReadFileProofs.DeleteNullSpec | read_file.c:143-148 | `read_file_delete_null` deletes the object, frees exactly its blocks and clears the caller's variable |
| ReadFileProofs.ItemBlocks | read_file.c:44-52 | items allocated one after another occupy one contiguous run of addresses |
| ReadFileProofs.LaidOutBlocks | read_file.c:70-113 | the blocks of an object built by `read_file_new` are one contiguous run: the object, the name copy and then each item |
| ReadFileProofs.AbandonFreesAll | read_file.c:118-121 | the `Error:` path frees the object, the name copy and every item added before the failure |
| ReadFileProofs.LoadLinesGrants | read_file.c:80-113 | reading `n` lines makes `n` allocation calls and fails exactly when fewer than `n` are granted, stopping right after the refused call |
| ReadFileProofs.LoadLinesFail | read_file.c:80-125 | when an allocation in the read loop fails, every line added so far, the name copy and the object are all freed: the live set is the one from before the loop minus the object and the name copy |
| ReadFileProofs.LoadLinesOk | read_file.c:80-116 | a successful read loop keeps the object and name, stores exactly the lines the selected loop produced (with `AsWritten`, those of the code as written), and makes only the item blocks live |
| ReadFileProofs.NameAndLinesGrants | read_file.c:75-113 | after the object exists, `n` lines take `n + 1` allocation calls (name copy first) and the call fails exactly when fewer are granted |
| ReadFileProofs.NameAndLinesFail | read_file.c:75-125 | a failure after the object exists frees everything allocated, including the object |
| ReadFileProofs.NameAndLinesOk | read_file.c:75-116 | on success the name copy is the next block after the object and holds the name, and the lines the selected loop produced follow it |
| ReadFileProofs.NewGrants | read_file.c:56-126 | a file of `n` lines takes `n + 2` allocation calls; `read_file_new` returns NULL exactly when fewer are granted, and the injector ends one call past the refusal |
| ReadFileProofs.NewFail | read_file.c:118-125 | a `read_file_new` that returns NULL leaves the live set exactly as it found it: nothing leaks |
| ReadFileProofs.NewHolds | read_file.c:56-116 | a new object sits at the first fresh address with the name copy right after it, and holds exactly the lines the selected loop produced in the blocks after that |
| ReadFileProofs.NewOk | read_file.c:56-116 | a new object is well formed, its lines are exactly the lines the selected loop produced (for `AsWritten`, the loop of read_file.c:80-113 as written), and `read_file_get_filename` returns the name |
| ReadFileProofs.NewOwns | read_file.c:56-116 | a new object owns exactly the `n + 2` fresh blocks it allocated, and these are all that became live |
| ReadFileTheorems.GetLineCountSpec | read_file.c:159-164 | the stored count equals both the number of lines and the number of links on the list |
| ReadFileTheorems.LineAtIds | read_file.c:171-176 | the countdown from the `x`-th link returns the item `n` links further on, or NULL once the sentinel comes round |
| ReadFileTheorems.GetLineSpec | read_file.c:167-178 | `read_file_get_line(f, n)` is line `n` when `n` is below the count and NULL otherwise |
| ReadFileTheorems.DeleteFresh | read_file.c:129-140 | deleting an object whose blocks were all fresh restores the live set from before they were allocated |
| ReadFileTheorems.NewThenDelete | read_file.c:56-140 | `read_file_new` followed by `read_file_delete` leaks nothing, whether or not an allocation failed |
| ReadFileTheorems.NewText | read_file.c:80-113 | with the corrected loop the lines of a new object put back together are the file's content; with either loop, when every line fits the buffer they are exactly the file's lines |
| ReadFileTheorems.NewAsWrittenLoses | read_file.c:92-100 | `read_file_new` as written, on the input of the Findings table, succeeds but stores `"a\n"` and `"xx"`, so its lines do not put the file back together |
| ReadFileTheorems.ArmedNew | read_file_test.c:151-168 | armed with NULL and ordinal `k`, `read_file_new` on an `n`-line file returns NULL exactly when `k < n + 2`, and the counter ends at `k + 1` or `n + 2` |
| ReadFileTheorems.DisarmedNew | read_file.c:56-116 | with the injector disarmed `read_file_new` always succeeds and leaves the injector state alone |
| ReadFileTheorems.LowMemory | read_file_test.c:143-177 | for a file of short lines, every ordinal below the line count plus two makes `read_file_new` return NULL with nothing leaked; any larger one yields the name, the count and each line, and NULL past the end |
| ReadFileTheorems.ThreeLinesSplit | read_file_test.c:144-147 | three newline-terminated lines, concatenated, split back into the same three lines |
| ReadFileTheorems.LowMemoryThreeLinesFail | read_file_test.c:151-165 | on a three-line file, ordinals 0 through 4 each make `read_file_new` return NULL, and nothing is leaked |
| ReadFileTheorems.LowMemoryThreeLinesOk | read_file_test.c:167-175 | on a three-line file, ordinal 5 lets `read_file_new` succeed with the name, a count of 3, the three lines in order, and NULL for lines 3 and 4 |

## Notes on the source

- `mallmock_reset` (mallmock.c:88-90) only calls `mallmock_unhook` (mallmock.c:81-85), which clears the active flag. The counter keeps its value, and `MallMock.ResetDisarms` states that. Nothing observable depends on it, since arming (mallmock.c:93-100) always restarts the count.
- The comment at read_file_test.c:151 counts one allocation for the object and one per line. The name copy is one more: for three lines, one object, one name copy and three items make five allocations. The assertions at read_file_test.c:152-168 agree with that count: ordinals 0 through 4 fail and ordinal 5 succeeds (`ReadFileTheorems.LowMemoryThreeLinesFail`, `ReadFileTheorems.LowMemoryThreeLinesOk`).
- `strdup` counts as one hooked allocation: its internal `malloc` is the interposed one.

## Left out

- The spin lock (`spin_lock.h`, and its acquire and release in `mallmock.c`): each hooked call and each control call is one atomic step. Which thread wins a race is not modelled.
- The libc allocator: a delegated call returns a fresh address. Block sizes are recorded only as request arguments, and `realloc` is treated like any other allocation: its old block and copying are not modelled.
- `size_t` arithmetic: the counter and the line count are unbounded, so their wrap-around after 2^64 calls is not modelled.
- C strings and byte contents: names and lines are character sequences. NUL bytes inside a line, the terminator written by `calloc`, and the `memcpy`/`memmove` copies are folded into the sequence values.
- `open`, `read` and `close`:
  - `open` is represented by whether the file's content is present.
  - `read` is an oracle: a list of short-read sizes, followed by full reads.
  - A `read` error (a negative return) is not modelled; it ends the loop like end of file.
  - `close` has no effect in the model.
- Struct layout: `STRUCT_CONTAINING_LINK` is the mapping from link id `k + 1` to item `k`. `LIST_INIT` has the same effect as `list_init`. The sizes of `link_t` and `struct read_file_s` are fixed at their LP64 values.
- `mallmock.h` and `read_file.h` only declare what the model defines; `read_file_test.c` is the origin of the low-memory theorems.
- LinkListLemmas.GrowArena: the link of a new line item is created self-referential, where `calloc` at read_file.c:44 leaves both pointers NULL. Nothing depends on it: `link_insert_prev` at link_list.h:33-39 overwrites both pointers before anything reads them. The insert lemmas therefore require a detached (self-referential) link.
- ReadFileProofs.AddLineOutcome: like every end-to-end lemma about `read_file_new`, it assumes the fail value is NULL, which is what the tests use. With a non-NULL value, `read_file.c` would use the injected pointer as a block; the functions model that, but no lemma describes it.
- ReadFile.FreeItems: only visited links that carry an item free a block. Visiting the sentinel or an unknown id cannot happen for an object built by `read_file_new`, and the model treats it as a no-op.
- ReadFile.GetLine: its own contract only says the text comes from some item. The exact answer (line `n`, or NULL past the end) is `ReadFileTheorems.GetLineSpec`.
- ReadFile.AddLines: its own contract states the outcome only when every allocation succeeds. Partial progress is stated by `ReadFileProofs.AddLinesGrants` and `ReadFileProofs.AddLinesAppends`.

## Findings

| source | as written | input that shows it | evidently intended | confidence | as-written member | corrected member |
|---|---|---|---|---|---|---|
| read_file.c:97 | when the buffer fills with no newline, only `bytes_read` bytes from the start of the buffer are handed over as a line, although the buffer holds `read_index + bytes_read` bytes | a file of `"a\n"` followed by 1024 `x` characters, read in full 1024-byte reads: the second read returns 2 bytes into a buffer that already holds 1022 bytes, and the lines handed over are `"a\n"` and `"xx"`, losing 1022 bytes | hand over the whole buffer (`sizeof(buf)` bytes), so every byte of the file reaches some line | high, not executed | LinesLemmas.AsWrittenDropsBytes | LinesLemmas.ScanIntendedConcat |

`ReadFile.New` takes the loop as a parameter: with `AsWritten` it is `read_file_new` as written, and `ReadFileTheorems.NewAsWrittenLoses` shows the loss through it; with `Intended` it is the corrected function, about which `ReadFileTheorems.NewText` proves that every byte is kept. Every lemma about `read_file_new` is proved for both loops. `LinesLemmas.ScanShort` shows that the two loops produce the same lines on every file whose lines fit the buffer, which covers everything the repository's tests read.
