/**
 * How `read_file_new` cuts a file into lines.
 *
 * `SplitLines` is the reference: every line keeps its terminating newline,
 * and an unterminated tail is a last line of its own. `Scan` is the
 * buffered loop of `read_file_new` over a 1024-byte buffer, with `read`
 * replaced by an oracle of short-read sizes. The loop has two variants
 * for a full buffer holding no newline: `AsWritten` hands over only the
 * bytes of the last `read`, `Intended` hands over the whole buffer.
 */
module Lines {

  /** `sizeof(buf)` in `read_file_new`. */
  const BufferSize: nat := 0x400

  /** The index of the first newline of `c`, or `|c|` when there is none. */
  function NewlineIndex(c: seq<char>): (k: nat)
    ensures k <= |c|
    ensures k < |c| ==> c[k] == '\n'
  {
    if c == [] || c[0] == '\n' then 0 else 1 + NewlineIndex(c[1..])
  }

  /** The reference split of a file's contents into lines. */
  function SplitLines(c: seq<char>): seq<seq<char>>
    decreases |c|
  {
    if c == [] then []
    else
      var k := NewlineIndex(c);
      if k == |c| then [c] else [c[..k + 1]] + SplitLines(c[k + 1..])
  }

  /** The lines put back together. */
  function Concat(ls: seq<seq<char>>): seq<char>
  {
    if ls == [] then [] else ls[0] + Concat(ls[1..])
  }

  /** A line without its terminating newline. */
  function Body(line: seq<char>): (b: seq<char>)
    ensures |b| <= |line|
  {
    if line != [] && line[|line| - 1] == '\n' then line[..|line| - 1] else line
  }

  /** Content `c` ends a line: it is empty or its last character is a newline. */
  predicate LineAligned(c: seq<char>) {
    c == [] || c[|c| - 1] == '\n'
  }

  /** Every line of `c` fits the buffer: its body is shorter than 1024 characters. */
  ghost predicate ShortLines(c: seq<char>) {
    var ls := SplitLines(c);
    forall k :: 0 <= k < |ls| ==> |Body(ls[k])| < BufferSize
  }

  /** Which line the full-buffer branch hands to `read_file_add_line`. */
  datatype FullBufferPolicy = AsWritten | Intended

  /**
   * The inner `for` loop over `data[i..]`: at every newline `j` it emits
   * `data[start..j+1]` and moves `start` past it. Returns the lines
   * emitted and the final `start`.
   */
  function SplitAtNewlines(data: seq<char>, i: nat, start: nat): (r: (seq<seq<char>>, nat))
    requires start <= i <= |data|
    ensures start <= r.1 <= |data|
    decreases |data| - i
  {
    if i == |data| then ([], start)
    else if data[i] == '\n' then
      var rest := SplitAtNewlines(data, i + 1, i + 1);
      ([data[start..i + 1]] + rest.0, rest.1)
    else
      SplitAtNewlines(data, i + 1, start)
  }

  /**
   * How many bytes one `read` of at most `want` bytes delivers when
   * `left` bytes of the file remain: a short read of `chunks[0]` bytes when
   * the oracle offers a positive size below both, a full read otherwise.
   */
  function ReadSize(want: nat, left: nat, chunks: seq<nat>): (n: nat)
    ensures n <= want && n <= left
    ensures n == 0 <==> want == 0 || left == 0
  {
    var full := if want < left then want else left;
    if chunks != [] && 0 < chunks[0] < full then chunks[0] else full
  }

  /**
   * One round of the `while` loop: `incoming` is what `read` just put
   * after the leftover `buf`. Returns the lines handed to
   * `read_file_add_line` and the leftover slid to the front of the buffer.
   */
  function Round(buf: seq<char>, incoming: seq<char>, policy: FullBufferPolicy): (r: (seq<seq<char>>, seq<char>))
    requires |buf| + |incoming| <= BufferSize
    ensures |r.1| < BufferSize
  {
    var data := buf + incoming;
    var split := SplitAtNewlines(data, |buf|, 0);
    if |data| == BufferSize && split.1 == 0 then
      (split.0 + [if policy == AsWritten then data[..|incoming|] else data], [])
    else
      (split.0, data[split.1..])
  }

  /**
   * The `while` loop of `read_file_new` with `rest` still unread and
   * `buf` holding the leftover of the previous round, followed by the
   * final flush of the leftover. Returns the lines handed to
   * `read_file_add_line`, in order.
   */
  function ScanFrom(rest: seq<char>, buf: seq<char>, chunks: seq<nat>, policy: FullBufferPolicy)
    : (lines: seq<seq<char>>)
    requires |buf| < BufferSize
    decreases |rest|
  {
    var got := ReadSize(BufferSize - |buf|, |rest|, chunks);
    if got == 0 then
      if buf == [] then [] else [buf]
    else
      var round := Round(buf, rest[..got], policy);
      round.0 + ScanFrom(rest[got..], round.1, if chunks == [] then [] else chunks[1..], policy)
  }

  /** The loop run over a whole file, starting with an empty buffer. */
  function Scan(content: seq<char>, chunks: seq<nat>, policy: FullBufferPolicy): seq<seq<char>>
  {
    ScanFrom(content, [], chunks, policy)
  }
}
