/**
 * Properties of the line splitter: `SplitLines` is the one and only way to
 * cut content into well-formed lines, the scanner agrees with it whenever
 * every line fits the buffer, and the corrected scanner never loses a byte.
 */
module LinesLemmas {
  import opened Lines

  /** A sequence of lines is well formed: no line is empty, a newline can only end a line, and every line but the last ends with one. */
  ghost predicate WellFormedLines(ls: seq<seq<char>>) {
    forall k :: 0 <= k < |ls| ==>
      && ls[k] != []
      && '\n' !in ls[k][..|ls[k]| - 1]
      && (k + 1 < |ls| ==> ls[k][|ls[k]| - 1] == '\n')
  }

  lemma {:induction false} ConcatAppend(x: seq<seq<char>>, y: seq<seq<char>>)
    ensures Concat(x + y) == Concat(x) + Concat(y)
    decreases |x|
  {
    if x != [] {
      assert (x + y)[1..] == x[1..] + y;
      ConcatAppend(x[1..], y);
    } else {
      assert x + y == y;
    }
  }

  /** Putting the lines back together gives the content again. */
  lemma {:induction false} ConcatSplit(c: seq<char>)
    ensures Concat(SplitLines(c)) == c
    decreases |c|
  {
    if c != [] {
      var k := NewlineIndex(c);
      if k < |c| {
        ConcatSplit(c[k + 1..]);
        assert c == c[..k + 1] + c[k + 1..];
      }
    }
  }

  /** No newline comes before the one `NewlineIndex` finds. */
  lemma {:induction false} NoNewlineBefore(c: seq<char>)
    ensures forall j :: 0 <= j < NewlineIndex(c) ==> c[j] != '\n'
    decreases |c|
  {
    if c != [] && c[0] != '\n' {
      NoNewlineBefore(c[1..]);
      forall j | 0 <= j < NewlineIndex(c) ensures c[j] != '\n' {
        if j > 0 {
          assert c[j] == c[1..][j - 1];
        }
      }
    }
  }

  /** `NewlineIndex` is the first newline: a position with no newline before it and a newline at it (or the end) is the one it finds. */
  lemma NewlineIndexIs(c: seq<char>, k: nat)
    requires k <= |c| && (k < |c| ==> c[k] == '\n')
    requires forall j :: 0 <= j < k ==> c[j] != '\n'
    ensures NewlineIndex(c) == k
  {
    NoNewlineBefore(c);
  }

  /** Content that ends with a newline has a first newline. */
  lemma AlignedHasNewline(a: seq<char>)
    requires a != [] && a[|a| - 1] == '\n'
    ensures NewlineIndex(a) < |a|
  {
    NoNewlineBefore(a);
  }

  /** The first newline of `a` is also the first newline of `a + b`. */
  lemma NewlineIndexPrefix(a: seq<char>, b: seq<char>)
    requires NewlineIndex(a) < |a|
    ensures NewlineIndex(a + b) == NewlineIndex(a)
  {
    var k := NewlineIndex(a);
    NoNewlineBefore(a);
    assert forall j :: 0 <= j < k ==> (a + b)[j] == a[j];
    NewlineIndexIs(a + b, k);
  }

  /** A line that ends with its only newline splits into itself. */
  lemma OneLine(a: seq<char>)
    requires a != [] && a[|a| - 1] == '\n' && '\n' !in a[..|a| - 1]
    ensures SplitLines(a) == [a]
  {
    assert forall j :: 0 <= j < |a| - 1 ==> a[j] == a[..|a| - 1][j];
    NewlineIndexIs(a, |a| - 1);
    assert a[..|a|] == a;
  }

  /** Content without any newline is one unterminated line. */
  lemma NoNewline(c: seq<char>)
    requires c != [] && '\n' !in c
    ensures SplitLines(c) == [c]
  {
  }

  /** Splitting distributes over a concatenation that starts on a line boundary. */
  lemma {:induction false} SplitAppend(a: seq<char>, b: seq<char>)
    requires LineAligned(a)
    ensures SplitLines(a + b) == SplitLines(a) + SplitLines(b)
    decreases |a|
  {
    if a == [] {
      assert a + b == b;
    } else {
      var k := NewlineIndex(a);
      AlignedHasNewline(a);
      var line, rest := a[..k + 1], a[k + 1..];
      NewlineIndexPrefix(a, b);
      PrefixParts(a, b, k + 1);
      SplitAppend(rest, b);
      calc {
        SplitLines(a + b);
        { SplitFirst(a + b); }
        [line] + SplitLines(rest + b);
        [line] + (SplitLines(rest) + SplitLines(b));
        { ConsAppend(line, SplitLines(rest), SplitLines(b)); }
        ([line] + SplitLines(rest)) + SplitLines(b);
        { SplitFirst(a); }
        SplitLines(a) + SplitLines(b);
      }
    }
  }

  /** Putting a line in front of two concatenated sequences of lines. */
  lemma ConsAppend(line: seq<char>, x: seq<seq<char>>, y: seq<seq<char>>)
    ensures [line] + (x + y) == ([line] + x) + y
  {
  }

  /** Content with a newline splits into its first line and the split of the rest. */
  lemma {:induction false} SplitFirst(c: seq<char>)
    requires NewlineIndex(c) < |c|
    ensures SplitLines(c) == [c[..NewlineIndex(c) + 1]] + SplitLines(c[NewlineIndex(c) + 1..])
  {
    var k := NewlineIndex(c);
    assert c != [] && k != |c|;
    assert SplitLines(c) == [c[..k + 1]] + SplitLines(c[k + 1..]);
  }

  /** Cutting `a + b` inside `a`. */
  lemma PrefixParts(a: seq<char>, b: seq<char>, j: nat)
    requires j <= |a|
    ensures (a + b)[..j] == a[..j] && (a + b)[j..] == a[j..] + b
  {
  }

  /** A newline-terminated line in front of well-formed lines keeps them well formed. */
  lemma WellFormedCons(line: seq<char>, ls: seq<seq<char>>)
    requires line != [] && line[|line| - 1] == '\n' && '\n' !in line[..|line| - 1]
    requires WellFormedLines(ls)
    ensures WellFormedLines([line] + ls)
  {
    forall k | 1 <= k < |[line] + ls|
      ensures ([line] + ls)[k] == ls[k - 1]
    {
    }
  }

  /** What `SplitLines` produces is well formed. */
  lemma {:induction false} SplitWellFormed(c: seq<char>)
    ensures WellFormedLines(SplitLines(c))
    decreases |c|
  {
    if c != [] {
      var k := NewlineIndex(c);
      NoNewlineBefore(c);
      if k < |c| {
        SplitWellFormed(c[k + 1..]);
        var line := c[..k + 1];
        var body := line[..|line| - 1];
        assert '\n' !in body by {
          forall j | 0 <= j < |body| ensures body[j] != '\n' {
            assert body[j] == c[j];
          }
        }
        WellFormedCons(line, SplitLines(c[k + 1..]));
      } else {
        var body := c[..|c| - 1];
        assert '\n' !in body by {
          forall j | 0 <= j < |body| ensures body[j] != '\n' {
            assert body[j] == c[j];
          }
        }
      }
    }
  }

  /** The last line ends with a newline exactly when the content does. */
  lemma {:induction false} SplitLastLine(c: seq<char>)
    requires c != []
    ensures SplitLines(c) != []
    ensures var ls := SplitLines(c); ls[|ls| - 1] != []
    ensures var ls := SplitLines(c); ls[|ls| - 1][|ls[|ls| - 1]| - 1] == c[|c| - 1]
    decreases |c|
  {
    SplitWellFormed(c);
    var k := NewlineIndex(c);
    if k + 1 < |c| {
      SplitLastLine(c[k + 1..]);
    }
  }

  /**
   * Uniqueness: any well-formed sequence of lines that puts back together
   * to `c` is `SplitLines(c)`.
   */
  lemma {:induction false} SplitUnique(ls: seq<seq<char>>, c: seq<char>)
    requires WellFormedLines(ls) && Concat(ls) == c
    ensures ls == SplitLines(c)
    decreases |ls|
  {
    if ls != [] {
      var a := ls[0];
      WellFormedTail(ls);
      SplitUnique(ls[1..], Concat(ls[1..]));
      if |ls| == 1 {
        assert Concat(ls[1..]) == [];
        assert c == a;
        LastLine(a);
      } else {
        OneLine(a);
        SplitAppend(a, Concat(ls[1..]));
        assert ls == [a] + ls[1..];
      }
    }
  }

  /** Dropping the first line keeps a sequence of lines well formed. */
  lemma WellFormedTail(ls: seq<seq<char>>)
    requires WellFormedLines(ls) && ls != []
    ensures WellFormedLines(ls[1..])
  {
    forall k | 0 <= k < |ls[1..]|
      ensures ls[1..][k] != [] && '\n' !in ls[1..][k][..|ls[1..][k]| - 1]
    {
      assert ls[1..][k] == ls[k + 1];
    }
  }

  /** A line with no newline before its last character splits into itself, terminated or not. */
  lemma LastLine(a: seq<char>)
    requires a != [] && '\n' !in a[..|a| - 1]
    ensures SplitLines(a) == [a]
  {
    if a[|a| - 1] == '\n' {
      OneLine(a);
    } else {
      assert '\n' !in a by {
        assert a == a[..|a| - 1] + [a[|a| - 1]];
      }
      NoNewline(a);
    }
  }

  // ---------------------------------------------------------------------------
  // The inner loop.
  // ---------------------------------------------------------------------------

  lemma SliceSplit(data: seq<char>, a: nat, b: nat, c: nat)
    requires a <= b <= c <= |data|
    ensures data[a..c] == data[a..b] + data[b..c]
  {
  }

  /** `data[start..i+1]` ends with `data[i]` after the characters `data[start..i]`. */
  lemma SliceLine(data: seq<char>, start: nat, i: nat)
    requires start <= i < |data|
    ensures var line := data[start..i + 1];
      line != [] && line[|line| - 1] == data[i] && line[..|line| - 1] == data[start..i]
  {
  }

  /** A newline-terminated line in front of more text is the first line of the whole. */
  lemma LineThenRest(line: seq<char>, rest: seq<char>)
    requires line != [] && line[|line| - 1] == '\n' && '\n' !in line[..|line| - 1]
    ensures SplitLines(line + rest) == [line] + SplitLines(rest)
  {
    OneLine(line);
    SplitAppend(line, rest);
  }

  /** The newline at `i` ends the line started at `start`; the lines after it follow. */
  lemma InnerLoopEmit(data: seq<char>, i: nat, start: nat, cut: nat, lines: seq<seq<char>>)
    requires start <= i < |data| && data[i] == '\n' && '\n' !in data[start..i]
    requires i + 1 <= cut <= |data|
    requires lines == SplitLines(data[i + 1..cut]) && LineAligned(data[i + 1..cut])
    ensures [data[start..i + 1]] + lines == SplitLines(data[start..cut])
    ensures LineAligned(data[start..cut])
  {
    SliceLine(data, start, i);
    SliceSplit(data, start, i + 1, cut);
    LineThenRest(data[start..i + 1], data[i + 1..cut]);
  }

  /**
   * Started on a line boundary, the inner loop emits the reference lines of
   * the stretch it consumes, stops on a line boundary, and leaves a
   * leftover with no newline in it.
   */
  lemma {:induction false} InnerLoop(data: seq<char>, i: nat, start: nat)
    requires start <= i <= |data|
    requires '\n' !in data[start..i]
    ensures var r := SplitAtNewlines(data, i, start);
      && r.0 == SplitLines(data[start..r.1])
      && LineAligned(data[start..r.1])
      && '\n' !in data[r.1..]
    decreases |data| - i
  {
    var r := SplitAtNewlines(data, i, start);
    if i == |data| {
      assert data[start..r.1] == [];
    } else if data[i] == '\n' {
      InnerLoop(data, i + 1, i + 1);
      var later := SplitAtNewlines(data, i + 1, i + 1);
      InnerLoopEmit(data, i, start, later.1, later.0);
    } else {
      assert data[start..i + 1] == data[start..i] + [data[i]];
      InnerLoop(data, i + 1, start);
    }
  }

  /** Every line the inner loop emits is non-empty. */
  lemma {:induction false} InnerLoopNonEmpty(data: seq<char>, i: nat, start: nat)
    requires start <= i <= |data|
    ensures forall k :: 0 <= k < |SplitAtNewlines(data, i, start).0| ==> SplitAtNewlines(data, i, start).0[k] != []
    decreases |data| - i
  {
    if i < |data| {
      if data[i] == '\n' {
        InnerLoopNonEmpty(data, i + 1, i + 1);
      } else {
        InnerLoopNonEmpty(data, i + 1, start);
      }
    }
  }

  // ---------------------------------------------------------------------------
  // The outer loop.
  // ---------------------------------------------------------------------------

  /** Every line one round emits is non-empty. */
  lemma RoundNonEmpty(buf: seq<char>, incoming: seq<char>, policy: FullBufferPolicy)
    requires |buf| + |incoming| <= BufferSize && incoming != []
    ensures forall k :: 0 <= k < |Round(buf, incoming, policy).0| ==> Round(buf, incoming, policy).0[k] != []
  {
    InnerLoopNonEmpty(buf + incoming, |buf|, 0);
  }

  /** `read_file_add_line` is never called with size 0: every scanned line is non-empty. */
  lemma {:induction false} ScanFromNonEmpty(rest: seq<char>, buf: seq<char>, chunks: seq<nat>, policy: FullBufferPolicy)
    requires |buf| < BufferSize
    ensures forall k :: 0 <= k < |ScanFrom(rest, buf, chunks, policy)| ==> ScanFrom(rest, buf, chunks, policy)[k] != []
    decreases |rest|
  {
    var got := ReadSize(BufferSize - |buf|, |rest|, chunks);
    if got > 0 {
      var round := Round(buf, rest[..got], policy);
      RoundNonEmpty(buf, rest[..got], policy);
      ScanFromNonEmpty(rest[got..], round.1, if chunks == [] then [] else chunks[1..], policy);
    }
  }

  /** Every line of the scan is non-empty. */
  lemma ScanNonEmpty(c: seq<char>, chunks: seq<nat>, policy: FullBufferPolicy)
    ensures forall k :: 0 <= k < |Scan(c, chunks, policy)| ==> Scan(c, chunks, policy)[k] != []
  {
    ScanFromNonEmpty(c, [], chunks, policy);
  }

  /** Whatever it starts from, the inner loop hands over exactly the stretch it consumes. */
  lemma {:induction false} InnerLoopText(data: seq<char>, i: nat, start: nat)
    requires start <= i <= |data|
    ensures var r := SplitAtNewlines(data, i, start); Concat(r.0) == data[start..r.1]
    decreases |data| - i
  {
    if i < |data| {
      if data[i] == '\n' {
        InnerLoopText(data, i + 1, i + 1);
        var r := SplitAtNewlines(data, i + 1, i + 1);
        assert data[start..r.1] == data[start..i + 1] + data[i + 1..r.1];
      } else {
        InnerLoopText(data, i + 1, start);
      }
    }
  }

  /**
   * A corrected round loses nothing: the lines it emits followed by the
   * new leftover are the old leftover followed by the bytes read.
   */
  lemma RoundConcat(buf: seq<char>, incoming: seq<char>)
    requires |buf| + |incoming| <= BufferSize
    ensures var r := Round(buf, incoming, Intended); Concat(r.0) + r.1 == buf + incoming
  {
    var data := buf + incoming;
    var split := SplitAtNewlines(data, |buf|, 0);
    InnerLoopText(data, |buf|, 0);
    if |data| == BufferSize && split.1 == 0 {
      ConcatAppend(split.0, [data]);
      assert Concat([data]) == data + Concat([]);
    } else {
      assert data == data[0..split.1] + data[split.1..];
    }
  }

  /** One round of the loop that reads something, followed by the loop over what is left. */
  lemma ScanFromStep(rest: seq<char>, buf: seq<char>, chunks: seq<nat>, policy: FullBufferPolicy, got: nat)
    requires |buf| < BufferSize
    requires got == ReadSize(BufferSize - |buf|, |rest|, chunks) && got > 0
    ensures var round := Round(buf, rest[..got], policy);
      ScanFrom(rest, buf, chunks, policy)
        == round.0 + ScanFrom(rest[got..], round.1, if chunks == [] then [] else chunks[1..], policy)
  {
  }

  /** The corrected loop hands over every byte of the leftover and of the rest of the file, in order. */
  lemma {:induction false} ScanFromConcat(rest: seq<char>, buf: seq<char>, chunks: seq<nat>)
    requires |buf| < BufferSize
    ensures Concat(ScanFrom(rest, buf, chunks, Intended)) == buf + rest
    decreases |rest|
  {
    var got := ReadSize(BufferSize - |buf|, |rest|, chunks);
    if got == 0 {
      assert Concat([buf]) == buf + Concat([]);
    } else {
      var round := Round(buf, rest[..got], Intended);
      var later := ScanFrom(rest[got..], round.1, if chunks == [] then [] else chunks[1..], Intended);
      ScanFromStep(rest, buf, chunks, Intended, got);
      RoundConcat(buf, rest[..got]);
      ScanFromConcat(rest[got..], round.1, if chunks == [] then [] else chunks[1..]);
      StepGlue(buf, rest, got, round.0, round.1, later, ScanFrom(rest, buf, chunks, Intended));
    }
  }

  /** The text of one round followed by the text of the loop over what is left is the leftover and the rest. */
  lemma StepGlue(buf: seq<char>, rest: seq<char>, got: nat, lines: seq<seq<char>>, leftover: seq<char>,
                 later: seq<seq<char>>, out: seq<seq<char>>)
    requires got <= |rest| && out == lines + later
    requires Concat(lines) + leftover == buf + rest[..got] && Concat(later) == leftover + rest[got..]
    ensures Concat(out) == buf + rest
  {
    ConcatAppend(lines, later);
    Regroup(Concat(lines), leftover, buf, rest, got);
  }

  /** `p + leftover` covers `buf` and the first `got` bytes of `rest`; adding the others gives `buf + rest`. */
  lemma Regroup(p: seq<char>, leftover: seq<char>, buf: seq<char>, rest: seq<char>, got: nat)
    requires got <= |rest| && p + leftover == buf + rest[..got]
    ensures p + (leftover + rest[got..]) == buf + rest
  {
    calc {
      p + (leftover + rest[got..]);
      (p + leftover) + rest[got..];
      (buf + rest[..got]) + rest[got..];
      buf + (rest[..got] + rest[got..]);
      { assert rest[..got] + rest[got..] == rest; }
      buf + rest;
    }
  }

  /** The whole file, read through the corrected loop, comes back unchanged. */
  lemma ScanIntendedConcat(c: seq<char>, chunks: seq<nat>)
    ensures Concat(Scan(c, chunks, Intended)) == c
  {
    ScanFromConcat(c, [], chunks);
    assert [] + c == c;
  }

  /**
   * A round started on a line boundary either fills the buffer without
   * finding a newline, or emits the reference lines of the stretch up to
   * its last newline and keeps the rest as leftover.
   */
  lemma RoundLines(buf: seq<char>, incoming: seq<char>, policy: FullBufferPolicy)
    requires |buf| + |incoming| <= BufferSize && '\n' !in buf
    ensures var data := buf + incoming;
      var r := Round(buf, incoming, policy);
      var cut := |data| - |r.1|;
      || (|data| == BufferSize && '\n' !in data)
      || (0 <= cut && r.0 == SplitLines(data[..cut]) && r.1 == data[cut..] && LineAligned(data[..cut]) && '\n' !in r.1)
  {
    var data := buf + incoming;
    var split := SplitAtNewlines(data, |buf|, 0);
    assert data[0..|buf|] == buf;
    InnerLoop(data, |buf|, 0);
    if |data| == BufferSize && split.1 == 0 {
      assert data[0..] == data;
    }
  }

  /** Every line of `a + b` after the ones of `a` is a line of `b`: short lines stay short. */
  lemma ShortSuffix(a: seq<char>, b: seq<char>)
    requires LineAligned(a) && ShortLines(a + b)
    ensures ShortLines(b)
  {
    SplitAppend(a, b);
    var la := SplitLines(a);
    forall k | 0 <= k < |SplitLines(b)|
      ensures |Body(SplitLines(b)[k])| < BufferSize
    {
      assert SplitLines(b)[k] == SplitLines(a + b)[|la| + k];
    }
  }

  /** Content whose first 1024 characters hold no newline has a line too long for the buffer. */
  lemma LongFirstLine(c: seq<char>)
    requires |c| >= BufferSize && '\n' !in c[..BufferSize]
    ensures !ShortLines(c)
  {
    var k := NewlineIndex(c);
    var line := SplitLines(c)[0];
    if k < |c| {
      assert |Body(line)| == k;
    } else {
      NoNewlineBefore(c);
      assert c[|c| - 1] != '\n';
      assert Body(line) == c;
    }
  }

  /** A round over short lines never fills the buffer without a newline. */
  lemma RoundNotFull(data: seq<char>, after: seq<char>)
    requires ShortLines(data + after) && |data| == BufferSize
    ensures '\n' in data
  {
    if '\n' !in data {
      assert (data + after)[..BufferSize] == data;
      LongFirstLine(data + after);
    }
  }

  /** Splitting off the lines of an aligned head leaves the lines of the rest, still short. */
  lemma HeadLines(data: seq<char>, head: seq<char>, leftover: seq<char>, after: seq<char>)
    requires data == head + leftover && LineAligned(head)
    requires ShortLines(data + after)
    ensures ShortLines(leftover + after)
    ensures SplitLines(data + after) == SplitLines(head) + SplitLines(leftover + after)
  {
    assert data + after == head + (leftover + after);
    ShortSuffix(head, leftover + after);
    SplitAppend(head, leftover + after);
  }

  /**
   * A round over short lines splits off the reference lines of what it
   * consumes, and what it leaves over starts a line of the remaining text.
   */
  lemma RoundShort(buf: seq<char>, incoming: seq<char>, after: seq<char>, policy: FullBufferPolicy)
    requires |buf| + |incoming| <= BufferSize && '\n' !in buf
    requires ShortLines(buf + (incoming + after))
    ensures var r := Round(buf, incoming, policy);
      && '\n' !in r.1
      && ShortLines(r.1 + after)
      && SplitLines(buf + (incoming + after)) == r.0 + SplitLines(r.1 + after)
  {
    var data := buf + incoming;
    var round := Round(buf, incoming, policy);
    assert buf + (incoming + after) == data + after;
    RoundLines(buf, incoming, policy);
    if |data| == BufferSize {
      RoundNotFull(data, after);
    }
    var cut := |data| - |round.1|;
    var head := data[..cut];
    assert data == head + round.1;
    HeadLines(data, head, round.1, after);
  }

  /**
   * When every line fits the buffer, the loop hands over exactly the
   * reference lines, whichever way the full-buffer branch is written and
   * however `read` splits the file. Here `buf` is the leftover: a
   * newline-free stretch that starts a line.
   */
  lemma {:induction false} ScanFromShort(rest: seq<char>, buf: seq<char>, chunks: seq<nat>, policy: FullBufferPolicy)
    requires |buf| < BufferSize && '\n' !in buf
    requires ShortLines(buf + rest)
    ensures ScanFrom(rest, buf, chunks, policy) == SplitLines(buf + rest)
    decreases |rest|
  {
    var got := ReadSize(BufferSize - |buf|, |rest|, chunks);
    if got == 0 {
      assert buf + rest == buf;
      if buf != [] {
        NoNewline(buf);
      }
    } else {
      var round := Round(buf, rest[..got], policy);
      assert rest == rest[..got] + rest[got..];
      RoundShort(buf, rest[..got], rest[got..], policy);
      ScanFromShort(rest[got..], round.1, if chunks == [] then [] else chunks[1..], policy);
    }
  }

  /** For files whose lines all fit the buffer, both variants of the loop split exactly as `SplitLines` does. */
  lemma ScanShort(c: seq<char>, chunks: seq<nat>, policy: FullBufferPolicy)
    requires ShortLines(c)
    ensures Scan(c, chunks, policy) == SplitLines(c)
  {
    assert [] + c == c;
    ScanFromShort(c, [], chunks, policy);
  }

  // ---------------------------------------------------------------------------
  // The full-buffer branch as written.
  // ---------------------------------------------------------------------------

  /** `n` copies of the character `x`. */
  function Xs(n: nat): (s: seq<char>)
    ensures |s| == n && '\n' !in s
  {
    seq(n, _ => 'x')
  }

  /**
   * A two-character line followed by a 1024-character line. The first read
   * fills the buffer, the leftover is 1022 characters, and the second read
   * completes a full buffer with no newline in it after a read of only 2
   * bytes.
   */
  function LongTailContent(): (c: seq<char>)
    ensures |c| == 2 + BufferSize
  {
    "a\n" + Xs(BufferSize)
  }

  /** First round over `LongTailContent`: a full read of 1024 bytes, one newline, 1022 bytes left over. */
  lemma FirstRound(in1: seq<char>)
    requires in1 == "a\n" + Xs(BufferSize - 2)
    ensures Round([], in1, AsWritten) == (["a\n"], Xs(BufferSize - 2))
  {
    assert [] + in1 == in1;
    var s1 := SplitAtNewlines(in1, 0, 0);
    InnerLoop(in1, 0, 0);
    assert in1[1] == '\n';
    assert s1.1 == 2;
    assert in1[0..2] == "a\n";
    OneLine("a\n");
    assert in1[2..] == Xs(BufferSize - 2);
  }

  /** Second round: 2 more bytes complete a full buffer with no newline, and only they are handed over. */
  lemma SecondRound(in2: seq<char>)
    requires in2 == "xx"
    ensures Round(Xs(BufferSize - 2), in2, AsWritten) == (["xx"], [])
  {
    var buf := Xs(BufferSize - 2);
    var data2 := buf + in2;
    assert data2 == Xs(BufferSize);
    var s2 := SplitAtNewlines(data2, |buf|, 0);
    InnerLoop(data2, |buf|, 0);
    assert s2 == ([], 0);
    assert data2[..|in2|] == "xx";
    assert s2.0 + [data2[..|in2|]] == ["xx"];
  }

  /**
   * As written, the full-buffer branch hands over only the last read's
   * bytes: the 1022 characters carried over from the first read are lost.
   */
  lemma AsWrittenDropsBytes()
    ensures Scan(LongTailContent(), [], AsWritten) == ["a\n", "xx"]
    ensures Concat(Scan(LongTailContent(), [], AsWritten)) != LongTailContent()
  {
    var c := LongTailContent();
    var in1 := c[..BufferSize];
    assert in1 == "a\n" + Xs(BufferSize - 2);
    FirstRound(in1);
    var in2 := c[BufferSize..][..2];
    assert in2 == "xx";
    SecondRound(in2);
    assert c[BufferSize..][2..] == [];
    assert ScanFrom([], [], [], AsWritten) == [];
    assert ScanFrom(c[BufferSize..], Xs(BufferSize - 2), [], AsWritten) == ["xx"];
    assert ScanFrom(c, [], [], AsWritten) == ["a\n"] + ["xx"];
    assert Concat(["a\n", "xx"]) == "a\nxx";
  }
}
