/** Tailing a growing log in bounded reads, across any schedule of appends and polls. */
module TailLog {
  import opened Prelude

  type Byte = bv8

  const NEWLINE: Byte := 10
  const MAX_LOG_BYTES_PER_CYCLE: nat := 1024 * 1024
  const MAX_LOG_LINE_BYTES: nat := 16 * 1024

  /** `render` decodes one segment as UTF-8 and trims it; `None` when it is not UTF-8 or is blank. */
  type Render = seq<Byte> -> Option<string>

  function FirstNewline(b: seq<Byte>): (i: nat)
    ensures i <= |b| && NEWLINE !in b[..i] && (i < |b| ==> b[i] == NEWLINE)
  {
    if b == [] || b[0] == NEWLINE then 0
    else
      var i := 1 + FirstNewline(b[1..]);
      assert b[..i] == [b[0]] + b[1..][..i - 1];
      i
  }

  // ---- The specification: one pass over all bytes ----------------------------------------------

  /** What one complete line contributes. */
  function LineOf(line: seq<Byte>, render: Render): seq<string> {
    if |line| > MAX_LOG_LINE_BYTES then [] else match render(line) case None => [] case Some(s) => [s]
  }

  /** The lines of a text, read in one pass: each complete line that is short enough, in order. */
  function Lines(b: seq<Byte>, render: Render): seq<string> {
    var i := FirstNewline(b);
    if i == |b| then [] else LineOf(b[..i + 1], render) + Lines(b[i + 1..], render)
  }

  ghost predicate AtLineStart(b: seq<Byte>) {
    b == [] || b[|b| - 1] == NEWLINE
  }

  lemma FirstNewlineIs(b: seq<Byte>, i: nat)
    requires i < |b| && NEWLINE !in b[..i] && b[i] == NEWLINE
    ensures FirstNewline(b) == i
  {
    var j := FirstNewline(b);
  }

  lemma LinesFirst(b: seq<Byte>, i: nat, render: Render)
    requires i < |b| && NEWLINE !in b[..i] && b[i] == NEWLINE
    ensures Lines(b, render) == LineOf(b[..i + 1], render) + Lines(b[i + 1..], render)
  {
    hide LineOf;
    FirstNewlineIs(b, i);
  }

  lemma Associative<T>(x: seq<T>, y: seq<T>, z: seq<T>)
    ensures x + (y + z) == (x + y) + z
  {
  }

  lemma FirstNewlineExists(a: seq<Byte>)
    requires a != [] && AtLineStart(a)
    ensures FirstNewline(a) < |a|
  {
    assert a[..|a|] == a && a[|a| - 1] in a;
  }

  lemma {:induction false} LinesAppend(a: seq<Byte>, b: seq<Byte>, render: Render)
    requires AtLineStart(a)
    ensures Lines(a + b, render) == Lines(a, render) + Lines(b, render)
    decreases |a|
  {
    hide Lines, LineOf, FirstNewline;
    if a == [] {
      assert a + b == b;
      assert Lines([], render) == [] by { NoLineWithoutNewline([], render); }
    } else {
      FirstNewlineExists(a);
      var i := FirstNewline(a);
      RestAtLineStart(a, i);
      LinesAppend(a[i + 1..], b, render);
      LinesAppendFirst(a, b, i, render);
    }
  }

  lemma RestAtLineStart(a: seq<Byte>, i: nat)
    requires i < |a| && AtLineStart(a)
    ensures AtLineStart(a[i + 1..])
  {
  }

  lemma LinesAppendFirst(a: seq<Byte>, b: seq<Byte>, i: nat, render: Render)
    requires i < |a| && NEWLINE !in a[..i] && a[i] == NEWLINE
    requires Lines(a[i + 1..] + b, render) == Lines(a[i + 1..], render) + Lines(b, render)
    ensures Lines(a + b, render) == Lines(a, render) + Lines(b, render)
  {
    hide Lines, LineOf;
    SplitConcat(a, b, i);
    LinesFirst(a, i, render);
    LinesFirst(a + b, i, render);
    Associative(LineOf(a[..i + 1], render), Lines(a[i + 1..], render), Lines(b, render));
  }

  lemma SplitConcat(a: seq<Byte>, b: seq<Byte>, i: nat)
    requires i < |a|
    ensures (a + b)[..i] == a[..i] && (a + b)[..i + 1] == a[..i + 1] && (a + b)[i + 1..] == a[i + 1..] + b
    ensures (a + b)[i] == a[i]
  {
  }

  lemma NoLineWithoutNewline(b: seq<Byte>, render: Render)
    requires NEWLINE !in b
    ensures Lines(b, render) == []
  {
    var i := FirstNewline(b);
  }

  ghost predicate IsLine(l: seq<Byte>) {
    |l| > 0 && l[|l| - 1] == NEWLINE && NEWLINE !in l[..|l| - 1]
  }

  lemma LinesOfOne(l: seq<Byte>, render: Render)
    requires IsLine(l)
    ensures Lines(l, render) == LineOf(l, render)
  {
    FirstNewlineIs(l, |l| - 1);
    assert l[..|l| - 1 + 1] == l && l[|l| - 1 + 1..] == [];
  }

  function Concat(ls: seq<seq<Byte>>): seq<Byte> {
    if ls == [] then [] else ls[0] + Concat(ls[1..])
  }

  function Contributions(ls: seq<seq<Byte>>, render: Render): seq<string> {
    if ls == [] then []
    else if |ls[0]| <= 16384 && render(ls[0]).Some? then [render(ls[0]).value] + Contributions(ls[1..], render)
    else Contributions(ls[1..], render)
  }

  /** The one-pass specification read declaratively: a text made of lines contributes line by line. */
  lemma {:induction false} LinesLineByLine(ls: seq<seq<Byte>>, rest: seq<Byte>, render: Render)
    requires forall l :: l in ls ==> IsLine(l)
    requires NEWLINE !in rest
    ensures Lines(Concat(ls) + rest, render) == Contributions(ls, render)
  {
    if ls == [] {
      assert Concat(ls) + rest == rest;
      NoLineWithoutNewline(rest, render);
    } else {
      assert Concat(ls) + rest == ls[0] + (Concat(ls[1..]) + rest);
      assert IsLine(ls[0]);
      LinesAppend(ls[0], Concat(ls[1..]) + rest, render);
      LinesOfOne(ls[0], render);
      LinesLineByLine(ls[1..], rest, render);
    }
  }

  // ---- One bounded read ----------------------------------------------------------------------------

  datatype Scanned = Scanned(consumed: nat, skip: bool, lines: seq<string>)

  /** Process a chunk segment by segment; a short incomplete segment at the end is left for the next read. */
  function Scan(bytes: seq<Byte>, skip: bool, render: Render): (r: Scanned)
    ensures r.consumed <= |bytes|
    decreases |bytes|
  {
    if bytes == [] then Scanned(0, skip, [])
    else
      var i := FirstNewline(bytes);
      var complete := i < |bytes|;
      var n := if complete then i + 1 else |bytes|;
      if !complete && !skip && n <= MAX_LOG_LINE_BYTES then Scanned(0, skip, [])
      else
        var ignored := skip || n > MAX_LOG_LINE_BYTES;
        var rest := Scan(bytes[n..], ignored && !complete, render);
        Scanned(n + rest.consumed, rest.skip, (if ignored then [] else LineOf(bytes[..n], render)) + rest.lines)
  }

  /** Where the cursor may stand: at the start of a line, or inside a line already known to be too long. */
  ghost predicate CursorAt(content: seq<Byte>, offset: nat, skip: bool) {
    && offset <= |content|
    && if skip then exists s :: InsideLongLine(content, s, offset) else AtLineStart(content[..offset])
  }

  ghost predicate InsideLongLine(content: seq<Byte>, s: nat, offset: nat) {
    && s <= offset <= |content|
    && AtLineStart(content[..s])
    && NEWLINE !in content[s..offset]
    && offset - s > MAX_LOG_LINE_BYTES
  }

  /** The unfinished part of a line adds nothing to the lines before it. */
  lemma UnfinishedAddsNothing(content: seq<Byte>, s: nat, offset: nat, render: Render)
    requires s <= offset <= |content| && AtLineStart(content[..s]) && NEWLINE !in content[s..offset]
    ensures Lines(content[..offset], render) == Lines(content[..s], render)
  {
    assert content[..offset] == content[..s] + content[s..offset];
    LinesAppend(content[..s], content[s..offset], render);
    NoLineWithoutNewline(content[s..offset], render);
  }

  lemma FinishedAddsItsLine(content: seq<Byte>, s: nat, end: nat, render: Render)
    requires s < end <= |content| && AtLineStart(content[..s]) && IsLine(content[s..end])
    ensures Lines(content[..end], render) == Lines(content[..s], render) + LineOf(content[s..end], render)
    ensures AtLineStart(content[..end])
  {
    hide Lines, LineOf;
    SliceJoins(content, s, end);
    LinesAppend(content[..s], content[s..end], render);
    LinesOfOne(content[s..end], render);
    hide AtLineStart, IsLine;
    EndsLikeItsLine(content, s, end);
  }

  lemma SliceJoins(content: seq<Byte>, s: nat, end: nat)
    requires s <= end <= |content|
    ensures content[..end] == content[..s] + content[s..end]
  {
  }

  lemma EndsLikeItsLine(content: seq<Byte>, s: nat, end: nat)
    requires s < end <= |content| && IsLine(content[s..end])
    ensures AtLineStart(content[..end])
  {
    assert content[..end][end - 1] == content[s..end][end - s - 1];
  }

  lemma SubSlice(content: seq<Byte>, o: nat, n: nat, i: nat, j: nat)
    requires o + n <= |content| && i <= j <= n
    ensures content[o..o + n][i..j] == content[o + i..o + j]
  {
    var a, b := content[o..o + n][i..j], content[o + i..o + j];
    assert forall k :: 0 <= k < j - i ==> a[k] == b[k];
  }

  lemma Head(content: seq<Byte>, o: nat, n: nat, j: nat)
    requires o + n <= |content| && j <= n
    ensures content[o..o + n][..j] == content[o..o + j]
  {
    var a, b := content[o..o + n][..j], content[o..o + j];
    assert forall k :: 0 <= k < j ==> a[k] == b[k];
  }

  lemma LineFromParts(a: seq<Byte>, b: seq<Byte>)
    requires NEWLINE !in a && IsLine(b)
    ensures IsLine(a + b)
  {
    assert (a + b)[..|a + b| - 1] == a + b[..|b| - 1];
  }

  lemma FirstLineIsLine(bytes: seq<Byte>, i: nat)
    requires i < |bytes| && NEWLINE !in bytes[..i] && bytes[i] == NEWLINE
    ensures IsLine(bytes[..i + 1])
  {
    assert bytes[..i + 1][..i] == bytes[..i];
  }

  /** The first segment of a chunk, as a stretch of the whole text. */
  lemma FirstSegment(content: seq<Byte>, offset: nat, bytes: seq<Byte>)
    requires offset + |bytes| <= |content| && bytes == content[offset..offset + |bytes|] && bytes != []
    ensures var i := FirstNewline(bytes);
      if i < |bytes| then IsLine(content[offset..offset + i + 1]) && bytes[..i + 1] == content[offset..offset + i + 1]
      else NEWLINE !in content[offset..offset + |bytes|]
  {
    hide IsLine, FirstNewline;
    var i := FirstNewline(bytes);
    if i < |bytes| {
      SegmentIsLine(content, offset, bytes, i);
    } else {
      assert bytes[..i] == bytes;
    }
  }

  lemma SegmentIsLine(content: seq<Byte>, offset: nat, bytes: seq<Byte>, i: nat)
    requires offset + |bytes| <= |content| && bytes == content[offset..offset + |bytes|]
    requires i < |bytes| && NEWLINE !in bytes[..i] && bytes[i] == NEWLINE
    ensures IsLine(content[offset..offset + i + 1]) && bytes[..i + 1] == content[offset..offset + i + 1]
  {
    Head(content, offset, |bytes|, i + 1);
    FirstLineIsLine(bytes, i);
  }

  lemma LongLineEnds(content: seq<Byte>, s: nat, offset: nat, end: nat, render: Render)
    requires s <= offset < end <= |content| && AtLineStart(content[..s]) && NEWLINE !in content[s..offset]
    requires end - s > MAX_LOG_LINE_BYTES && IsLine(content[offset..end])
    ensures Lines(content[..end], render) == Lines(content[..offset], render) && AtLineStart(content[..end])
  {
    hide Lines, IsLine, AtLineStart;
    UnfinishedAddsNothing(content, s, offset, render);
    assert content[s..end] == content[s..offset] + content[offset..end];
    LineFromParts(content[s..offset], content[offset..end]);
    FinishedAddsItsLine(content, s, end, render);
  }

  lemma LongLineGoesOn(content: seq<Byte>, s: nat, offset: nat, end: nat, render: Render)
    requires s <= offset < end <= |content| && AtLineStart(content[..s]) && NEWLINE !in content[s..offset]
    requires end - s > MAX_LOG_LINE_BYTES && NEWLINE !in content[offset..end]
    ensures Lines(content[..end], render) == Lines(content[..offset], render) && InsideLongLine(content, s, end)
  {
    hide Lines, IsLine, AtLineStart;
    UnfinishedAddsNothing(content, s, offset, render);
    assert content[s..end] == content[s..offset] + content[offset..end];
    UnfinishedAddsNothing(content, s, end, render);
  }

  /** One segment, complete or long enough to be given up: where the cursor goes and what is returned. */
  lemma SegmentStep(content: seq<Byte>, offset: nat, skip: bool, end: nat, complete: bool, render: Render)
    requires CursorAt(content, offset, skip) && offset < end <= |content|
    requires if complete then IsLine(content[offset..end]) else NEWLINE !in content[offset..end]
    requires complete || skip || end - offset > MAX_LOG_LINE_BYTES
    ensures var ignored := skip || end - offset > MAX_LOG_LINE_BYTES;
      && CursorAt(content, end, ignored && !complete)
      && Lines(content[..end], render)
         == Lines(content[..offset], render) + if ignored then [] else LineOf(content[offset..end], render)
  {
    hide Lines, IsLine, AtLineStart, LineOf;
    if skip || end - offset > MAX_LOG_LINE_BYTES {
      var s: nat := offset;
      if skip {
        s :| InsideLongLine(content, s, offset);
      } else {
        assert content[offset..offset] == [];
      }
      if complete {
        LongLineEnds(content, s, offset, end, render);
      } else {
        LongLineGoesOn(content, s, offset, end, render);
      }
    } else {
      FinishedAddsItsLine(content, offset, end, render);
    }
  }

  /** How a chunk is taken apart: the length of its first segment, or nothing when that has to wait. */
  lemma ScanFirst(bytes: seq<Byte>, skip: bool, render: Render)
    requires bytes != []
    ensures var i := FirstNewline(bytes);
      var complete := i < |bytes|;
      var n := if complete then i + 1 else |bytes|;
      var ignored := skip || n > MAX_LOG_LINE_BYTES;
      if !complete && !ignored then Scan(bytes, skip, render) == Scanned(0, skip, [])
      else
        var rest := Scan(bytes[n..], ignored && !complete, render);
        Scan(bytes, skip, render) == Scanned(n + rest.consumed, rest.skip,
                                             (if ignored then [] else LineOf(bytes[..n], render)) + rest.lines)
  {
    hide LineOf, FirstNewline;
  }

  /** One read advances the cursor from one legal place to another, and returns exactly the lines in between. */
  lemma {:induction false} ScanRefinesOnePass(content: seq<Byte>, offset: nat, skip: bool, bytes: seq<Byte>,
                                              render: Render)
    requires CursorAt(content, offset, skip)
    requires offset + |bytes| <= |content| && bytes == content[offset..offset + |bytes|]
    ensures var r := Scan(bytes, skip, render);
      && CursorAt(content, offset + r.consumed, r.skip)
      && Lines(content[..offset + r.consumed], render) == Lines(content[..offset], render) + r.lines
    decreases |bytes|
  {
    hide Lines, IsLine, CursorAt, LineOf, Scan, FirstNewline;
    if bytes == [] {
      assert Scan(bytes, skip, render) == Scanned(0, skip, []) by { ScanNothing(skip, render); }
    } else {
      var i := FirstNewline(bytes);
      var complete := i < |bytes|;
      var n := if complete then i + 1 else |bytes|;
      var ignored := skip || n > MAX_LOG_LINE_BYTES;
      FirstSegment(content, offset, bytes);
      ScanFirst(bytes, skip, render);
      if complete || ignored {
        SegmentStep(content, offset, skip, offset + n, complete, render);
        SubSlice(content, offset, |bytes|, n, |bytes|);
        ScanRefinesOnePass(content, offset + n, ignored && !complete, bytes[n..], render);
        var rest := Scan(bytes[n..], ignored && !complete, render);
        assert offset + n + rest.consumed == offset + (n + rest.consumed);
      }
    }
  }

  lemma ScanNothing(skip: bool, render: Render)
    ensures Scan([], skip, render) == Scanned(0, skip, [])
  {
  }

  // ---- Polls --------------------------------------------------------------------------------------------

  /** A file as one poll finds it: its identity, its length when inspected, and its content when read. */
  datatype File = File(identity: Option<string>, lengthAtStat: nat, content: seq<Byte>, readable: bool)

  datatype Cursor = Cursor(offset: nat, identity: Option<string>, skip: bool)

  /** The file was replaced or truncated since the last poll. */
  predicate Rotated(c: Cursor, f: File) {
    (c.identity.Some? && f.identity.Some? && c.identity != f.identity) || f.lengthAtStat < c.offset
  }

  function Chunk(f: File, offset: nat): (r: seq<Byte>)
    ensures offset <= |f.content| ==> offset + |r| <= |f.content| && r == f.content[offset..offset + |r|]
  {
    if offset >= |f.content| then []
    else if |f.content| - offset > MAX_LOG_BYTES_PER_CYCLE then f.content[offset..offset + MAX_LOG_BYTES_PER_CYCLE]
    else f.content[offset..]
  }

  /** Where a poll starts reading: where the last one stopped, or at the beginning of a rotated file. */
  function StartOf(c: Cursor, f: File): Cursor {
    if Rotated(c, f) then Cursor(0, f.identity, false) else c.(identity := f.identity)
  }

  /** One poll of a file that could be opened. */
  function Poll(c: Cursor, f: File, render: Render): (Cursor, seq<string>) {
    var start := StartOf(c, f);
    if start.offset >= f.lengthAtStat || !f.readable then (start, [])
    else
      var r := Scan(Chunk(f, start.offset), start.skip, render);
      (start.(offset := start.offset + r.consumed, skip := r.skip), r.lines)
  }

  /** The persisted position of one tailed log. */
  class LogTail {
    var offset: nat
    var identity: Option<string>
    var skipLongLine: bool

    ghost function View(): Cursor
      reads this
    {
      Cursor(offset, identity, skipLongLine)
    }

    constructor ()
      ensures View() == Cursor(0, None, false)
    {
      offset, identity, skipLongLine := 0, None, false;
    }

    /** Read a bounded chunk of complete lines; `None` when the file cannot be opened. */
    method TailLog(found: Option<File>, render: Render) returns (lines: seq<string>)
      modifies this
      ensures found.None? ==> View() == old(View()) && lines == []
      ensures found.Some? ==> (View(), lines) == Poll(old(View()), found.value, render)
    {
      hide Scan, FirstNewline, Chunk, Continues, LineOf;
      lines := [];
      if found.None? {
        return;
      }
      var f := found.value;
      if (identity.Some? && f.identity.Some? && identity != f.identity) || f.lengthAtStat < offset {
        offset := 0;
        skipLongLine := false;
      }
      identity := f.identity;
      if offset >= f.lengthAtStat {
        return;
      }
      if !f.readable {
        return;
      }
      assert View() == StartOf(old(View()), f);
      lines := ReadSegments(Chunk(f, offset), render);
    }

    /** Go through the segments of one chunk. */
    method ReadSegments(bytes: seq<Byte>, render: Render) returns (lines: seq<string>)
      modifies this
      ensures var r := Scan(bytes, old(skipLongLine), render);
        offset == old(offset) + r.consumed && skipLongLine == r.skip && lines == r.lines
      ensures identity == old(identity)
    {
      hide Scan, FirstNewline, Continues;
      lines := [];
      ScanStarts(bytes, skipLongLine, render);
      ghost var all := Scan(bytes, skipLongLine, render);
      var pos := 0;
      while pos < |bytes|
        invariant 0 <= pos <= |bytes| && offset == old(offset) + pos && identity == old(identity)
        invariant Continues(all, bytes, pos, skipLongLine, lines, render)
      {
        ghost var pos0, skip0, lines0 := pos, skipLongLine, lines;
        var i := FirstNewline(bytes[pos..]);
        var complete := i < |bytes| - pos;
        var n := if complete then i + 1 else |bytes| - pos;
        var segment := bytes[pos..][..n];
        if !complete && !skipLongLine && n <= MAX_LOG_LINE_BYTES {
          break;
        }
        offset := offset + n;
        pos := pos + n;
        if skipLongLine || n > MAX_LOG_LINE_BYTES {
          skipLongLine := !complete;
        } else {
          var line := render(segment);
          if line.Some? {
            lines := lines + [line.value];
          }
        }
        ContinuesAfterSegment(all, bytes, pos0, skip0, lines0, render);
      }
      ScanEnds(all, bytes, pos, skipLongLine, lines, render);
    }
  }

  /** What is returned so far together with what the rest of the chunk returns is what the chunk returns. */
  ghost predicate Continues(all: Scanned, bytes: seq<Byte>, pos: nat, skip: bool, lines: seq<string>, render: Render) {
    && pos <= |bytes|
    && var rest := Scan(bytes[pos..], skip, render); all == Scanned(pos + rest.consumed, rest.skip, lines + rest.lines)
  }

  lemma ContinuesAfterSegment(all: Scanned, bytes: seq<Byte>, pos: nat, skip: bool, lines: seq<string>, render: Render)
    requires pos < |bytes| && Continues(all, bytes, pos, skip, lines, render)
    ensures var i := FirstNewline(bytes[pos..]);
      var complete := i < |bytes| - pos;
      var n := if complete then i + 1 else |bytes| - pos;
      var ignored := skip || n > MAX_LOG_LINE_BYTES;
      && (ignored ==> Continues(all, bytes, pos + n, !complete, lines, render))
      && (!ignored && complete ==>
         Continues(all, bytes, pos + n, false, WithLine(lines, render(bytes[pos..][..n])), render))
  {
    hide Scan, FirstNewline;
    ScanFirst(bytes[pos..], skip, render);
    var i := FirstNewline(bytes[pos..]);
    var complete := i < |bytes| - pos;
    var n := if complete then i + 1 else |bytes| - pos;
    var ignored := skip || n > MAX_LOG_LINE_BYTES;
    if complete || ignored {
      assert bytes[pos..][n..] == bytes[pos + n..];
      var more := if ignored then [] else LineOf(bytes[pos..][..n], render);
      Associative(lines, more, Scan(bytes[pos + n..], ignored && !complete, render).lines);
      assert lines + [] == lines;
    }
  }

  function WithLine(lines: seq<string>, line: Option<string>): seq<string> {
    if line.Some? then lines + [line.value] else lines
  }

  lemma ScanStarts(bytes: seq<Byte>, skip: bool, render: Render)
    ensures Continues(Scan(bytes, skip, render), bytes, 0, skip, [], render)
  {
    hide Scan;
    assert bytes[0..] == bytes;
  }

  lemma ScanEnds(all: Scanned, bytes: seq<Byte>, pos: nat, skip: bool, lines: seq<string>, render: Render)
    requires Continues(all, bytes, pos, skip, lines, render)
    requires pos == |bytes| || (NEWLINE !in bytes[pos..] && !skip && |bytes| - pos <= MAX_LOG_LINE_BYTES)
    ensures all == Scanned(pos, skip, lines)
  {
    if pos < |bytes| {
      ScanFirst(bytes[pos..], skip, render);
      assert FirstNewline(bytes[pos..]) == |bytes| - pos;
    }
  }

  // ---- Schedules ------------------------------------------------------------------------------------------

  /** Poll after poll: the cursor at the end, and everything that was returned. */
  function PollAll(c: Cursor, files: seq<File>, render: Render): (Cursor, seq<string>) {
    if files == [] then (c, [])
    else
      var (mid, lines) := PollAll(c, files[..|files| - 1], render);
      var (end, more) := Poll(mid, files[|files| - 1], render);
      (end, lines + more)
  }

  /** One file that only grows, inspected and read any number of times while it grows. */
  ghost predicate AppendOnly(files: seq<File>, identity: Option<string>) {
    && (forall i :: 0 <= i < |files| ==> files[i].identity == identity && files[i].lengthAtStat <= |files[i].content|)
    && (forall i, j :: 0 <= i < j < |files| ==>
        files[i].content <= files[j].content && |files[i].content| <= files[j].lengthAtStat)
  }

  function LastContent(files: seq<File>): seq<Byte> {
    if files == [] then [] else files[|files| - 1].content
  }

  lemma PrefixKeepsCursor(a: seq<Byte>, b: seq<Byte>, offset: nat, skip: bool)
    requires a <= b && CursorAt(a, offset, skip)
    ensures CursorAt(b, offset, skip) && a[..offset] == b[..offset]
  {
    assert a[..offset] == b[..offset];
    if skip {
      var s: nat :| InsideLongLine(a, s, offset);
      assert a[..s] == b[..s] && a[s..offset] == b[s..offset];
      assert InsideLongLine(b, s, offset);
    }
  }

  /** One poll of a file that has not been rotated. */
  lemma PollRefinesOnePass(c: Cursor, f: File, render: Render)
    requires !Rotated(c, f) && CursorAt(f.content, c.offset, c.skip)
    ensures var (c', lines) := Poll(c, f, render);
      && CursorAt(f.content, c'.offset, c'.skip) && c'.identity == f.identity && c.offset <= c'.offset
      && Lines(f.content[..c'.offset], render) == Lines(f.content[..c.offset], render) + lines
  {
    hide Lines, CursorAt, Scan, Chunk;
    PositionIsInside(f.content, c.offset, c.skip);
    ScanRefinesOnePass(f.content, c.offset, c.skip, Chunk(f, c.offset), render);
  }

  /**
   * For every schedule of appends and polls, everything returned so far is what one pass over the consumed
   * bytes returns: no complete line is lost, split, repeated or reordered.
   */
  lemma {:induction false} EveryScheduleRefinesOnePass(files: seq<File>, identity: Option<string>, render: Render)
    requires AppendOnly(files, identity)
    ensures var (c, lines) := PollAll(Cursor(0, None, false), files, render);
      && CursorAt(LastContent(files), c.offset, c.skip) && (c.identity.Some? ==> c.identity == identity)
      && lines == Lines(LastContent(files)[..c.offset], render)
  {
    if files == [] {
      assert LastContent(files)[..0] == [];
    } else {
      var front, f := files[..|files| - 1], files[|files| - 1];
      EveryScheduleRefinesOnePass(front, identity, render);
      var (mid, lines) := PollAll(Cursor(0, None, false), front, render);
      assert LastContent(front) <= f.content && mid.offset <= f.lengthAtStat by {
        if front != [] {
          assert front[|front| - 1] == files[|files| - 2];
        }
      }
      PrefixKeepsCursor(LastContent(front), f.content, mid.offset, mid.skip);
      PollRefinesOnePass(mid, f, render);
    }
  }

  // ---- Progress ----------------------------------------------------------------------------------------------

  /** A poll that finds a complete line ahead of the cursor moves the cursor. */
  lemma PollMakesProgress(c: Cursor, f: File, render: Render)
    requires f.readable && f.lengthAtStat == |f.content| && !Rotated(c, f)
    requires c.offset <= |f.content| && NEWLINE in f.content[c.offset..]
    ensures Poll(c, f, render).0.offset > c.offset
  {
    var bytes := Chunk(f, c.offset);
    var i := FirstNewline(bytes);
    if i == |bytes| {
      assert bytes[..i] == bytes;
      assert bytes != f.content[c.offset..];
    }
  }

  function PollTimes(c: Cursor, f: File, n: nat, render: Render): (Cursor, seq<string>)
    decreases n
  {
    if n == 0 then (c, [])
    else
      var (mid, lines) := Poll(c, f, render);
      var (end, more) := PollTimes(mid, f, n - 1, render);
      (end, lines + more)
  }

  /** Polling a file that no longer changes, often enough, returns all its remaining complete lines. */
  lemma {:induction false} PollingDrainsTheFile(c: Cursor, f: File, n: nat, render: Render)
    requires f.readable && f.lengthAtStat == |f.content| && !Rotated(c, f) && CursorAt(f.content, c.offset, c.skip)
    requires n >= |f.content| - c.offset
    ensures var (end, lines) := PollTimes(c, f, n, render);
      && end.offset <= |f.content| && NEWLINE !in f.content[end.offset..]
      && Lines(f.content, render) == Lines(f.content[..c.offset], render) + lines
    decreases n
  {
    hide Lines, CursorAt, Poll;
    if n == 0 {
      PositionIsInside(f.content, c.offset, c.skip);
      assert f.content[c.offset..] == [];
      assert f.content[..c.offset] == f.content;
    } else {
      var (mid, lines) := Poll(c, f, render);
      PollRefinesOnePass(c, f, render);
      PositionIsInside(f.content, c.offset, c.skip);
      PositionIsInside(f.content, mid.offset, mid.skip);
      if NEWLINE in f.content[c.offset..] {
        PollMakesProgress(c, f, render);
        PollingDrainsTheFile(mid, f, n - 1, render);
      } else {
        NothingLeftStays(c, f, n, render);
      }
    }
  }

  lemma {:induction false} NothingLeftStays(c: Cursor, f: File, n: nat, render: Render)
    requires !Rotated(c, f) && CursorAt(f.content, c.offset, c.skip) && f.lengthAtStat == |f.content|
    requires NEWLINE !in f.content[c.offset..]
    ensures var (end, lines) := PollTimes(c, f, n, render);
      && end.offset <= |f.content| && NEWLINE !in f.content[end.offset..]
      && Lines(f.content, render) == Lines(f.content[..c.offset], render) + lines
    decreases n
  {
    hide Lines, CursorAt, Poll;
    PositionIsInside(f.content, c.offset, c.skip);
    if n == 0 {
      WholeTextFromCursor(c, f, render);
    } else {
      var (mid, lines) := Poll(c, f, render);
      PollRefinesOnePass(c, f, render);
      PositionIsInside(f.content, mid.offset, mid.skip);
      assert f.content[mid.offset..] == f.content[c.offset..][mid.offset - c.offset..];
      NothingLeftStays(mid, f, n - 1, render);
    }
  }

  lemma PositionIsInside(content: seq<Byte>, offset: nat, skip: bool)
    requires CursorAt(content, offset, skip)
    ensures offset <= |content|
  {
  }

  lemma WholeTextFromCursor(c: Cursor, f: File, render: Render)
    requires CursorAt(f.content, c.offset, c.skip) && NEWLINE !in f.content[c.offset..]
    ensures Lines(f.content, render) == Lines(f.content[..c.offset], render)
  {
    hide Lines;
    var content := f.content;
    var s: nat := c.offset;
    if c.skip {
      s :| InsideLongLine(content, s, c.offset);
    } else {
      assert content[s..s] == [];
    }
    NothingUntilTheEnd(content, s, c.offset);
    UnfinishedAddsNothing(content, s, c.offset, render);
    UnfinishedAddsNothing(content, s, |content|, render);
  }

  lemma NothingUntilTheEnd(content: seq<Byte>, s: nat, offset: nat)
    requires s <= offset <= |content| && NEWLINE !in content[s..offset] && NEWLINE !in content[offset..]
    ensures NEWLINE !in content[s..|content|] && content[..|content|] == content
  {
    forall k | s <= k < |content| ensures content[k] != NEWLINE {
      if k < offset {
        assert content[k] == content[s..offset][k - s];
      } else {
        assert content[k] == content[offset..][k - offset];
      }
    }
  }

  // ---- Rotation -----------------------------------------------------------------------------------------------

  /**
   * What a poll does to any cursor. When both identities are known and differ, or the file is shorter than the
   * position, the new file is read from its start; in every other case reading goes on where it stopped.
   */
  lemma RotationStartsAfresh(c: Cursor, f: File, render: Render)
    ensures var (c', lines) := Poll(c, f, render);
      var replaced :=
        (c.identity.Some? && f.identity.Some? && c.identity.value != f.identity.value) || f.lengthAtStat < c.offset;
      && c'.identity == f.identity
      && (replaced ==> CursorAt(f.content, c'.offset, c'.skip) && lines == Lines(f.content[..c'.offset], render))
      && (replaced && f.readable && f.lengthAtStat == |f.content| && NEWLINE in f.content ==> c'.offset > 0)
      && (!replaced && (c.offset >= f.lengthAtStat || !f.readable) ==>
           c' == Cursor(c.offset, f.identity, c.skip) && lines == [])
      && (!replaced && c.offset < f.lengthAtStat && f.readable ==>
           var r := Scan(Chunk(f, c.offset), c.skip, render);
           c' == Cursor(c.offset + r.consumed, f.identity, r.skip) && lines == r.lines)
      && (!replaced && CursorAt(f.content, c.offset, c.skip) ==>
           && CursorAt(f.content, c'.offset, c'.skip) && c.offset <= c'.offset
           && Lines(f.content[..c'.offset], render) == Lines(f.content[..c.offset], render) + lines)
  {
    hide Lines, CursorAt, Scan, Chunk;
    if Rotated(c, f) {
      var start := Cursor(0, None, false);
      assert Poll(c, f, render) == Poll(start, f, render);
      AtTheStart(f.content, render);
      PollRefinesOnePass(start, f, render);
      if f.readable && f.lengthAtStat == |f.content| && NEWLINE in f.content {
        assert f.content[0..] == f.content;
        PollMakesProgress(start, f, render);
      }
    } else if CursorAt(f.content, c.offset, c.skip) {
      PollRefinesOnePass(c, f, render);
    }
  }

  lemma AtTheStart(content: seq<Byte>, render: Render)
    ensures CursorAt(content, 0, false) && Lines(content[..0], render) == []
  {
  }

  lemma PollRotated(c: Cursor, f: File, render: Render)
    requires Rotated(c, f)
    ensures Poll(c, f, render) == Poll(Cursor(0, None, false), f, render)
  {
  }

  lemma {:induction false} PollAllRotated(c: Cursor, files: seq<File>, render: Render)
    requires files != [] && Rotated(c, files[0])
    ensures PollAll(c, files, render) == PollAll(Cursor(0, None, false), files, render)
    decreases |files|
  {
    hide Poll, Rotated;
    if |files| == 1 {
      PollRotated(c, files[0], render);
      assert PollAll(c, files[..0], render) == (c, []);
    } else {
      PollAllRotated(c, files[..|files| - 1], render);
    }
  }

  lemma {:induction false} PollAllAppend(c: Cursor, a: seq<File>, b: seq<File>, render: Render)
    ensures var (mid, lines) := PollAll(c, a, render);
      var (end, more) := PollAll(mid, b, render);
      PollAll(c, a + b, render) == (end, lines + more)
    decreases |b|
  {
    hide Poll;
    var (mid, lines) := PollAll(c, a, render);
    if b == [] {
      assert a + b == a && lines + [] == lines;
    } else {
      var front, f := b[..|b| - 1], b[|b| - 1];
      PollAllAppend(c, a, front, render);
      assert (a + b)[..|a + b| - 1] == a + front && (a + b)[|a + b| - 1] == f;
      var (before, more) := PollAll(mid, front, render);
      Associative(lines, more, Poll(before, f, render).1);
    }
  }

  lemma LastIdentity(c: Cursor, files: seq<File>, identity: Option<string>, render: Render)
    requires files != [] && AppendOnly(files, identity)
    ensures PollAll(c, files, render).0.identity == identity
  {
    hide Scan, Chunk;
  }

  /** Files that replace one another: each only grows, and its identity is known and differs from the last one's. */
  ghost predicate Generations(gens: seq<seq<File>>, ids: seq<string>) {
    && |gens| == |ids|
    && (forall i :: 0 <= i < |gens| ==> gens[i] != [] && AppendOnly(gens[i], Some(ids[i])))
    && forall i :: 0 < i < |ids| ==> ids[i - 1] != ids[i]
  }

  function AllPolls(gens: seq<seq<File>>): seq<File> {
    if gens == [] then [] else AllPolls(gens[..|gens| - 1]) + gens[|gens| - 1]
  }

  /** One pass over each generation, as far as it was consumed. */
  function LinesOfAll(gens: seq<seq<File>>, cuts: seq<nat>, render: Render): seq<string>
    requires |cuts| == |gens| && forall i :: 0 <= i < |gens| ==> cuts[i] <= |LastContent(gens[i])|
  {
    if gens == [] then []
    else
      var n := |gens| - 1;
      LinesOfAll(gens[..n], cuts[..n], render) + Lines(LastContent(gens[n])[..cuts[n]], render)
  }

  /**
   * Across any number of rotations, everything returned is one pass over a prefix of each generation: nothing of a
   * generation is skipped, split, repeated or mixed up with another one, up to where its reading stopped.
   */
  lemma {:induction false} EveryGenerationIsRead(gens: seq<seq<File>>, ids: seq<string>, render: Render)
    returns (cuts: seq<nat>)
    requires Generations(gens, ids)
    ensures |cuts| == |gens| && forall i :: 0 <= i < |gens| ==> cuts[i] <= |LastContent(gens[i])|
    ensures PollAll(Cursor(0, None, false), AllPolls(gens), render).1 == LinesOfAll(gens, cuts, render)
    ensures gens != [] ==> PollAll(Cursor(0, None, false), AllPolls(gens), render).0.identity == Some(ids[|ids| - 1])
    decreases |gens|
  {
    hide Poll, Lines, CursorAt, AppendOnly, LastContent;
    if gens == [] {
      return [];
    }
    var n := |gens| - 1;
    var front, last := gens[..n], gens[n];
    var start := Cursor(0, None, false);
    var before := EveryGenerationIsRead(front, ids[..n], render);
    var (mid, lines) := PollAll(start, AllPolls(front), render);
    PollAllAppend(start, AllPolls(front), last, render);
    LastIdentity(mid, last, Some(ids[n]), render);
    if front != [] {
      assert ids[n - 1] != ids[n] && ids[..n][|ids[..n]| - 1] == ids[n - 1];
      FirstIdentity(last, Some(ids[n]));
      PollAllRotated(mid, last, render);
    } else {
      assert lines == [] && mid == start;
    }
    EveryScheduleRefinesOnePass(last, Some(ids[n]), render);
    var c := PollAll(start, last, render).0;
    PositionIsInside(LastContent(last), c.offset, c.skip);
    cuts := before + [c.offset];
    assert cuts[..n] == before;
  }

  lemma FirstIdentity(files: seq<File>, identity: Option<string>)
    requires files != [] && AppendOnly(files, identity)
    ensures files[0].identity == identity
  {
  }
}
