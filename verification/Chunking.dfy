/** Splitting a document into bounded chunks without losing text. */
module Chunking {
  import opened Prelude

  /** The bytes one character takes in UTF-8. */
  function Width(c: char): (w: nat)
    ensures 1 <= w <= 4
  {
    if c as int < 0x80 then 1 else if c as int < 0x800 then 2 else if c as int < 0x1_0000 then 3 else 4
  }

  /** The length of a text in bytes. */
  function Bytes(s: string): nat {
    if s == "" then 0 else Width(s[0]) + Bytes(s[1..])
  }

  /** The Unicode White_Space characters. */
  predicate IsWhitespace(c: char) {
    var n := c as int;
    || 0x09 <= n <= 0x0D || n == 0x20 || n == 0x85 || n == 0xA0 || n == 0x1680 || 0x2000 <= n <= 0x200A
    || n == 0x2028 || n == 0x2029 || n == 0x202F || n == 0x205F || n == 0x3000
  }

  predicate IsBlank(s: string) {
    forall c :: c in s ==> IsWhitespace(c)
  }

  function TrimStart(s: string): string {
    if s != "" && IsWhitespace(s[0]) then TrimStart(s[1..]) else s
  }

  function TrimEnd(s: string): string {
    if s != "" && IsWhitespace(s[|s| - 1]) then TrimEnd(s[..|s| - 1]) else s
  }

  function Trim(s: string): string {
    TrimEnd(TrimStart(s))
  }

  /** The characters that are not white space, in order. */
  function Ink(s: string): string {
    if s == "" then "" else (if IsWhitespace(s[0]) then "" else [s[0]]) + Ink(s[1..])
  }

  function Concat(ss: seq<string>): string {
    if ss == [] then "" else ss[0] + Concat(ss[1..])
  }

  lemma {:induction false} BytesConcat(a: string, b: string)
    ensures Bytes(a + b) == Bytes(a) + Bytes(b)
  {
    if a == "" {
      assert a + b == b;
    } else {
      assert (a + b)[1..] == a[1..] + b;
      BytesConcat(a[1..], b);
    }
  }

  lemma {:induction false} InkConcat(a: string, b: string)
    ensures Ink(a + b) == Ink(a) + Ink(b)
  {
    if a == "" {
      assert a + b == b;
    } else {
      assert (a + b)[1..] == a[1..] + b;
      InkConcat(a[1..], b);
    }
  }

  lemma {:induction false} ConcatAppend(a: seq<string>, b: seq<string>)
    ensures Concat(a + b) == Concat(a) + Concat(b)
  {
    if a == [] {
      assert a + b == b;
    } else {
      assert (a + b)[1..] == a[1..] + b;
      ConcatAppend(a[1..], b);
      assert a[0] + (Concat(a[1..]) + Concat(b)) == (a[0] + Concat(a[1..])) + Concat(b);
    }
  }

  lemma {:induction false} BlankHasNoInk(s: string)
    ensures IsBlank(s) <==> Ink(s) == ""
  {
    if s != "" {
      BlankHasNoInk(s[1..]);
      assert s == [s[0]] + s[1..];
    }
  }

  lemma {:induction false} TrimStartKeeps(s: string)
    ensures Ink(TrimStart(s)) == Ink(s) && Bytes(TrimStart(s)) <= Bytes(s)
    ensures TrimStart(s) != "" ==> !IsWhitespace(TrimStart(s)[0])
  {
    if s != "" && IsWhitespace(s[0]) {
      TrimStartKeeps(s[1..]);
    }
  }

  lemma {:induction false} TrimEndKeeps(s: string)
    ensures Ink(TrimEnd(s)) == Ink(s) && Bytes(TrimEnd(s)) <= Bytes(s) && TrimEnd(s) <= s
    ensures TrimEnd(s) != "" ==> !IsWhitespace(TrimEnd(s)[|TrimEnd(s)| - 1])
  {
    if s != "" && IsWhitespace(s[|s| - 1]) {
      var front, last := s[..|s| - 1], s[|s| - 1..];
      assert s == front + last;
      TrimEndKeeps(front);
      InkConcat(front, last);
      BytesConcat(front, last);
      assert Ink(last) == "";
    }
  }

  /** Trimming loses white space only, and leaves none at the ends. */
  lemma TrimKeepsInk(s: string)
    ensures Ink(Trim(s)) == Ink(s) && Bytes(Trim(s)) <= Bytes(s)
    ensures Trim(s) != "" ==> !IsWhitespace(Trim(s)[0]) && !IsWhitespace(Trim(s)[|Trim(s)| - 1])
    ensures Trim(s) == "" <==> IsBlank(s)
  {
    TrimStartKeeps(s);
    TrimEndKeeps(TrimStart(s));
    BlankHasNoInk(s);
    var t := Trim(s);
    if t != "" {
      assert t[0] == TrimStart(s)[0];
      BlankHasNoInk(t);
      assert t[0] in t;
    }
  }

  /** `c` is a stretch of `s`, with nothing but white space cut off at either end. */
  ghost predicate IsTrimmedOf(c: string, s: string) {
    exists i, j :: 0 <= i <= j <= |s| && c == s[i..j] && IsBlank(s[..i]) && IsBlank(s[j..])
  }

  lemma {:induction false} TrimStartIsASuffix(s: string) returns (i: nat)
    ensures i <= |s| && TrimStart(s) == s[i..] && IsBlank(s[..i])
  {
    if s != "" && IsWhitespace(s[0]) {
      var k := TrimStartIsASuffix(s[1..]);
      i := k + 1;
      assert s[..i] == [s[0]] + s[1..][..k];
    } else {
      i := 0;
    }
  }

  lemma {:induction false} TrimEndIsAPrefix(s: string) returns (j: nat)
    ensures j <= |s| && TrimEnd(s) == s[..j] && IsBlank(s[j..])
  {
    if s != "" && IsWhitespace(s[|s| - 1]) {
      j := TrimEndIsAPrefix(s[..|s| - 1]);
      assert s[j..] == s[..|s| - 1][j..] + [s[|s| - 1]];
    } else {
      j := |s|;
    }
  }

  /** Trimming cuts white space off the ends and keeps all of what lies between, its white space included. */
  lemma TrimIsAStretch(s: string)
    ensures IsTrimmedOf(Trim(s), s)
  {
    hide IsWhitespace;
    var i := TrimStartIsASuffix(s);
    var k := TrimEndIsAPrefix(s[i..]);
    assert s[i..][..k] == s[i..i + k] && s[i..][k..] == s[i + k..];
  }

  // ---- Cutting a text that is too long -----------------------------------------------------------

  predicate OccursAt(s: string, pattern: string, i: int) {
    0 <= i <= |s| - |pattern| && s[i..i + |pattern|] == pattern
  }

  /** The last place below `from` where the pattern occurs. */
  function LastBelow(s: string, pattern: string, from: nat): (r: Option<nat>)
    ensures r.Some? ==> r.value < from && OccursAt(s, pattern, r.value)
    ensures r.Some? ==> forall i :: r.value < i < from ==> !OccursAt(s, pattern, i)
    ensures r.None? ==> forall i :: 0 <= i < from ==> !OccursAt(s, pattern, i)
  {
    if from == 0 then None
    else if OccursAt(s, pattern, from - 1) then Some(from - 1)
    else LastBelow(s, pattern, from - 1)
  }

  /** Where the text is cut after a separator, in order of preference. */
  const SEPARATORS: seq<string> := ["\U{3002}", "\U{FF0E}", ". ", "\n", " "]

  /** The cut inside a window: after the last occurrence of the most preferred separator it contains. */
  function CutAfter(window: string, separators: seq<string>): (cut: nat)
    requires forall p :: p in separators ==> p != ""
    ensures window != "" ==> 0 < cut
    ensures cut <= |window|
    ensures forall k: nat :: k < |separators| && IsPreferred(window, separators, k) ==> Cuts(window, separators[k], cut)
    ensures (forall k, i :: 0 <= k < |separators| ==> !OccursAt(window, separators[k], i)) ==> cut == |window|
  {
    if separators == [] then |window|
    else
      match LastBelow(window, separators[0], |window| + 1)
      case Some(pos) => pos + |separators[0]|
      case None =>
        assert forall p :: p in separators[1..] ==> p in separators;
        var cut := CutAfter(window, separators[1..]);
        assert forall k: nat | 0 < k < |separators| && IsPreferred(window, separators, k) ::
          IsPreferred(window, separators[1..], k - 1);
        assert forall k :: 0 <= k < |separators| - 1 ==> separators[1..][k] == separators[k + 1];
        cut
  }

  /** The first separator of the list that occurs at all. */
  ghost predicate IsPreferred(window: string, separators: seq<string>, k: nat) {
    && k < |separators|
    && (exists i :: OccursAt(window, separators[k], i))
    && forall j, i :: 0 <= j < k ==> !OccursAt(window, separators[j], i)
  }

  ghost predicate Cuts(window: string, separator: string, cut: nat) {
    && OccursAt(window, separator, cut - |separator|)
    && forall i :: cut - |separator| < i ==> !OccursAt(window, separator, i)
  }

  /** The shortest prefix of at least `maxSize` bytes, or the whole text. */
  function WindowEnd(text: string, maxSize: nat): (end: nat)
    ensures end <= |text|
    ensures end < |text| ==> Bytes(text[..end]) >= maxSize
    ensures end > 0 ==> Bytes(text[..end - 1]) < maxSize
    ensures maxSize > 0 && text != "" ==> end > 0
  {
    if text == "" || maxSize == 0 then 0
    else if Width(text[0]) >= maxSize then
      assert text[..1][1..] == "" && text[..0] == "";
      1
    else
      var end := 1 + WindowEnd(text[1..], maxSize - Width(text[0]));
      assert text[..end][1..] == text[1..][..end - 1];
      assert end >= 2 ==> text[..end - 1][1..] == text[1..][..end - 2];
      end
  }

  lemma WindowIsBounded(text: string, maxSize: nat)
    ensures Bytes(text[..WindowEnd(text, maxSize)]) <= maxSize + 3
  {
    var end := WindowEnd(text, maxSize);
    if end > 0 {
      assert text[..end] == text[..end - 1] + [text[end - 1]];
      BytesConcat(text[..end - 1], [text[end - 1]]);
    }
  }

  /** The pieces of a long text. */
  function Pieces(text: string, maxSize: nat): (r: seq<string>)
    requires maxSize > 0
    ensures forall p :: p in r ==> p != ""
  {
    if text == "" then []
    else
      var end := WindowEnd(text, maxSize);
      if end == |text| then [text]
      else
        var cut := CutAfter(text[..end], SEPARATORS);
        [text[..cut]] + Pieces(text[cut..], maxSize)
  }

  /**
   * How a long text is cut: what is left over once it fits the window is one piece; before that each piece ends right
   * behind the last full stop of its window, or else behind its last other separator by preference, or fills it.
   */
  ghost predicate IsWellCut(pieces: seq<string>, text: string, maxSize: nat)
    decreases |pieces|
  {
    if text == "" then pieces == []
    else
      && pieces != [] && pieces[0] != "" && pieces[0] <= text
      && (if Bytes(text) < maxSize then pieces == [text] else FillsWindow(pieces[0], text, maxSize))
      && IsWellCut(pieces[1..], text[|pieces[0]|..], maxSize)
  }

  /** The window is the shortest stretch that reaches the limit; the piece is as much of it as should be cut off. */
  ghost predicate FillsWindow(piece: string, text: string, maxSize: nat) {
    exists end :: 0 < end <= |text| && EndsWindow(text, maxSize, end)
      && if end == |text| then piece == text else IsCutOff(piece, text[..end])
  }

  predicate EndsWindow(text: string, maxSize: nat, end: nat)
    requires 0 < end <= |text|
  {
    Bytes(text[..end]) >= maxSize && Bytes(text[..end - 1]) < maxSize
  }

  ghost predicate IsCutOff(piece: string, window: string) {
    && piece <= window
    && (forall k: nat :: k < |SEPARATORS| && IsPreferred(window, SEPARATORS, k) ==>
          Cuts(window, SEPARATORS[k], |piece|))
    && ((forall k, i :: 0 <= k < |SEPARATORS| ==> !OccursAt(window, SEPARATORS[k], i)) ==> piece == window)
  }

  lemma {:induction false} PiecesAreWellCut(text: string, maxSize: nat)
    requires maxSize > 0
    ensures IsWellCut(Pieces(text, maxSize), text, maxSize)
    decreases |text|
  {
    hide Bytes, CutAfter, WindowEnd, FillsWindow, IsCutOff;
    if text != "" {
      var end := WindowEnd(text, maxSize);
      var pieces := Pieces(text, maxSize);
      if end == |text| {
        assert text[..end] == text && pieces == [text];
        if Bytes(text) >= maxSize {
          WholeFills(text, maxSize);
        }
      } else {
        var cut := CutAfter(text[..end], SEPARATORS);
        FirstFills(text, maxSize);
        assert text[..end][..cut] == text[..cut];
        assert pieces[0] == text[..cut] && pieces[1..] == Pieces(text[cut..], maxSize);
        PiecesAreWellCut(text[cut..], maxSize);
      }
    }
  }

  lemma WholeFills(text: string, maxSize: nat)
    requires maxSize > 0 && text != "" && WindowEnd(text, maxSize) == |text| && Bytes(text) >= maxSize
    ensures FillsWindow(text, text, maxSize)
  {
    hide Bytes;
    assert text[..|text|] == text;
    assert EndsWindow(text, maxSize, |text|);
  }

  lemma FirstFills(text: string, maxSize: nat)
    requires maxSize > 0 && text != "" && WindowEnd(text, maxSize) < |text|
    ensures var end := WindowEnd(text, maxSize);
      && Bytes(text) >= maxSize
      && FillsWindow(text[..CutAfter(text[..end], SEPARATORS)], text, maxSize)
  {
    hide Bytes, CutAfter, IsPreferred, Cuts;
    var end := WindowEnd(text, maxSize);
    assert text == text[..end] + text[end..];
    BytesConcat(text[..end], text[end..]);
    assert EndsWindow(text, maxSize, end);
    var cut := CutAfter(text[..end], SEPARATORS);
    assert text[..cut] == text[..end][..cut];
    assert IsCutOff(text[..cut], text[..end]);
  }

  lemma PiecesStep(text: string, start: nat, maxSize: nat)
    requires maxSize > 0 && start < |text|
    ensures var rest := text[start..];
      var end := WindowEnd(rest, maxSize);
      if end == |rest| then Pieces(rest, maxSize) == [rest]
      else
        var cut := CutAfter(rest[..end], SEPARATORS);
        && 0 < cut && start + cut <= |text|
        && Pieces(rest, maxSize) == [rest[..cut]] + Pieces(text[start + cut..], maxSize)
  {
    hide CutAfter, WindowEnd;
    var rest := text[start..];
    FirstPiece(rest, maxSize);
    hide Pieces;
    var end := WindowEnd(rest, maxSize);
    if end < |rest| {
      var cut := CutAfter(rest[..end], SEPARATORS);
      assert rest[cut..] == text[start + cut..];
    }
  }

  lemma FirstPiece(text: string, maxSize: nat)
    requires maxSize > 0 && text != ""
    ensures var end := WindowEnd(text, maxSize);
      if end == |text| then Pieces(text, maxSize) == [text]
      else
        var cut := CutAfter(text[..end], SEPARATORS);
        0 < cut <= |text| && Pieces(text, maxSize) == [text[..cut]] + Pieces(text[cut..], maxSize)
  {
    hide CutAfter, WindowEnd;
  }

  lemma NoPieces(maxSize: nat)
    requires maxSize > 0
    ensures Pieces("", maxSize) == []
  {
  }

  lemma ConcatPrepend(a: string, rest: seq<string>)
    ensures Concat([a] + rest) == a + Concat(rest)
    ensures Concat([a]) == a
  {
    assert ([a] + rest)[1..] == rest && [a] + [] == [a];
    assert a + Concat([]) == a;
  }

  /** The pieces put together again are the text. */
  lemma {:induction false} PiecesAreTheText(text: string, maxSize: nat)
    requires maxSize > 0
    ensures Concat(Pieces(text, maxSize)) == text
  {
    hide CutAfter, WindowEnd, Pieces, Concat;
    if text == "" {
      NoPieces(maxSize);
      assert Concat([]) == "" by { ConcatNothing(); }
    } else {
      assert text[0..] == text;
      PiecesStep(text, 0, maxSize);
      var end := WindowEnd(text, maxSize);
      ConcatPrepend(text, []);
      if end < |text| {
        var cut := CutAfter(text[..end], SEPARATORS);
        PiecesAreTheText(text[cut..], maxSize);
        ConcatPrepend(text[..cut], Pieces(text[cut..], maxSize));
        assert text[..end][..cut] + text[cut..] == text;
        assert text[..cut] + text[cut..] == text;
      }
    }
  }

  lemma ConcatNothing()
    ensures Concat([]) == ""
  {
  }

  /** No piece is longer than the limit by more than the rest of one character. */
  lemma {:induction false} PiecesAreBounded(text: string, maxSize: nat)
    requires maxSize > 0
    ensures forall p :: p in Pieces(text, maxSize) ==> Bytes(p) <= maxSize + 3
  {
    hide CutAfter, WindowEnd, Bytes;
    if text != "" {
      var end := WindowEnd(text, maxSize);
      WindowIsBounded(text, maxSize);
      if end == |text| {
        assert text[..end] == text;
      } else {
        var cut := CutAfter(text[..end], SEPARATORS);
        assert text[..end] == text[..cut] + text[cut..end];
        BytesConcat(text[..cut], text[cut..end]);
        PiecesAreBounded(text[cut..], maxSize);
      }
    }
  }

  /** Cut a long text, window by window. */
  method SplitLongText(text: string, maxSize: nat) returns (result: seq<string>)
    requires maxSize > 0
    ensures result == Pieces(text, maxSize)
  {
    hide CutAfter, Bytes, Pieces, WindowEnd;
    result := [];
    var start := 0;
    assert text[0..] == text;
    while start < |text|
      invariant 0 <= start <= |text|
      invariant Pieces(text, maxSize) == result + Pieces(text[start..], maxSize)
      decreases |text| - start
    {
      PiecesStep(text, start, maxSize);
      var end := AdvanceToBoundary(text[start..], maxSize);
      if start + end >= |text| {
        result := result + [text[start..]];
        return;
      }
      var cut := CutAfter(text[start..][..end], SEPARATORS);
      result := result + [text[start..][..cut]];
      start := start + cut;
    }
    NoPieces(maxSize);
    assert text[start..] == "" && result + [] == result;
  }

  /** Step over whole characters until the limit is reached. */
  method AdvanceToBoundary(text: string, maxSize: nat) returns (end: nat)
    requires maxSize > 0
    ensures end == WindowEnd(text, maxSize)
  {
    var size := 0;
    end := 0;
    assert text[0..] == text;
    while end < |text| && size < maxSize
      invariant 0 <= end <= |text|
      invariant WindowEnd(text, maxSize) == end + if size < maxSize then WindowEnd(text[end..], maxSize - size) else 0
    {
      hide Bytes;
      assert text[end..][1..] == text[end + 1..];
      size := size + Width(text[end]);
      end := end + 1;
    }
  }

  // ---- Paragraphs ------------------------------------------------------------------------------------

  const BREAK: string := "\n\n"

  /** The first place from `from` on where a paragraph break occurs, or the end. */
  function FirstBreak(s: string, from: nat): (i: nat)
    requires from <= |s|
    ensures from <= i <= |s|
    ensures i < |s| ==> OccursAt(s, BREAK, i)
    ensures forall j :: from <= j < i ==> !OccursAt(s, BREAK, j)
    decreases |s| - from
  {
    if from == |s| || OccursAt(s, BREAK, from) then from else FirstBreak(s, from + 1)
  }

  /** The stretches between paragraph breaks. */
  function SplitParagraphs(s: string): (ps: seq<string>)
    ensures ps != []
    decreases |s|
  {
    var i := FirstBreak(s, 0);
    if i == |s| then [s] else [s[..i]] + SplitParagraphs(s[i + 2..])
  }

  function JoinParagraphs(ps: seq<string>): string {
    if ps == [] then "" else if |ps| == 1 then ps[0] else ps[0] + BREAK + JoinParagraphs(ps[1..])
  }

  /** Splitting at the breaks and joining with breaks is the identity, and no break is left in a paragraph. */
  lemma {:induction false} ParagraphsRoundTrip(s: string)
    ensures JoinParagraphs(SplitParagraphs(s)) == s
    ensures forall p, j :: p in SplitParagraphs(s) ==> !OccursAt(p, BREAK, j)
    decreases |s|
  {
    hide FirstBreak;
    var i := FirstBreak(s, 0);
    if i < |s| {
      ParagraphsRoundTrip(s[i + 2..]);
      assert s[..i] + BREAK + s[i + 2..] == s;
      assert forall j :: OccursAt(s[..i], BREAK, j) ==> OccursAt(s, BREAK, j);
    }
  }

  /** Paragraphs that are too long are cut. */
  function CutLong(ps: seq<string>, maxSize: nat): seq<string>
    requires maxSize > 0
  {
    if ps == [] then []
    else (if Bytes(ps[0]) > maxSize then Pieces(ps[0], maxSize) else [ps[0]]) + CutLong(ps[1..], maxSize)
  }

  function DropBlank(ps: seq<string>): (r: seq<string>)
    ensures forall p :: p in r ==> p in ps && !IsBlank(p)
  {
    if ps == [] then []
    else (if IsBlank(ps[0]) then [] else [ps[0]]) + DropBlank(ps[1..])
  }

  /** The stretches of text that are packed into chunks. */
  function Prepared(content: string, maxSize: nat): (r: seq<string>)
    requires maxSize > 0
    ensures forall p :: p in r ==> !IsBlank(p)
  {
    DropBlank(CutLong(SplitParagraphs(content), maxSize))
  }

  lemma {:induction false} JoinedInk(ps: seq<string>)
    requires ps != []
    ensures Ink(JoinParagraphs(ps)) == Ink(Concat(ps))
  {
    hide Ink;
    InkConcat(ps[0], Concat(ps[1..]));
    if |ps| == 1 {
      assert ps[0] + "" == ps[0];
    } else {
      JoinedInk(ps[1..]);
      var rest := JoinParagraphs(ps[1..]);
      InkConcat(ps[0] + BREAK, rest);
      InkConcat(ps[0], BREAK);
      BlankHasNoInk(BREAK);
    }
  }

  lemma {:induction false} CutLongInk(ps: seq<string>, maxSize: nat)
    requires maxSize > 0
    ensures Concat(CutLong(ps, maxSize)) == Concat(ps)
  {
    hide Bytes, Pieces;
    if ps != [] {
      var head := if Bytes(ps[0]) > maxSize then Pieces(ps[0], maxSize) else [ps[0]];
      PiecesAreTheText(ps[0], maxSize);
      assert Concat([ps[0]]) == ps[0] + Concat([]);
      ConcatAppend(head, CutLong(ps[1..], maxSize));
      CutLongInk(ps[1..], maxSize);
    }
  }

  lemma {:induction false} CutLongIsBounded(ps: seq<string>, maxSize: nat)
    requires maxSize > 0
    ensures forall p :: p in CutLong(ps, maxSize) ==> Bytes(p) <= maxSize + 3
  {
    hide Bytes, Pieces;
    if ps != [] {
      PiecesAreBounded(ps[0], maxSize);
      CutLongIsBounded(ps[1..], maxSize);
    }
  }

  lemma {:induction false} DropBlankInk(ps: seq<string>)
    ensures Ink(Concat(DropBlank(ps))) == Ink(Concat(ps))
  {
    hide Ink, IsBlank;
    if ps != [] {
      DropBlankInk(ps[1..]);
      BlankHasNoInk(ps[0]);
      InkConcat(ps[0], Concat(ps[1..]));
      if !IsBlank(ps[0]) {
        assert DropBlank(ps) == [ps[0]] + DropBlank(ps[1..]);
        InkConcat(ps[0], Concat(DropBlank(ps[1..])));
      } else {
        assert DropBlank(ps) == DropBlank(ps[1..]);
        assert "" + Ink(Concat(ps[1..])) == Ink(Concat(ps[1..]));
      }
    }
  }

  lemma PreparedKeepsInk(content: string, maxSize: nat)
    requires maxSize > 0
    ensures Ink(Concat(Prepared(content, maxSize))) == Ink(content)
    ensures forall p :: p in Prepared(content, maxSize) ==> Bytes(p) <= maxSize + 3
  {
    hide Ink, Bytes, CutLong, IsBlank;
    var ps := SplitParagraphs(content);
    ParagraphsRoundTrip(content);
    JoinedInk(ps);
    CutLongInk(ps, maxSize);
    CutLongIsBounded(ps, maxSize);
    DropBlankInk(CutLong(ps, maxSize));
  }

  // ---- Stretches of a text in order ------------------------------------------------------------------

  /** The stretches occur in the text one after the other, with only white space before, between and behind them. */
  ghost predicate Threads(ps: seq<string>, s: string)
    decreases |ps|, 1
  {
    if ps == [] then IsBlank(s) else exists i: nat :: ThreadsFrom(ps, s, i)
  }

  ghost predicate ThreadsFrom(ps: seq<string>, s: string, i: nat)
    requires ps != []
    decreases |ps|, 0
  {
    && i + |ps[0]| <= |s| && IsBlank(s[..i]) && s[i..i + |ps[0]|] == ps[0]
    && Threads(ps[1..], s[i + |ps[0]|..])
  }

  lemma ThreadBehindBlank(b: string, ps: seq<string>, s: string)
    requires IsBlank(b) && Threads(ps, s)
    ensures Threads(ps, b + s)
  {
    hide IsWhitespace;
    if ps != [] {
      var i: nat :| ThreadsFrom(ps, s, i);
      var n := |ps[0]|;
      assert (b + s)[..|b| + i] == b + s[..i];
      assert (b + s)[|b| + i..|b| + i + n] == s[i..i + n];
      assert (b + s)[|b| + i + n..] == s[i + n..];
      assert ThreadsFrom(ps, b + s, |b| + i);
    }
  }

  lemma {:induction false} ThreadsAppend(ps: seq<string>, a: string, qs: seq<string>, b: string)
    requires Threads(ps, a) && Threads(qs, b)
    ensures Threads(ps + qs, a + b)
    decreases |ps|
  {
    hide IsWhitespace;
    if ps == [] {
      assert ps + qs == qs;
      ThreadBehindBlank(a, qs, b);
    } else {
      var i: nat :| ThreadsFrom(ps, a, i);
      var n := |ps[0]|;
      ThreadsAppend(ps[1..], a[i + n..], qs, b);
      assert (ps + qs)[1..] == ps[1..] + qs;
      assert (a + b)[..i] == a[..i] && (a + b)[i..i + n] == a[i..i + n] && (a + b)[i + n..] == a[i + n..] + b;
      assert ThreadsFrom(ps + qs, a + b, i);
    }
  }

  lemma ThreadsItself(s: string)
    ensures Threads([s], s)
  {
    assert ThreadsFrom([s], s, 0) by {
      assert s[0..|s|] == s;
    }
  }

  lemma {:induction false} DropBlankThreads(ps: seq<string>)
    ensures Threads(DropBlank(ps), Concat(ps))
  {
    hide IsBlank, Threads;
    if ps == [] {
      assert Threads([], "") by { NothingThreads(); }
    } else {
      DropBlankThreads(ps[1..]);
      if IsBlank(ps[0]) {
        assert DropBlank(ps) == DropBlank(ps[1..]);
        ThreadBehindBlank(ps[0], DropBlank(ps[1..]), Concat(ps[1..]));
      } else {
        assert DropBlank(ps) == [ps[0]] + DropBlank(ps[1..]);
        ThreadsItself(ps[0]);
        ThreadsAppend([ps[0]], ps[0], DropBlank(ps[1..]), Concat(ps[1..]));
      }
    }
  }

  lemma NothingThreads()
    ensures Threads([], "")
  {
  }

  lemma {:induction false} DropBlankAppend(a: seq<string>, b: seq<string>)
    ensures DropBlank(a + b) == DropBlank(a) + DropBlank(b)
  {
    hide IsBlank;
    if a == [] {
      assert a + b == b;
    } else {
      assert (a + b)[1..] == a[1..] + b;
      DropBlankAppend(a[1..], b);
    }
  }

  /** What is packed are stretches of the text, in order, and nothing between them is lost but white space. */
  lemma {:induction false} PreparedThreads(ps: seq<string>, maxSize: nat)
    requires maxSize > 0 && ps != []
    ensures Threads(DropBlank(CutLong(ps, maxSize)), JoinParagraphs(ps))
  {
    hide IsBlank, Threads, Bytes, Pieces;
    var head := if Bytes(ps[0]) > maxSize then Pieces(ps[0], maxSize) else [ps[0]];
    PiecesAreTheText(ps[0], maxSize);
    assert Concat([ps[0]]) == ps[0] + Concat([]) == ps[0];
    DropBlankThreads(head);
    if |ps| == 1 {
      assert CutLong(ps, maxSize) == head + CutLong(ps[1..], maxSize) && ps[1..] == [] && head + [] == head;
    } else {
      var rest := DropBlank(CutLong(ps[1..], maxSize));
      PreparedThreads(ps[1..], maxSize);
      assert IsBlank(BREAK) by { BreakIsBlank(); }
      ThreadBehindBlank(BREAK, rest, JoinParagraphs(ps[1..]));
      ThreadsAppend(DropBlank(head), ps[0], rest, BREAK + JoinParagraphs(ps[1..]));
      DropBlankAppend(head, CutLong(ps[1..], maxSize));
      assert ps[0] + BREAK + JoinParagraphs(ps[1..]) == ps[0] + (BREAK + JoinParagraphs(ps[1..]));
    }
  }

  lemma BreakIsBlank()
    ensures IsBlank(BREAK)
  {
  }

  /** A paragraph that is not blank and not too long is kept in one piece. */
  lemma {:induction false} FittingParagraphIsKept(ps: seq<string>, maxSize: nat, p: string)
    requires maxSize > 0 && p in ps && Bytes(p) <= maxSize && !IsBlank(p)
    ensures p in DropBlank(CutLong(ps, maxSize))
  {
    hide IsBlank, Bytes, Pieces;
    var head := if Bytes(ps[0]) > maxSize then Pieces(ps[0], maxSize) else [ps[0]];
    DropBlankAppend(head, CutLong(ps[1..], maxSize));
    if p != ps[0] {
      FittingParagraphIsKept(ps[1..], maxSize, p);
    } else {
      assert DropBlank([p])[0] == p;
    }
  }

  // ---- Packing paragraphs into chunks --------------------------------------------------------------

  function Flatten(groups: seq<seq<string>>): seq<string> {
    if groups == [] then [] else groups[0] + Flatten(groups[1..])
  }

  /** Whether one more paragraph still fits behind the ones already joined. */
  predicate Fits(open: seq<string>, p: string, maxSize: nat) {
    Bytes(JoinParagraphs(open)) + Bytes(p) + 2 <= maxSize
  }

  /** It fits exactly when the joined text with it stays within the limit. */
  lemma FitsExactly(open: seq<string>, p: string, maxSize: nat)
    requires open != []
    ensures Fits(open, p, maxSize) <==> Bytes(JoinParagraphs(open + [p])) <= maxSize
  {
    hide Bytes;
    JoinAppend(open, p);
    BytesConcat(JoinParagraphs(open) + BREAK, p);
    BytesConcat(JoinParagraphs(open), BREAK);
    BreakBytes();
  }

  ghost predicate IsGroup(g: seq<string>, maxSize: nat) {
    && g != []
    && forall k :: 1 <= k < |g| ==> Fits(g[..k], g[k], maxSize)
  }

  /** A partition into runs, each of which fits, and none of which could have taken one more. */
  ghost predicate IsPacking(groups: seq<seq<string>>, paras: seq<string>, maxSize: nat) {
    && Flatten(groups) == paras
    && (forall g: seq<string> :: g in groups ==> IsGroup(g, maxSize))
    && (forall i, j :: 0 <= i && j == i + 1 && j < |groups| ==> Closed(groups[i], groups[j], maxSize))
  }

  /** The first paragraph of the next run no longer fitted. */
  ghost predicate Closed(g: seq<string>, next: seq<string>, maxSize: nat) {
    next != [] && !Fits(g, next[0], maxSize)
  }

  function Pack(open: seq<string>, paras: seq<string>, maxSize: nat): seq<seq<string>>
    decreases |paras|
  {
    if paras == [] then (if open == [] then [] else [open])
    else if open != [] && !Fits(open, paras[0], maxSize) then [open] + Pack([paras[0]], paras[1..], maxSize)
    else Pack(open + [paras[0]], paras[1..], maxSize)
  }

  lemma PrependRun(g: seq<string>, rest: seq<seq<string>>, paras: seq<string>, maxSize: nat)
    requires IsGroup(g, maxSize) && IsPacking(rest, paras, maxSize)
    requires rest != [] ==> Closed(g, rest[0], maxSize)
    ensures IsPacking([g] + rest, g + paras, maxSize)
  {
    hide IsGroup, Closed;
    var groups := [g] + rest;
    assert groups[1..] == rest;
  }

  lemma ExtendGroup(open: seq<string>, p: string, maxSize: nat)
    requires open == [] || (IsGroup(open, maxSize) && Fits(open, p, maxSize))
    ensures IsGroup(open + [p], maxSize)
  {
    hide Fits;
    var g := open + [p];
    assert forall k :: 1 <= k <= |open| ==> g[..k] == open[..k];
    if open != [] {
      assert open[..|open|] == open;
    }
  }

  /** Filling a buffer greedily yields a packing, whose first run begins with what was in the buffer. */
  lemma {:induction false} PackIsPacking(open: seq<string>, paras: seq<string>, maxSize: nat)
    requires open == [] || IsGroup(open, maxSize)
    ensures IsPacking(Pack(open, paras, maxSize), open + paras, maxSize)
    ensures open != [] ==> Pack(open, paras, maxSize) != [] && open <= Pack(open, paras, maxSize)[0]
    decreases |paras|
  {
    hide Fits, IsGroup, IsPacking;
    if paras == [] {
      assert open + [] == open;
      NothingIsPacked(maxSize);
      if open != [] {
        PrependRun(open, [], [], maxSize);
        assert [open] + [] == [open];
      }
    } else {
      var p := paras[0];
      if open != [] && !Fits(open, p, maxSize) {
        ExtendGroup([], p, maxSize);
        assert [] + [p] == [p];
        PackIsPacking([p], paras[1..], maxSize);
        PrependRun(open, Pack([p], paras[1..], maxSize), [p] + paras[1..], maxSize);
        assert open + paras == open + ([p] + paras[1..]);
      } else {
        ExtendGroup(open, p, maxSize);
        PackIsPacking(open + [p], paras[1..], maxSize);
        assert open + [p] + paras[1..] == open + paras;
        assert open <= open + [p];
      }
    }
  }

  lemma NothingIsPacked(maxSize: nat)
    ensures IsPacking([], [], maxSize)
  {
  }

  lemma {:induction false} FlattenStarts(groups: seq<seq<string>>)
    requires groups != [] && groups[0] != []
    ensures Flatten(groups) != [] && groups[0] <= Flatten(groups)
    ensures Flatten(groups)[|groups[0]|..] == Flatten(groups[1..])
  {
  }

  /** The first run of one packing is not shorter than the first run of another. */
  lemma FirstRunIsMaximal(a: seq<seq<string>>, b: seq<seq<string>>, paras: seq<string>, maxSize: nat)
    requires IsPacking(a, paras, maxSize) && IsPacking(b, paras, maxSize) && a != [] && b != []
    ensures |a[0]| >= |b[0]|
  {
    hide Fits, IsGroup;
    assert a[0] in a && b[0] in b;
    assert a[0] != [] && b[0] != [] by { GroupIsNonEmpty(a[0], maxSize); GroupIsNonEmpty(b[0], maxSize); }
    FlattenStarts(a);
    FlattenStarts(b);
    var n := |a[0]|;
    if n < |b[0]| {
      assert a[1..] != [];
      assert a[1] in a;
      GroupIsNonEmpty(a[1], maxSize);
      FlattenStarts(a[1..]);
      assert b[0][..n] == a[0] && b[0][n] == paras[n] == a[1][0];
      GroupFits(b[0], n, maxSize);
    }
  }

  lemma GroupIsNonEmpty(g: seq<string>, maxSize: nat)
    requires IsGroup(g, maxSize)
    ensures g != []
  {
  }

  lemma GroupFits(g: seq<string>, k: nat, maxSize: nat)
    requires IsGroup(g, maxSize) && 1 <= k < |g|
    ensures Fits(g[..k], g[k], maxSize)
  {
  }

  /** There is only one way to pack a list of paragraphs greedily. */
  lemma {:induction false} PackingIsUnique(a: seq<seq<string>>, b: seq<seq<string>>, paras: seq<string>, maxSize: nat)
    requires IsPacking(a, paras, maxSize) && IsPacking(b, paras, maxSize)
    ensures a == b
    decreases |a|
  {
    hide Fits, IsGroup;
    if a == [] || b == [] {
      if a != [] {
        assert a[0] in a;
        GroupIsNonEmpty(a[0], maxSize);
        FlattenStarts(a);
      }
      if b != [] {
        assert b[0] in b;
        GroupIsNonEmpty(b[0], maxSize);
        FlattenStarts(b);
      }
    } else {
      FirstRunIsMaximal(a, b, paras, maxSize);
      FirstRunIsMaximal(b, a, paras, maxSize);
      assert a[0] in a && b[0] in b;
      GroupIsNonEmpty(a[0], maxSize);
      GroupIsNonEmpty(b[0], maxSize);
      FlattenStarts(a);
      FlattenStarts(b);
      assert a[0] == b[0];
      PackingIsUnique(a[1..], b[1..], paras[|a[0]|..], maxSize);
      assert a == [a[0]] + a[1..] && b == [b[0]] + b[1..];
    }
  }

  /** A run is at most the limit long, unless it is a single paragraph. */
  lemma GroupIsBounded(g: seq<string>, maxSize: nat)
    requires IsGroup(g, maxSize) && forall p :: p in g ==> Bytes(p) <= maxSize + 3
    ensures Bytes(JoinParagraphs(g)) <= maxSize + 3
  {
    hide Bytes;
    if |g| > 1 {
      var k := |g| - 1;
      assert Fits(g[..k], g[k], maxSize);
      assert g == g[..k] + [g[k]];
      JoinAppend(g[..k], g[k]);
      BytesConcat(JoinParagraphs(g[..k]) + BREAK, g[k]);
      BytesConcat(JoinParagraphs(g[..k]), BREAK);
      assert Bytes(BREAK) == 2 by { BreakBytes(); }
    }
  }

  lemma BreakBytes()
    ensures Bytes(BREAK) == 2
  {
    assert BREAK[1..] == "\n";
    assert "\n"[1..] == "";
  }

  lemma {:induction false} JoinAppend(g: seq<string>, p: string)
    requires g != []
    ensures JoinParagraphs(g + [p]) == JoinParagraphs(g) + BREAK + p
  {
    assert (g + [p])[1..] == g[1..] + [p];
    if |g| == 1 {
      assert JoinParagraphs([p]) == p;
    } else {
      JoinAppend(g[1..], p);
    }
  }

  // ---- Chunks ------------------------------------------------------------------------------------------

  function Trimmed(groups: seq<seq<string>>): (r: seq<string>)
    ensures |r| == |groups| && forall i :: 0 <= i < |r| ==> r[i] == Trim(JoinParagraphs(groups[i]))
  {
    if groups == [] then [] else [Trim(JoinParagraphs(groups[0]))] + Trimmed(groups[1..])
  }

  /** The chunks of a document. */
  function Chunks(content: string, maxSize: nat): seq<string>
    requires maxSize > 0
  {
    Trimmed(Pack([], Prepared(content, maxSize), maxSize))
  }

  /** The chunks are determined by what they have to be: the trimmed runs of the greedy packing. */
  lemma ChunksAreTheGreedyPacking(content: string, maxSize: nat, groups: seq<seq<string>>)
    requires maxSize > 0
    ensures IsPacking(groups, Prepared(content, maxSize), maxSize) ==> Chunks(content, maxSize) == Trimmed(groups)
    ensures exists g :: IsPacking(g, Prepared(content, maxSize), maxSize)
  {
    hide Prepared, IsPacking, Trimmed;
    var paras := Prepared(content, maxSize);
    PackIsPacking([], paras, maxSize);
    assert [] + paras == paras;
    if IsPacking(groups, paras, maxSize) {
      PackingIsUnique(groups, Pack([], paras, maxSize), paras, maxSize);
    }
  }

  lemma {:induction false} TrimmedInk(groups: seq<seq<string>>)
    requires forall g: seq<string> :: g in groups ==> g != []
    ensures Ink(Concat(Trimmed(groups))) == Ink(Concat(Flatten(groups)))
  {
    hide Ink, Trim, JoinParagraphs;
    if groups != [] {
      assert forall g: seq<string> :: g in groups[1..] ==> g in groups;
      assert groups[0] in groups;
      var chunk := Trim(JoinParagraphs(groups[0]));
      TrimKeepsInk(JoinParagraphs(groups[0]));
      JoinedInk(groups[0]);
      TrimmedInk(groups[1..]);
      InkConcat(chunk, Concat(Trimmed(groups[1..])));
      ConcatAppend(groups[0], Flatten(groups[1..]));
      InkConcat(Concat(groups[0]), Concat(Flatten(groups[1..])));
    }
  }

  /** Chunking loses and reorders nothing but white space. */
  lemma ChunkingIsLossless(content: string, maxSize: nat)
    requires maxSize > 0
    ensures Ink(Concat(Chunks(content, maxSize))) == Ink(content)
  {
    hide Ink, Prepared, IsGroup, Pack, Trimmed;
    var paras := Prepared(content, maxSize);
    PackIsPacking([], paras, maxSize);
    assert [] + paras == paras;
    var groups := Pack([], paras, maxSize);
    forall g: seq<string> | g in groups ensures g != [] {
      GroupIsNonEmpty(g, maxSize);
    }
    TrimmedInk(groups);
    PreparedKeepsInk(content, maxSize);
  }

  /**
   * The runs consist of stretches of the document, in order and with nothing but white space around them, and each
   * chunk is one run, joined, without the white space at its ends. So white space inside a stretch is kept as it is.
   */
  ghost predicate KeepsTheText(chunks: seq<string>, groups: seq<seq<string>>, content: string) {
    && Threads(Flatten(groups), content)
    && |chunks| == |groups| && forall i :: 0 <= i < |chunks| ==> IsTrimmedOf(chunks[i], JoinParagraphs(groups[i]))
  }

  lemma ChunksKeepTheText(content: string, maxSize: nat) returns (groups: seq<seq<string>>)
    requires maxSize > 0
    ensures KeepsTheText(Chunks(content, maxSize), groups, content)
    ensures IsPacking(groups, Flatten(groups), maxSize)
    ensures forall p :: p in SplitParagraphs(content) && Bytes(p) <= maxSize && !IsBlank(p) ==> p in Flatten(groups)
  {
    hide IsBlank, Threads, Bytes, Pack, CutLong, DropBlank, IsTrimmedOf, JoinParagraphs, SplitParagraphs, Trim, IsGroup;
    var ps, paras := SplitParagraphs(content), Prepared(content, maxSize);
    ParagraphsRoundTrip(content);
    PreparedThreads(ps, maxSize);
    PackIsPacking([], paras, maxSize);
    assert [] + paras == paras;
    groups := Pack([], paras, maxSize);
    forall p | p in ps && Bytes(p) <= maxSize && !IsBlank(p) ensures p in paras {
      FittingParagraphIsKept(ps, maxSize, p);
    }
    forall i | 0 <= i < |groups| ensures IsTrimmedOf(Chunks(content, maxSize)[i], JoinParagraphs(groups[i])) {
      TrimIsAStretch(JoinParagraphs(groups[i]));
    }
  }

  lemma {:induction false} GroupsHoldOnlyParagraphs(groups: seq<seq<string>>, g: seq<string>, p: string)
    requires g in groups && p in g
    ensures p in Flatten(groups)
  {
    if g != groups[0] {
      GroupsHoldOnlyParagraphs(groups[1..], g, p);
    }
  }

  /** Every chunk is bounded, not blank, and has no white space at its ends. */
  lemma ChunksAreBounded(content: string, maxSize: nat, i: nat)
    requires maxSize > 0 && i < |Chunks(content, maxSize)|
    ensures var c := Chunks(content, maxSize)[i];
      && Bytes(c) <= maxSize + 3
      && c != "" && !IsWhitespace(c[0]) && !IsWhitespace(c[|c| - 1])
  {
    hide Ink, Prepared, IsGroup, Pack, Bytes, Trim, IsBlank, IsWhitespace, JoinParagraphs;
    var paras := Prepared(content, maxSize);
    PackIsPacking([], paras, maxSize);
    assert [] + paras == paras;
    var groups := Pack([], paras, maxSize);
    var g := groups[i];
    assert g in groups;
    forall p | p in g ensures p in paras {
      GroupsHoldOnlyParagraphs(groups, g, p);
    }
    PreparedKeepsInk(content, maxSize);
    GroupIsNonEmpty(g, maxSize);
    GroupIsBounded(g, maxSize);
    TrimKeepsInk(JoinParagraphs(g));
    JoinedIsNotBlank(g);
  }

  lemma JoinedIsNotBlank(g: seq<string>)
    requires g != [] && !IsBlank(g[0])
    ensures !IsBlank(JoinParagraphs(g)) && JoinParagraphs(g) != ""
  {
    var c :| c in g[0] && !IsWhitespace(c);
    assert c in JoinParagraphs(g);
  }

  /** The stretches of text to be packed: each paragraph, or the pieces of one that is too long. */
  method PrepareParagraphs(content: string, maxSize: nat) returns (paras: seq<string>)
    requires maxSize > 0
    ensures paras == Prepared(content, maxSize)
  {
    hide Bytes, SplitParagraphs, DropBlank, Pieces;
    var ps := SplitParagraphs(content);
    var cut: seq<string> := [];
    var k := 0;
    assert ps[0..] == ps;
    while k < |ps|
      invariant 0 <= k <= |ps|
      invariant CutLong(ps, maxSize) == cut + CutLong(ps[k..], maxSize)
    {
      assert ps[k..][1..] == ps[k + 1..];
      if Bytes(ps[k]) > maxSize {
        var pieces := SplitLongText(ps[k], maxSize);
        cut := cut + pieces;
      } else {
        cut := cut + [ps[k]];
      }
      k := k + 1;
    }
    assert ps[k..] == [] && cut + [] == cut;
    paras := DropBlank(cut);
  }

  lemma PackStep(open: seq<string>, paras: seq<string>, maxSize: nat)
    requires paras != []
    ensures var p, rest := paras[0], paras[1..];
      if open == [] || Fits(open, p, maxSize) then Pack(open, paras, maxSize) == Pack(open + [p], rest, maxSize)
      else Trimmed(Pack(open, paras, maxSize)) == [Trim(JoinParagraphs(open))] + Trimmed(Pack([p], rest, maxSize))
  {
    hide Fits, Trim, JoinParagraphs;
    if open != [] && !Fits(open, paras[0], maxSize) {
      var rest := Pack([paras[0]], paras[1..], maxSize);
      assert ([open] + rest)[1..] == rest;
    }
  }

  lemma PackEnds(open: seq<string>, maxSize: nat)
    ensures Trimmed(Pack(open, [], maxSize)) == if open == [] then [] else [Trim(JoinParagraphs(open))]
  {
  }

  lemma JoinNext(open: seq<string>, p: string)
    requires p != ""
    ensures JoinParagraphs(open + [p]) == (if open == [] then "" else JoinParagraphs(open) + BREAK) + p
    ensures JoinParagraphs(open + [p]) != "" && JoinParagraphs([]) == ""
  {
    if open != [] {
      JoinAppend(open, p);
    } else {
      assert [] + [p] == [p];
    }
  }

  /** Split into paragraphs, cut the long ones, drop the blank ones, and fill a buffer chunk by chunk. */
  method ChunkContent(content: string, maxSize: nat) returns (chunks: seq<string>)
    requires maxSize > 0
    ensures chunks == Chunks(content, maxSize)
  {
    hide Bytes, Trim, IsBlank, JoinParagraphs, SplitParagraphs, Pack, Trimmed, Prepared;
    var paras := PrepareParagraphs(content, maxSize);
    chunks := [];
    var buffer := "";
    ghost var open: seq<string> := [];
    var k := 0;
    JoinNext([], "x");
    assert paras[0..] == paras;
    while k < |paras|
      invariant 0 <= k <= |paras| && buffer == JoinParagraphs(open) && (buffer == "" <==> open == [])
      invariant open != [] ==> !IsBlank(open[0])
      invariant Chunks(content, maxSize) == chunks + Trimmed(Pack(open, paras[k..], maxSize))
    {
      var para := paras[k];
      ParagraphIsNotBlank(para, paras);
      PackStep(open, paras[k..], maxSize);
      assert paras[k..][1..] == paras[k + 1..] && paras[k..][0] == para;
      if Bytes(buffer) + Bytes(para) + 2 > maxSize && buffer != "" {
        chunks := chunks + [Trim(buffer)];
        buffer := "";
        open := [];
      }
      JoinNext(open, para);
      if buffer != "" {
        buffer := buffer + BREAK;
      }
      buffer := buffer + para;
      open := open + [para];
      assert open == [para] || [] + open[..|open| - 1] + [para] == open;
      k := k + 1;
    }
    assert paras[k..] == [];
    PackEnds(open, maxSize);
    if open != [] {
      JoinedIsNotBlank(open);
    }
    TrimKeepsInk(buffer);
    if Trim(buffer) != "" {
      chunks := chunks + [Trim(buffer)];
    }
  }

  lemma ParagraphIsNotBlank(p: string, paras: seq<string>)
    requires p in paras && forall q :: q in paras ==> !IsBlank(q)
    ensures !IsBlank(p) && p != ""
  {
  }

  // ---- Accepting a document ----------------------------------------------------------------------------

  const MAX_DOCUMENT_BYTES: nat := 1_000_000
  const MIN_CHUNK_SIZE: nat := 50

  datatype Digested = EmptyContent | ContentTooLong | ChunkSizeTooSmall | Chunked(chunks: seq<string>)

  /** Check a document and split it. An accepted document yields at least one chunk and keeps its text. */
  method Digest(content: string, maxChunkSize: nat) returns (r: Digested)
    ensures r.EmptyContent? <==> IsBlank(content)
    ensures r.Chunked? <==> !IsBlank(content) && Bytes(content) <= MAX_DOCUMENT_BYTES && maxChunkSize >= MIN_CHUNK_SIZE
    ensures r.ContentTooLong? <==> !IsBlank(content) && Bytes(content) > MAX_DOCUMENT_BYTES
    ensures r.ChunkSizeTooSmall? <==>
      !IsBlank(content) && Bytes(content) <= MAX_DOCUMENT_BYTES && maxChunkSize < MIN_CHUNK_SIZE
    ensures r.Chunked? ==> r.chunks != [] && Ink(Concat(r.chunks)) == Ink(content)
    ensures r.Chunked? ==> forall c :: c in r.chunks ==> c != "" && Bytes(c) <= maxChunkSize + 3
    ensures r.Chunked? ==> exists groups :: KeepsTheText(r.chunks, groups, content)
  {
    hide Bytes, Chunks, Trim, IsWhitespace, IsBlank, KeepsTheText, IsPacking;
    TrimKeepsInk(content);
    if Trim(content) == "" {
      return EmptyContent;
    }
    if Bytes(content) > MAX_DOCUMENT_BYTES {
      return ContentTooLong;
    }
    if maxChunkSize < MIN_CHUNK_SIZE {
      return ChunkSizeTooSmall;
    }
    var chunks := ChunkContent(content, maxChunkSize);
    ChunkingIsLossless(content, maxChunkSize);
    ghost var groups := ChunksKeepTheText(content, maxChunkSize);
    BlankHasNoInk(content);
    forall i | 0 <= i < |chunks| ensures chunks[i] != "" && Bytes(chunks[i]) <= maxChunkSize + 3 {
      ChunksAreBounded(content, maxChunkSize, i);
    }
    return Chunked(chunks);
  }
}
