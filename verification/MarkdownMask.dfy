/** `_mask_markdown_code` and the inline links of `_markdown_targets`: code is blanked
    without moving anything, so a link is reported at the line it is on. */
module MarkdownMask {
  import opened Text

  predicate IsLineEnd(c: char) {
    c == '\n' || c == '\r'
  }

  function BlankChar(c: char): char {
    if IsLineEnd(c) then c else ' '
  }

  function Blank(s: string): (r: string)
    ensures |r| == |s| && forall k :: 0 <= k < |s| ==> r[k] == BlankChar(s[k])
  {
    seq(|s|, k requires 0 <= k < |s| => BlankChar(s[k]))
  }

  // ---- Fenced and indented code --------------------------------------------

  /** `text.splitlines(keepends=True)` */
  function KeepLines(s: string): (lines: seq<string>)
    ensures forall k :: 0 <= k < |lines| ==> lines[k] != ""
    decreases |s|
  {
    if s == "" then [] else
    var n := LineEnd(s, 0);
    if n == |s| then [s] else
    var w := n + BreakWidth(s, n);
    [s[..w]] + KeepLines(s[w..])
  }

  function Concat(lines: seq<string>): string {
    if lines == [] then "" else Concat(lines[..|lines| - 1]) + lines[|lines| - 1]
  }

  function RunOf(s: string, i: nat, c: char): (n: nat)
    requires i <= |s|
    ensures i + n <= |s| && forall k :: i <= k < i + n ==> s[k] == c
    ensures i + n < |s| ==> s[i + n] != c
    decreases |s| - i
  {
    if i < |s| && s[i] == c then 1 + RunOf(s, i + 1, c) else 0
  }

  /** `line.rstrip("\r\n")` */
  function Bare(line: string): (r: string)
    ensures r <= line
  {
    if line != "" && IsLineEnd(line[|line| - 1]) then Bare(line[..|line| - 1]) else line
  }

  datatype Fence = Fence(c: char, length: nat)

  /** An opening fence: up to three spaces, then at least three backticks or tildes. */
  function Opening(line: string): Option<Fence> {
    var s := Bare(line);
    var indent := RunOf(s, 0, ' ');
    if indent > 3 || indent == |s| || (s[indent] != '`' && s[indent] != '~') then None
    else
      var n := RunOf(s, indent, s[indent]);
      if n >= 3 then Some(Fence(s[indent], n)) else None
  }

  /** A closing fence: at least as long, and nothing but blanks behind it. */
  predicate Closing(line: string, f: Fence) {
    var s := Bare(line);
    var indent := RunOf(s, 0, ' ');
    indent <= 3
    && var n := RunOf(s, indent, f.c);
       n >= f.length && forall k :: indent + n <= k < |s| ==> s[k] == ' ' || s[k] == '\t'
  }

  predicate Indented(line: string) {
    (|line| >= 4 && line[..4] == "    ") || (line != "" && line[0] == '\t')
  }

  /** The fence that is open behind a line. */
  function NextFence(fence: Option<Fence>, line: string): Option<Fence> {
    match fence
    case Some(f) => if Closing(line, f) then None else fence
    case None => Opening(line)
  }

  /** The fence that is open in front of line `k`. */
  function OpenFence(lines: seq<string>, k: nat): Option<Fence>
    requires k <= |lines|
  {
    if k == 0 then None else NextFence(OpenFence(lines, k - 1), lines[k - 1])
  }

  /** A line is part of a code block if it is in, opens or closes a fence, or is
      indented outside of one. */
  predicate IsCode(fence: Option<Fence>, line: string) {
    fence.Some? || Opening(line).Some? || Indented(line)
  }

  predicate IsCodeLine(lines: seq<string>, k: nat)
    requires k < |lines|
  {
    IsCode(OpenFence(lines, k), lines[k])
  }

  function MaskedIn(fence: Option<Fence>, line: string): (r: string)
    ensures |r| == |line|
  {
    if IsCode(fence, line) then Blank(line) else line
  }

  function MaskedLine(lines: seq<string>, k: nat): (r: string)
    requires k < |lines|
    ensures |r| == |lines[k]|
  {
    MaskedIn(OpenFence(lines, k), lines[k])
  }

  function MaskedTo(lines: seq<string>, k: nat): (r: seq<string>)
    requires k <= |lines|
    ensures |r| == k && forall j :: 0 <= j < k ==> r[j] == MaskedLine(lines, j)
  {
    if k == 0 then [] else MaskedTo(lines, k - 1) + [MaskedLine(lines, k - 1)]
  }

  function MaskedLines(lines: seq<string>): (r: seq<string>)
    ensures |r| == |lines| && forall k :: 0 <= k < |lines| ==> r[k] == MaskedLine(lines, k)
  {
    MaskedTo(lines, |lines|)
  }

  /** The body of the loop: one line, and the fence open behind it. */
  method MaskLine(line: string, fence: Option<Fence>) returns (masked: string, fence': Option<Fence>)
    ensures masked == MaskedIn(fence, line) && fence' == NextFence(fence, line)
  {
    var opening := Opening(line);
    fence' := fence;
    if fence.Some? {
      masked := Blank(line);
      if Closing(line, fence.value) {
        fence' := None;
      }
    } else if opening.Some? {
      fence' := opening;
      masked := Blank(line);
    } else if Indented(line) {
      masked := Blank(line);
    } else {
      masked := line;
    }
  }

  method MaskBlocks(text: string) returns (masked: string)
    ensures masked == Concat(MaskedLines(KeepLines(text)))
  {
    var lines := KeepLines(text);
    var done: seq<string> := [];
    var fence: Option<Fence> := None;
    for k := 0 to |lines|
      invariant fence == OpenFence(lines, k)
      invariant done == MaskedTo(lines, k)
    {
      var line;
      line, fence := MaskLine(lines[k], fence);
      done := done + [line];
    }
    masked := Concat(done);
  }

  // ---- Inline code ---------------------------------------------------------

  predicate Repeats(s: string, c: char, n: nat, i: nat)
    requires i + n <= |s|
  {
    forall k :: i <= k < i + n ==> s[k] == c
  }

  /** `text.find(c * n, i)` */
  function Find(s: string, c: char, n: nat, i: nat): (r: Option<nat>)
    ensures r.Some? ==> i <= r.value && r.value + n <= |s| && Repeats(s, c, n, r.value)
    decreases |s| - i
  {
    if i + n > |s| then None
    else if Repeats(s, c, n, i) then Some(i)
    else Find(s, c, n, i + 1)
  }

  function BlankRange(s: string, lo: nat, hi: nat): (r: string)
    requires lo <= hi <= |s|
    ensures |r| == |s|
    ensures forall k :: 0 <= k < |s| ==> r[k] == if lo <= k < hi then BlankChar(s[k]) else s[k]
  {
    seq(|s|, k requires 0 <= k < |s| => if lo <= k < hi then BlankChar(s[k]) else s[k])
  }

  /** One step at `index`: past an ordinary character, past a run of backticks that
      is never repeated, or past a code span, which is blanked with its backticks. */
  function SpanStep(s: string, index: nat): (r: (string, nat))
    requires index < |s|
    ensures |r.0| == |s| && index < r.1 <= |s|
  {
    if s[index] != '`' then (s, index + 1) else SpanEnd(s, index, RunOf(s, index, '`'))
  }

  /** What becomes of a run of `n` backticks. */
  function SpanEnd(s: string, index: nat, n: nat): (r: (string, nat))
    requires index + n <= |s|
    ensures |r.0| == |s| && index + n <= r.1 <= |s|
  {
    match Find(s, '`', n, index + n)
    case None => (s, index + n)
    case Some(close) => (BlankRange(s, index, close + n), close + n)
  }

  /** From `index` on, blank each run of backticks up to the next run of that length. */
  function Inline(s: string, index: nat): (r: string)
    requires index <= |s|
    ensures |r| == |s|
    decreases |s| - index
  {
    if index == |s| then s else Inline(SpanStep(s, index).0, SpanStep(s, index).1)
  }

  method RunLength(chars: array<char>, index: nat) returns (n: nat)
    requires index <= chars.Length
    ensures n == RunOf(chars[..], index, '`')
  {
    var end := index;
    while end < chars.Length && chars[end] == '`'
      invariant index <= end <= chars.Length
      invariant RunOf(chars[..], index, '`') == end - index + RunOf(chars[..], end, '`')
    {
      end := end + 1;
    }
    n := end - index;
  }

  method MaskSpan(chars: array<char>, index: nat) returns (next: nat)
    requires index < chars.Length
    modifies chars
    ensures chars[..] == SpanStep(old(chars[..]), index).0
    ensures next == SpanStep(old(chars[..]), index).1
  {
    next := index + 1;
    if chars[index] == '`' {
      var s := chars[..];
      var n := RunLength(chars, index);
      assert chars[..] == s;
      next := CloseSpan(chars, s, index, n);
    }
  }

  method CloseSpan(chars: array<char>, s: string, index: nat, n: nat) returns (next: nat)
    requires s == chars[..] && index + n <= |s|
    modifies chars
    ensures chars[..] == SpanEnd(s, index, n).0
    ensures next == SpanEnd(s, index, n).1
  {
    var close := Find(s, '`', n, index + n);
    next := index + n;
    if close.Some? {
      next := close.value + n;
      BlankOut(chars, index, next);
    }
  }

  method MaskInline(chars: array<char>)
    modifies chars
    ensures chars[..] == Inline(old(chars[..]), 0)
  {
    var index := 0;
    ghost var goal := Inline(chars[..], 0);
    while index < chars.Length
      invariant 0 <= index <= chars.Length
      invariant goal == Inline(chars[..], index)
    {
      index := MaskSpan(chars, index);
    }
  }

  method BlankOut(chars: array<char>, lo: nat, hi: nat)
    requires lo <= hi <= chars.Length
    modifies chars
    ensures chars[..] == BlankRange(old(chars[..]), lo, hi)
  {
    for position := lo to hi
      invariant forall k :: 0 <= k < chars.Length ==>
                  chars[k] == if lo <= k < position then BlankChar(old(chars[k])) else old(chars[k])
    {
      if !IsLineEnd(chars[position]) {
        chars[position] := ' ';
      }
    }
  }

  function Masked(text: string): string {
    Inline(Concat(MaskedLines(KeepLines(text))), 0)
  }

  method MaskMarkdownCode(text: string) returns (masked: string)
    ensures masked == Masked(text)
  {
    var blocks := MaskBlocks(text);
    var chars := new char[|blocks|](k requires 0 <= k < |blocks| => blocks[k]);
    assert chars[..] == blocks;
    MaskInline(chars);
    masked := chars[..];
  }

  // ---- Nothing moves -------------------------------------------------------

  /** The same length, and every character either kept or turned into a space; line
      ends are always kept. */
  ghost predicate KeepsPlaces(m: string, s: string) {
    |m| == |s| && forall k :: 0 <= k < |s| ==> m[k] == s[k] || (m[k] == ' ' && !IsLineEnd(s[k]))
  }

  lemma {:induction false} KeptLinesJoin(s: string)
    ensures Concat(KeepLines(s)) == s
    decreases |s|
  {
    if s == "" {
    } else {
      var n := LineEnd(s, 0);
      if n < |s| {
        var w := n + BreakWidth(s, n);
        KeptLinesJoin(s[w..]);
        ConcatCons(s[..w], KeepLines(s[w..]));
      } else {
        ConcatOne(s);
      }
    }
  }

  lemma ConcatOne(s: string)
    ensures Concat([s]) == s
  {
    assert [s][..0] == [];
  }

  lemma {:induction false} ConcatCons(a: string, lines: seq<string>)
    ensures Concat([a] + lines) == a + Concat(lines)
  {
    var all := [a] + lines;
    if lines == [] {
      assert all[..0] == [];
    } else {
      var n := |lines| - 1;
      assert all[..|all| - 1] == [a] + lines[..n];
      ConcatCons(a, lines[..n]);
      Assoc(a, Concat(lines[..n]), lines[n]);
    }
  }

  lemma {:induction false} MaskedKeepsPlaces(lines: seq<string>, masked: seq<string>)
    requires |masked| == |lines| && forall k :: 0 <= k < |lines| ==>
             masked[k] == lines[k] || masked[k] == Blank(lines[k])
    ensures KeepsPlaces(Concat(masked), Concat(lines))
  {
    if lines == [] {
    } else {
      var n := |lines| - 1;
      MaskedKeepsPlaces(lines[..n], masked[..n]);
      KeepsAppend(Concat(masked[..n]), Concat(lines[..n]), masked[n], lines[n]);
    }
  }

  lemma KeepsAppend(a: string, b: string, x: string, y: string)
    requires KeepsPlaces(a, b) && KeepsPlaces(x, y)
    ensures KeepsPlaces(a + x, b + y)
  {
  }

  lemma KeepsTrans(a: string, b: string, c: string)
    requires KeepsPlaces(a, b) && KeepsPlaces(b, c)
    ensures KeepsPlaces(a, c)
  {
  }

  lemma SpanKeepsPlaces(s: string, index: nat)
    requires index < |s|
    ensures KeepsPlaces(SpanStep(s, index).0, s)
  {
  }

  lemma {:induction false} InlineKeepsPlaces(s: string, index: nat)
    requires index <= |s|
    ensures KeepsPlaces(Inline(s, index), s)
    decreases |s| - index
  {
    if index >= |s| {
    } else {
      var (t, next) := SpanStep(s, index);
      SpanKeepsPlaces(s, index);
      InlineKeepsPlaces(t, next);
      KeepsTrans(Inline(t, next), t, s);
    }
  }

  lemma MaskKeepsPlaces(text: string)
    ensures KeepsPlaces(Masked(text), text)
  {
    var lines := KeepLines(text);
    KeptLinesJoin(text);
    var blocks := Concat(MaskedLines(lines));
    MaskedKeepsPlaces(lines, MaskedLines(lines));
    InlineKeepsPlaces(blocks, 0);
    KeepsTrans(Inline(blocks, 0), blocks, text);
  }

  /** Where line `k` begins. */
  function Offset(lines: seq<string>, k: nat): nat
    requires k <= |lines|
  {
    |Concat(lines[..k])|
  }

  lemma {:induction false} LineInPlace(lines: seq<string>, k: nat)
    requires k < |lines|
    ensures Offset(lines, k) + |lines[k]| <= |Concat(lines)|
    ensures Concat(lines)[Offset(lines, k)..Offset(lines, k) + |lines[k]|] == lines[k]
  {
    var n := |lines| - 1;
    if k < n {
      LineInPlace(lines[..n], k);
      assert lines[..n][..k] == lines[..k];
    } else {
      assert lines[..k] == lines[..n];
    }
  }

  lemma {:induction false} SameOffsets(lines: seq<string>, masked: seq<string>, k: nat)
    requires |masked| == |lines| && k <= |lines| && forall i :: 0 <= i < |lines| ==> |masked[i]| == |lines[i]|
    ensures Offset(masked, k) == Offset(lines, k)
  {
    if k == 0 {
    } else {
      SameOffsets(lines, masked, k - 1);
      assert lines[..k][..k - 1] == lines[..k - 1] && masked[..k][..k - 1] == masked[..k - 1];
    }
  }

  /** Place `i` of the text is in line `k`. */
  predicate InLine(lines: seq<string>, k: nat, i: nat)
    requires k < |lines|
  {
    Offset(lines, k) <= i < Offset(lines, k) + |lines[k]|
  }

  lemma CharOfLine(lines: seq<string>, k: nat, i: nat)
    requires k < |lines| && InLine(lines, k, i)
    ensures i < |Concat(lines)| && Concat(lines)[i] == lines[k][i - Offset(lines, k)]
  {
    LineInPlace(lines, k);
    var o := Offset(lines, k);
    assert Concat(lines)[i] == Concat(lines)[o..o + |lines[k]|][i - o];
  }

  /** Every line of a code block is blank in the masked text: no backtick, bracket or
      other character of it is left. */
  lemma CodeLinesAreBlank(text: string, k: nat, i: nat)
    requires k < |KeepLines(text)| && IsCodeLine(KeepLines(text), k) && InLine(KeepLines(text), k, i)
    ensures i < |text| == |Masked(text)| && Masked(text)[i] == BlankChar(text[i])
  {
    var lines := KeepLines(text);
    var masked := MaskedLines(lines);
    MaskKeepsPlaces(text);
    KeptLinesJoin(text);
    SameOffsets(lines, masked, k);
    CharOfLine(lines, k, i);
    CharOfLine(masked, k, i);
    InlineKeepsPlaces(Concat(masked), 0);
  }

  /** `text.count("\n", 0, i) + 1` is the same before and after masking. */
  lemma {:induction false} SameLineNumbers(m: string, s: string, i: nat)
    requires KeepsPlaces(m, s) && i <= |s|
    ensures Newlines(m[..i]) == Newlines(s[..i])
  {
    if i == 0 {
    } else {
      SameLineNumbers(m, s, i - 1);
      assert m[..i] == m[..i - 1] + [m[i - 1]] && s[..i] == s[..i - 1] + [s[i - 1]];
      NewlinesAppend(m[..i - 1], [m[i - 1]]);
      NewlinesAppend(s[..i - 1], [s[i - 1]]);
    }
  }

  // ---- What a code span is -------------------------------------------------

  function Ticks(n: nat): (s: string)
    ensures |s| == n && forall k :: 0 <= k < n ==> s[k] == '`'
  {
    if n == 0 then "" else ['`'] + Ticks(n - 1)
  }

  /** What may stand between two runs of `n` backticks: no such run, and no backtick
      next to them. */
  ghost predicate SpanBody(body: string, n: nat) {
    && body != "" && body[0] != '`' && body[|body| - 1] != '`'
    && forall k :: 0 <= k <= |body| - n ==> !Repeats(body, '`', n, k)
  }

  lemma {:induction false} RunShift(p: string, b: string, i: nat, c: char)
    requires i <= |b|
    ensures RunOf(p + b, |p| + i, c) == RunOf(b, i, c)
    decreases |b| - i
  {
    if i < |b| && b[i] == c { RunShift(p, b, i + 1, c); }
  }

  lemma RepeatsShift(p: string, b: string, c: char, n: nat, i: nat)
    requires i + n <= |b|
    ensures Repeats(p + b, c, n, |p| + i) <==> Repeats(b, c, n, i)
  {
    assert forall k :: i <= k < i + n ==> (p + b)[|p| + k] == b[k];
    if Repeats(p + b, c, n, |p| + i) {
      forall k | i <= k < i + n ensures b[k] == c { assert (p + b)[|p| + k] == c; }
    }
  }

  lemma {:induction false} FindShift(p: string, b: string, c: char, n: nat, i: nat, from: nat)
    requires i <= |b| && from == |p| + i
    ensures Find(p + b, c, n, from) == match Find(b, c, n, i) case None => None case Some(at) => Some(|p| + at)
    decreases |b| - i
  {
    if i + n <= |b| {
      RepeatsShift(p, b, c, n, i);
      if !Repeats(b, c, n, i) && i < |b| { FindShift(p, b, c, n, i + 1, from + 1); }
    }
  }

  lemma BlankShift(p: string, b: string, s: string, lo: nat, hi: nat, from: nat, to: nat)
    requires lo <= hi <= |b| && s == p + b && from == |p| + lo && to == |p| + hi
    ensures BlankRange(s, from, to) == p + BlankRange(b, lo, hi)
  {
  }

  lemma StepMoved(p: string, b: string, s: string, i: nat, j: nat, t: string, next: nat)
    requires i < |b| && s == p + b && j == |p| + i && SpanStep(b, i) == (t, next)
    ensures SpanStep(s, j) == (p + t, |p| + next)
  {
    StepShift(p, b, s, i, j);
  }

  lemma StepShift(p: string, b: string, s: string, i: nat, j: nat)
    requires i < |b| && s == p + b && j == |p| + i
    ensures SpanStep(s, j) == (p + SpanStep(b, i).0, |p| + SpanStep(b, i).1)
  {
    assert s[j] == b[i];
    if b[i] == '`' {
      var n := RunOf(b, i, '`');
      RunShift(p, b, i, '`');
      TickStep(b, i, n);
      TickStep(s, j, n);
      EndShift(p, b, s, i, j, n);
    }
  }

  lemma TickStep(s: string, i: nat, n: nat)
    requires i < |s| && s[i] == '`' && RunOf(s, i, '`') == n
    ensures SpanStep(s, i) == SpanEnd(s, i, n)
  {
  }

  lemma SpanCloses(s: string, i: nat, n: nat, from: nat, at: nat, end: nat)
    requires i + n == from <= |s| && Find(s, '`', n, from) == Some(at) && end == at + n
    ensures SpanEnd(s, i, n) == (BlankRange(s, i, end), end)
  {
  }

  lemma SpanNeverCloses(s: string, i: nat, n: nat, from: nat)
    requires i + n == from <= |s| && Find(s, '`', n, from) == None
    ensures SpanEnd(s, i, n) == (s, from)
  {
  }

  lemma EndShift(p: string, b: string, s: string, i: nat, j: nat, n: nat)
    requires i + n <= |b| && s == p + b && j == |p| + i
    ensures SpanEnd(s, j, n) == (p + SpanEnd(b, i, n).0, |p| + SpanEnd(b, i, n).1)
  {
    var from, there := i + n, j + n;
    assert there == |p| + from;
    FindShift(p, b, '`', n, from, there);
    match Find(b, '`', n, from)
    case None =>
      SpanNeverCloses(b, i, n, from);
      SpanNeverCloses(s, j, n, there);
    case Some(at) => SpanMoved(p, b, s, i, j, n, from, there, at, at + n, |p| + at + n);
  }

  lemma SpanMoved(p: string, b: string, s: string, i: nat, j: nat, n: nat, from: nat, there: nat, at: nat, end: nat,
                  last: nat)
    requires s == p + b && j == |p| + i && end == at + n && last == |p| + end && from == i + n <= |b| && there == j + n
    requires Find(b, '`', n, from) == Some(at) && Find(s, '`', n, there) == Some(|p| + at)
    ensures SpanEnd(s, j, n) == (p + SpanEnd(b, i, n).0, |p| + SpanEnd(b, i, n).1)
  {
    SpanCloses(b, i, n, from, at, end);
    SpanCloses(s, j, n, there, |p| + at, last);
    BlankShift(p, b, s, i, end, j, last);
  }

  /** What stands in front of the index no longer matters. */
  lemma {:induction false} InlineShift(p: string, b: string, s: string, i: nat, j: nat)
    requires i <= |b| && s == p + b && j == |p| + i
    ensures Inline(s, j) == p + Inline(b, i)
    decreases |b| - i
  {
    if i == |b| {
      InlineEnds(b, i);
      InlineEnds(s, j);
    } else {
      var (t, next) := SpanStep(b, i);
      var u, last := p + t, |p| + next;
      StepMoved(p, b, s, i, j, t, next);
      InlineShift(p, t, u, next, last);
      InlineStep(b, i, t, next, Inline(t, next));
      InlineStep(s, j, u, last, Inline(u, last));
    }
  }

  lemma InlineEnds(s: string, i: nat)
    requires i == |s|
    ensures Inline(s, i) == s
  {
  }

  /** Text without backticks is passed over. */
  lemma {:induction false} InlinePasses(s: string, i: nat, j: nat)
    requires i <= j <= |s| && forall k :: i <= k < j ==> s[k] != '`'
    ensures Inline(s, i) == Inline(s, j)
    decreases j - i
  {
    if i >= j {
    } else {
      InlinePasses(s, i + 1, j);
    }
  }

  lemma {:induction false} RunIs(s: string, i: nat, c: char, n: nat)
    requires i + n <= |s| && Repeats(s, c, n, i) && (i + n < |s| ==> s[i + n] != c)
    ensures RunOf(s, i, c) == n
    decreases n
  {
    if n == 0 {
    } else {
      RunIs(s, i + 1, c, n - 1);
    }
  }

  lemma {:induction false} FindIs(s: string, c: char, n: nat, i: nat, at: nat)
    requires i <= at && at + n <= |s| && Repeats(s, c, n, at)
    requires forall k :: i <= k < at ==> !Repeats(s, c, n, k)
    ensures Find(s, c, n, i) == Some(at)
    decreases at - i
  {
    if i >= at {
    } else {
      FindIs(s, c, n, i + 1, at);
    }
  }

  lemma SpanIsFound(n: nat, body: string, b: string)
    requires n > 0 && SpanBody(body, n)
    ensures var s := Ticks(n) + (body + (Ticks(n) + b));
            RunOf(s, 0, '`') == n && Find(s, '`', n, n) == Some(n + |body|)
  {
    var s, at := Ticks(n) + (body + (Ticks(n) + b)), n + |body|;
    assert s[n] == body[0];
    RunIs(s, 0, '`', n);
    forall k | n <= k < at ensures !Repeats(s, '`', n, k) {
      if k + n <= at {
        assert !Repeats(body, '`', n, k - n);
        var j :| k - n <= j < k && body[j] != '`';
        assert s[n + j] == body[j];
      } else {
        assert s[at - 1] == body[|body| - 1];
      }
    }
    assert Repeats(s, '`', n, at) by { assert forall k :: at <= k < at + n ==> s[k] == Ticks(n)[k - at]; }
    FindIs(s, '`', n, n, at);
  }

  /** A code span becomes blank with its backticks, line ends excepted; the text in
      front of it is untouched, and the text behind it is masked on its own. */
  lemma CodeSpanIsBlanked(a: string, n: nat, body: string, b: string)
    requires n > 0 && (forall k :: 0 <= k < |a| ==> a[k] != '`') && SpanBody(body, n)
    ensures var span := Ticks(n) + (body + Ticks(n));
            Inline(a + (span + b), 0) == a + (Blank(span) + Inline(b, 0))
  {
    var span := Ticks(n) + (body + Ticks(n));
    var s := span + b;
    assert s == Ticks(n) + (body + (Ticks(n) + b));
    SpanIsFound(n, body, b);
    FirstSpan(span, n, n + |body|, b);
    InlineBehind(a, s);
  }

  lemma FirstSpan(span: string, n: nat, at: nat, b: string)
    requires 0 < n <= at && at + n == |span| && span[0] == '`'
    requires RunOf(span + b, 0, '`') == n && Find(span + b, '`', n, n) == Some(at)
    ensures Inline(span + b, 0) == Blank(span) + Inline(b, 0)
  {
    var s := span + b;
    SpanCloses(s, 0, n, n, at, at + n);
    BlankFront(span, b);
    StepThen(s, n, Blank(span), b);
  }

  lemma BlankFront(span: string, b: string)
    ensures BlankRange(span + b, 0, |span|) == Blank(span) + b
  {
  }

  /** The first step settles `t`, and the rest is masked on its own. */
  lemma StepThen(s: string, n: nat, t: string, b: string)
    requires s != "" && s[0] == '`' && RunOf(s, 0, '`') == n && SpanEnd(s, 0, n) == (t + b, |t|)
    ensures Inline(s, 0) == t + Inline(b, 0)
  {
    StepIs(s, 0, n, t + b, |t|);
    InlineShift(t, b, t + b, 0, |t|);
  }

  lemma InlineStep(s: string, i: nat, t: string, next: nat, r: string)
    requires i < |s| && SpanStep(s, i) == (t, next) && Inline(t, next) == r
    ensures Inline(s, i) == r
  {
  }

  lemma StepIs(s: string, i: nat, n: nat, t: string, next: nat)
    requires i < |s| && s[i] == '`' && RunOf(s, i, '`') == n && SpanEnd(s, i, n) == (t, next)
    ensures Inline(s, i) == Inline(t, next)
  {
  }

  lemma InlineBehind(a: string, s: string)
    requires forall k :: 0 <= k < |a| ==> a[k] != '`'
    ensures Inline(a + s, 0) == a + Inline(s, 0)
  {
    InlinePasses(a + s, 0, |a|);
    InlineShift(a, s, a + s, 0, |a|);
  }

  /** A run of backticks that is not repeated is content. */
  lemma LoneRunIsKept(a: string, n: nat, b: string)
    requires n > 0 && (forall k :: 0 <= k < |a| ==> a[k] != '`')
    requires (b != "" ==> b[0] != '`') && forall k :: 0 <= k <= |b| - n ==> !Repeats(b, '`', n, k)
    ensures Inline(a + (Ticks(n) + b), 0) == a + (Ticks(n) + Inline(b, 0))
  {
    LoneRun(n, b);
    InlineBehind(a, Ticks(n) + b);
  }

  lemma LoneRun(n: nat, b: string)
    requires n > 0 && (b != "" ==> b[0] != '`') && forall k :: 0 <= k <= |b| - n ==> !Repeats(b, '`', n, k)
    ensures Inline(Ticks(n) + b, 0) == Ticks(n) + Inline(b, 0)
  {
    var s := Ticks(n) + b;
    assert Repeats(s, '`', n, 0);
    RunIs(s, 0, '`', n);
    FindShift(Ticks(n), b, '`', n, 0, n);
    NotFound(b, '`', n, 0);
    SpanNeverCloses(s, 0, n, n);
    StepThen(s, n, Ticks(n), b);
  }

  lemma {:induction false} NotFound(s: string, c: char, n: nat, i: nat)
    requires forall k :: i <= k <= |s| - n ==> !Repeats(s, c, n, k)
    ensures Find(s, c, n, i) == None
    decreases |s| - i
  {
    if i + n <= |s| { if i < |s| { NotFound(s, c, n, i + 1); } }
  }

  /** Place `k` is in a code span: the text is cut into ordinary characters, runs of
      backticks that are not repeated, and spans. */
  predicate InSpan(s: string, k: nat)
    decreases |s|
  {
    if s == "" then false
    else
      var next := SpanStep(s, 0).1;
      if k < next then s[0] == '`' && Find(s, '`', RunOf(s, 0, '`'), RunOf(s, 0, '`')).Some?
      else InSpan(s[next..], k - next)
  }

  lemma FirstStep(s: string, k: nat)
    requires k < |s|
    ensures var (t, next) := SpanStep(s, 0);
            t[next..] == s[next..] && (k < next ==> t[k] == if InSpan(s, k) then BlankChar(s[k]) else s[k])
  {
    if s[0] == '`' {
      var n := RunOf(s, 0, '`');
      TickStep(s, 0, n);
      match Find(s, '`', n, n)
      case None => SpanNeverCloses(s, 0, n, n);
      case Some(at) => SpanCloses(s, 0, n, n, at, at + n);
    }
  }

  /** Masking blanks the places in code spans, and no other. */
  lemma {:induction false} InlineBlanksSpans(s: string, k: nat)
    requires k < |s|
    ensures Inline(s, 0)[k] == if InSpan(s, k) then BlankChar(s[k]) else s[k]
    decreases |s|
  {
    var (t, next) := SpanStep(s, 0);
    FirstStep(s, k);
    RestOnItsOwn(s, t, next);
    if k >= next { InlineBlanksSpans(s[next..], k - next); }
  }

  lemma RestOnItsOwn(s: string, t: string, next: nat)
    requires s != "" && SpanStep(s, 0) == (t, next) && t[next..] == s[next..]
    ensures Inline(s, 0) == t[..next] + Inline(s[next..], 0)
  {
    assert t == t[..next] + t[next..];
    InlineStep(s, 0, t, next, Inline(t, next));
    InlineShift(t[..next], t[next..], t, 0, next);
  }

  // ---- Links ---------------------------------------------------------------

  datatype Target = Target(line: nat, start: nat, text: string)

  function SkipSpace(s: string, i: nat): (j: nat)
    requires i <= |s|
    ensures i <= j <= |s|
    decreases |s| - i
  {
    if i < |s| && IsSpace(s[i]) then SkipSpace(s, i + 1) else i
  }

  /** The end of `<...>`, or of the line. */
  function AngleEnd(s: string, i: nat): (j: nat)
    requires i <= |s|
    ensures i <= j <= |s| && forall k :: i <= k < j ==> s[k] != '>' && !IsLineEnd(s[k])
    decreases |s| - i
  {
    if i < |s| && s[i] != '>' && !IsLineEnd(s[i]) then AngleEnd(s, i + 1) else i
  }

  /** The end of a bare destination: a closing parenthesis or white space outside
      nested parentheses. */
  function BareEnd(s: string, i: nat, depth: nat, escaped: bool): (j: nat)
    requires i <= |s|
    ensures i <= j <= |s|
    decreases |s| - i
  {
    if i == |s| then i
    else if escaped then BareEnd(s, i + 1, depth, false)
    else if s[i] == '\\' then BareEnd(s, i + 1, depth, true)
    else if s[i] == '(' then BareEnd(s, i + 1, depth + 1, false)
    else if s[i] == ')' then if depth == 0 then i else BareEnd(s, i + 1, depth - 1, false)
    else if IsSpace(s[i]) && depth == 0 then i
    else BareEnd(s, i + 1, depth, false)
  }

  /** The link whose `](` is at `marker`, if it is one. */
  function LinkAt(s: string, marker: nat): Option<Target>
    requires marker + 2 <= |s|
  {
    var start := SkipSpace(s, marker + 2);
    if start < |s| && s[start] == '<' then
      var end := AngleEnd(s, start + 1);
      if end < |s| && s[end] == '>' then Some(Target(Newlines(s[..start + 1]) + 1, start + 1, s[start + 1..end]))
        else None
    else
      Some(Target(Newlines(s[..start]) + 1, start, s[start..BareEnd(s, start, 0, false)]))
  }

  function MarkerAt(s: string, i: nat): (r: Option<nat>)
    ensures r.Some? ==> i <= r.value && r.value + 2 <= |s| && s[r.value..r.value + 2] == "]("
    decreases |s| - i
  {
    if i + 2 > |s| then None
    else if s[i..i + 2] == "](" then Some(i)
    else MarkerAt(s, i + 1)
  }

  function Links(s: string, index: nat): seq<Target>
    decreases |s| - index
  {
    match MarkerAt(s, index)
    case None => []
    case Some(marker) =>
      (match LinkAt(s, marker)
       case None => []
       case Some(t) => [t]) + Links(s, marker + 2)
  }

  method InlineTargets(text: string) returns (targets: seq<Target>)
    ensures targets == Links(text, 0)
  {
    targets := [];
    var index := 0;
    var marker := MarkerAt(text, index);
    while marker.Some?
      invariant index <= |text| && marker == MarkerAt(text, index)
      invariant Links(text, 0) == targets + Links(text, index)
      decreases |text| - index
    {
      var cursor := Spaces(text, marker.value + 2);
      var found := TargetFrom(text, marker.value, cursor);
      LinksNext(text, index, marker.value, found);
      Regroup(targets, found, Links(text, marker.value + 2));
      targets := targets + found;
      index := marker.value + 2;
      marker := MarkerAt(text, index);
    }
    assert targets + [] == targets;
  }

  lemma LinksNext(s: string, index: nat, marker: nat, found: seq<Target>)
    requires MarkerAt(s, index) == Some(marker)
    requires found == match LinkAt(s, marker) case None => [] case Some(t) => [t]
    ensures Links(s, index) == found + Links(s, marker + 2)
  {
  }

  method Spaces(text: string, start: nat) returns (cursor: nat)
    requires start <= |text|
    ensures cursor == SkipSpace(text, start)
  {
    cursor := start;
    while cursor < |text| && IsSpace(text[cursor])
      invariant start <= cursor <= |text|
      invariant SkipSpace(text, cursor) == SkipSpace(text, start)
    {
      cursor := cursor + 1;
    }
  }

  lemma AngleLink(s: string, marker: nat, start: nat, end: nat)
    requires marker + 2 <= start < |s| && start == SkipSpace(s, marker + 2) && s[start] == '<'
    requires end == AngleEnd(s, start + 1)
    ensures LinkAt(s, marker) == if end < |s| && s[end] == '>'
                                 then Some(Target(Newlines(s[..start + 1]) + 1, start + 1, s[start + 1..end]))
                                 else None
  {
  }

  lemma BareLink(s: string, marker: nat, start: nat, end: nat)
    requires marker + 2 <= start <= |s| && start == SkipSpace(s, marker + 2) && (start < |s| ==> s[start] != '<')
    requires end == BareEnd(s, start, 0, false)
    ensures LinkAt(s, marker) == Some(Target(Newlines(s[..start]) + 1, start, s[start..end]))
  {
  }

  method TargetFrom(text: string, marker: nat, start: nat) returns (found: seq<Target>)
    requires marker + 2 <= start <= |text| && start == SkipSpace(text, marker + 2)
    ensures found == match LinkAt(text, marker) case None => [] case Some(t) => [t]
  {
    var cursor := start;
    if cursor < |text| && text[cursor] == '<' {
      cursor := start + 1;
      while cursor < |text| && text[cursor] != '>' && !IsLineEnd(text[cursor])
        invariant start + 1 <= cursor <= |text|
        invariant AngleEnd(text, cursor) == AngleEnd(text, start + 1)
      {
        cursor := cursor + 1;
      }
      AngleLink(text, marker, start, cursor);
      if cursor < |text| && text[cursor] == '>' {
        return [Target(Newlines(text[..start + 1]) + 1, start + 1, text[start + 1..cursor])];
      }
      return [];
    }
    var depth := 0;
    var escaped := false;
    while cursor < |text|
      invariant start <= cursor <= |text| && depth >= 0
      invariant BareEnd(text, cursor, depth, escaped) == BareEnd(text, start, 0, false)
    {
      var c := text[cursor];
      if escaped {
        escaped := false;
      } else if c == '\\' {
        escaped := true;
      } else if c == '(' {
        depth := depth + 1;
      } else if c == ')' {
        if depth == 0 {
          break;
        }
        depth := depth - 1;
      } else if IsSpace(c) && depth == 0 {
        break;
      }
      cursor := cursor + 1;
    }
    BareLink(text, marker, start, cursor);
    return [Target(Newlines(text[..start]) + 1, start, text[start..cursor])];
  }

  /** A `](` at place `i`. */
  predicate IsMarker(s: string, i: nat) {
    i + 2 <= |s| && s[i] == ']' && s[i + 1] == '('
  }

  lemma {:induction false} LinkComesFromMarker(s: string, index: nat, t: Target) returns (marker: nat)
    requires t in Links(s, index)
    ensures IsMarker(s, marker) && LinkAt(s, marker) == Some(t)
    decreases |s| - index
  {
    marker := MarkerAt(s, index).value;
    assert s[marker..marker + 2][0] == s[marker] && s[marker..marker + 2][1] == s[marker + 1];
    if LinkAt(s, marker) != Some(t) { marker := LinkComesFromMarker(s, marker + 2, t); }
  }

  ghost predicate LeadsTo(s: string, i: nat, marker: nat, good: iset<nat>) {
    var next := MarkerAt(s, i);
    next.Some? && (next.value == marker || next.value + 2 in good)
  }

  /** The search from any place in front of a marker comes to it. */
  lemma {:induction false} SearchComesTo(s: string, index: nat, marker: nat, good: iset<nat>)
    requires index <= marker && IsMarker(s, marker)
    requires forall i: nat :: LeadsTo(s, i, marker, good) ==> i in good
    ensures index in good
    decreases |s| - index
  {
    var next := MarkerFound(s, index, marker);
    if next != marker { SearchComesTo(s, next + 2, marker, good); }
    assert LeadsTo(s, index, marker, good);
  }

  /** Every `](` that can be a link is reported as one. */
  lemma LinksAreMarkers(s: string, index: nat, marker: nat, t: Target)
    requires index <= marker && IsMarker(s, marker) && LinkAt(s, marker) == Some(t)
    ensures t in Links(s, index)
  {
    var good := iset i: nat | t in Links(s, i);
    forall i: nat | LeadsTo(s, i, marker, good)
      ensures i in good
    {
      var next := MarkerAt(s, i).value;
      if next == marker { LinkIsListed(s, i, next, t); } else { LaterLinkIsListed(s, i, next, t); }
    }
    SearchComesTo(s, index, marker, good);
  }

  lemma LinkIsListed(s: string, index: nat, next: nat, t: Target)
    requires MarkerAt(s, index) == Some(next) && LinkAt(s, next) == Some(t)
    ensures t in Links(s, index)
  {
  }

  lemma LaterLinkIsListed(s: string, index: nat, next: nat, t: Target)
    requires MarkerAt(s, index) == Some(next) && t in Links(s, next + 2)
    ensures t in Links(s, index)
  {
  }

  lemma {:induction false} MarkerFound(s: string, index: nat, marker: nat) returns (next: nat)
    requires index <= marker && IsMarker(s, marker)
    ensures MarkerAt(s, index) == Some(next) && (next == marker || next + 2 <= marker)
    decreases |s| - index
  {
    assert s[marker..marker + 2] == "](";
    if s[index..index + 2] == "](" {
      next := index;
      assert s[index..index + 2][1] == s[index + 1];
    } else {
      next := MarkerFound(s, index + 1, marker);
    }
  }

  /** A link destination as it is written: characters, escaped characters and
      parenthesised parts. */
  datatype Dest = End | Char(c: char, more: Dest) | Escape(c: char, more: Dest) | Paren(inner: Dest, more: Dest)

  function WriteDest(d: Dest): string {
    match d
    case End => ""
    case Char(c, more) => [c] + WriteDest(more)
    case Escape(c, more) => ['\\', c] + WriteDest(more)
    case Paren(inner, more) => "(" + (WriteDest(inner) + (")" + WriteDest(more)))
  }

  /** White space is allowed only inside parentheses. */
  predicate PlainDest(d: Dest, depth: nat) {
    match d
    case End => true
    case Char(c, more) => c != '\\' && c != '(' && c != ')' && (IsSpace(c) ==> depth > 0) && PlainDest(more, depth)
    case Escape(_, more) => PlainDest(more, depth)
    case Paren(inner, more) => PlainDest(inner, depth + 1) && PlainDest(more, depth)
  }

  lemma OccursSplit(s: string, a: string, b: string, at: nat)
    requires OccursAt(s, a + b, at)
    ensures OccursAt(s, a, at) && OccursAt(s, b, at + |a|)
  {
    var whole := s[at..at + |a + b|];
    assert s[at..at + |a|] == whole[..|a|] && s[at + |a|..at + |a| + |b|] == whole[|a|..];
  }

  lemma OccursFirst(s: string, a: string, at: nat)
    requires OccursAt(s, a, at) && a != ""
    ensures s[at] == a[0]
  {
    assert s[at..at + |a|][0] == s[at];
  }

  lemma CharParts(s: string, c: char, rest: string, at: nat)
    requires OccursAt(s, [c] + rest, at)
    ensures s[at] == c && OccursAt(s, rest, at + 1)
  {
    OccursFirst(s, [c] + rest, at);
    OccursSplit(s, [c], rest, at);
  }

  lemma EscapeParts(s: string, c: char, rest: string, at: nat)
    requires OccursAt(s, ['\\', c] + rest, at)
    ensures s[at] == '\\' && OccursAt(s, rest, at + 2)
  {
    OccursFirst(s, ['\\', c] + rest, at);
    OccursSplit(s, ['\\', c], rest, at);
  }

  /** The scan gets past a well-written destination with the same parentheses open. */
  lemma {:induction false} DestIsPassed(d: Dest, s: string, i: nat, end: nat, depth: nat)
    requires PlainDest(d, depth) && OccursAt(s, WriteDest(d), i) && end == i + |WriteDest(d)|
    ensures BareEnd(s, i, depth, false) == BareEnd(s, end, depth, false)
    decreases d
  {
    match d
    case End =>
    case Char(c, more) =>
      CharParts(s, c, WriteDest(more), i);
      CharIsPassed(s, i, depth);
      DestIsPassed(more, s, i + 1, end, depth);
    case Escape(c, more) =>
      EscapeParts(s, c, WriteDest(more), i);
      EscapeIsPassed(s, i, depth);
      DestIsPassed(more, s, i + 2, end, depth);
    case Paren(inner, more) =>
      var close := i + 1 + |WriteDest(inner)|;
      ParenParts(s, WriteDest(inner), WriteDest(more), i);
      DestIsPassed(inner, s, i + 1, close, depth + 1);
      ParensPair(s, i, close, depth);
      DestIsPassed(more, s, close + 1, end, depth);
  }

  lemma CharIsPassed(s: string, i: nat, depth: nat)
    requires i < |s| && s[i] != '\\' && s[i] != '(' && s[i] != ')' && (IsSpace(s[i]) ==> depth > 0)
    ensures BareEnd(s, i, depth, false) == BareEnd(s, i + 1, depth, false)
  {
  }

  lemma EscapeIsPassed(s: string, i: nat, depth: nat)
    requires i + 2 <= |s| && s[i] == '\\'
    ensures BareEnd(s, i, depth, false) == BareEnd(s, i + 2, depth, false)
  {
    assert BareEnd(s, i, depth, false) == BareEnd(s, i + 1, depth, true);
  }

  lemma ParensPair(s: string, i: nat, end: nat, depth: nat)
    requires i < end < |s| && s[i] == '(' && s[end] == ')'
    requires BareEnd(s, i + 1, depth + 1, false) == BareEnd(s, end, depth + 1, false)
    ensures BareEnd(s, i, depth, false) == BareEnd(s, end + 1, depth, false)
  {
  }

  lemma ParenParts(s: string, inner: string, more: string, i: nat)
    requires OccursAt(s, "(" + (inner + (")" + more)), i)
    ensures var end := i + 1 + |inner|;
            s[i] == '(' && OccursAt(s, inner, i + 1) && s[end] == ')' && OccursAt(s, more, end + 1)
  {
    OccursSplit(s, "(", inner + (")" + more), i);
    OccursFirst(s, "(", i);
    OccursSplit(s, inner, ")" + more, i + 1);
    OccursSplit(s, ")", more, i + 1 + |inner|);
    OccursFirst(s, ")", i + 1 + |inner|);
  }

  /** A destination that begins right behind `](`. */
  lemma LinkIs(s: string, marker: nat, start: nat, w: string)
    requires start == marker + 2 < |s| && !IsSpace(s[start]) && s[start] != '<'
    requires OccursAt(s, w, start) && BareEnd(s, start, 0, false) == start + |w|
    ensures LinkAt(s, marker) == Some(Target(Newlines(s[..start]) + 1, start, w))
  {
    BareLink(s, marker, start, start + |w|);
  }

  /** A link that is written is reported, with its destination and its line. */
  lemma WrittenLinkIsReported(s: string, at: nat, d: Dest)
    requires PlainDest(d, 0) && OccursAt(s, "](" + (WriteDest(d) + ")"), at)
    requires var w := WriteDest(d); w != "" ==> w[0] != '<' && !IsSpace(w[0])
    ensures Target(Newlines(s[..at + 2]) + 1, at + 2, WriteDest(d)) in Links(s, 0)
  {
    var t := Target(Newlines(s[..at + 2]) + 1, at + 2, WriteDest(d));
    WrittenLinkIsRead(s, at, d, t);
    LinksAreMarkers(s, 0, at, t);
  }

  lemma WrittenLinkIsRead(s: string, at: nat, d: Dest, t: Target)
    requires PlainDest(d, 0) && OccursAt(s, "](" + (WriteDest(d) + ")"), at)
    requires var w := WriteDest(d); w != "" ==> w[0] != '<' && !IsSpace(w[0])
    requires t == Target(Newlines(s[..at + 2]) + 1, at + 2, WriteDest(d))
    ensures IsMarker(s, at) && LinkAt(s, at) == Some(t)
  {
    LinkParts(s, WriteDest(d), at);
    WrittenDestEnds(s, t.start, d);
    LinkIs(s, at, t.start, WriteDest(d));
  }

  lemma WrittenDestEnds(s: string, start: nat, d: Dest)
    requires PlainDest(d, 0) && OccursAt(s, WriteDest(d), start)
    requires var end := start + |WriteDest(d)|; end < |s| && s[end] == ')'
    ensures BareEnd(s, start, 0, false) == start + |WriteDest(d)|
  {
    DestIsPassed(d, s, start, start + |WriteDest(d)|, 0);
  }

  lemma LinkParts(s: string, w: string, at: nat)
    requires OccursAt(s, "](" + (w + ")"), at)
    ensures var start := at + 2;
            IsMarker(s, at) && OccursAt(s, w, start) && start + |w| < |s| && s[start + |w|] == ')'
            && s[start] == if w == "" then ')' else w[0]
  {
    OccursSplit(s, "](", w + ")", at);
    assert s[at..at + 2][0] == s[at] && s[at..at + 2][1] == s[at + 1];
    OccursSplit(s, w, ")", at + 2);
    OccursFirst(s, ")", at + 2 + |w|);
    OccursFirst(s, w + ")", at + 2);
  }

  /** The text with its code blocks blanked. */
  function WithoutBlocks(text: string): string {
    Concat(MaskedLines(KeepLines(text)))
  }

  ghost predicate OutsideCodeLines(text: string, i: nat) {
    forall k :: 0 <= k < |KeepLines(text)| && IsCodeLine(KeepLines(text), k) ==> !InLine(KeepLines(text), k, i)
  }

  lemma LinkPlace(s: string, marker: nat)
    requires marker + 2 <= |s| && LinkAt(s, marker).Some?
    ensures var t := LinkAt(s, marker).value; marker + 2 <= t.start <= |s| && t.line == Newlines(s[..t.start]) + 1
  {
  }

  /** Every link reported on the masked text stands in the original: its `](` is there
      in the same place, on no line of a code block and in no code span, and the reported
      line is its line in the original. */
  lemma ReportedLinksAreInPlace(text: string, t: Target)
    requires t in Links(Masked(text), 0)
    ensures t.start <= |text| && t.line == Newlines(text[..t.start]) + 1
    ensures exists marker :: 0 <= marker && marker + 2 <= t.start && IsMarker(text, marker)
                             && OutsideCodeLines(text, marker) && !InSpan(WithoutBlocks(text), marker)
  {
    var m := Masked(text);
    MaskKeepsPlaces(text);
    var marker := LinkComesFromMarker(m, 0, t);
    LinkPlace(m, marker);
    SameLineNumbers(m, text, t.start);
    assert IsMarker(text, marker);
    InlineBlanksSpans(WithoutBlocks(text), marker);
    forall k | 0 <= k < |KeepLines(text)| && IsCodeLine(KeepLines(text), k)
      ensures !InLine(KeepLines(text), k, marker)
    {
      if InLine(KeepLines(text), k, marker) { CodeLinesAreBlank(text, k, marker); }
    }
  }
}
