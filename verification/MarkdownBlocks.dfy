/** What masking does to a document, seen from how it is written: which lines are code,
    that everything outside of code survives, and that links written there are found. */
module MarkdownBlocks {
  import opened Text
  import opened MarkdownMask

  // ---- Lines ---------------------------------------------------------------

  /** At most two characters, both of which end lines. */
  ghost predicate IsEnding(e: string) {
    |e| <= 2 && forall k :: 0 <= k < |e| ==> IsBreak(e[k])
  }

  /** `kept` is `line` with its ending, which only the last line may lack. */
  ghost predicate Ends(kept: string, line: string, last: bool) {
    line <= kept && IsEnding(kept[|line|..]) && (!last ==> line != kept)
  }

  ghost predicate AllEnd(kept: seq<string>, lines: seq<string>) {
    |kept| == |lines| && forall k :: 0 <= k < |kept| ==> Ends(kept[k], lines[k], k == |kept| - 1)
  }

  /** The lines of a text with their endings are those without, each with its ending. */
  lemma {:induction false} KeptLinesAreLines(s: string)
    ensures AllEnd(KeepLines(s), SplitLines(s))
    decreases |s|
  {
    var n := LineEnd(s, 0);
    if s == "" {
    } else if n == |s| {
      WholeLineEnds(s);
    } else {
      var w := n + BreakWidth(s, n);
      KeptLinesAreLines(s[w..]);
      FirstLineEnds(s, n, w);
      OneMoreEnds(s[..w], s[..n], KeepLines(s[w..]), SplitLines(s[w..]));
    }
  }

  lemma WholeLineEnds(s: string)
    ensures AllEnd([s], [s])
  {
    assert s[|s|..] == "";
  }

  lemma FirstLineEnds(s: string, n: nat, w: nat)
    requires n < |s| && IsBreak(s[n]) && w == n + BreakWidth(s, n)
    ensures Ends(s[..w], s[..n], false)
  {
    assert s[..w][..n] == s[..n];
  }

  lemma OneMoreEnds(kept: string, line: string, keeps: seq<string>, lines: seq<string>)
    requires Ends(kept, line, false) && AllEnd(keeps, lines)
    ensures AllEnd([kept] + keeps, [line] + lines)
  {
  }

  /** A line written with its ending. */
  ghost predicate IsLine(line: string) {
    exists l: string, sep: string :: Unbroken(l) && (sep == "\n" || sep == "\r\n") && line == l + sep
  }

  /** Lines written one after the other are the lines of the text. */
  lemma {:induction false} WrittenLinesAreKept(lines: seq<string>)
    requires forall k :: 0 <= k < |lines| ==> IsLine(lines[k])
    ensures KeepLines(Concat(lines)) == lines
  {
    if lines == [] {
    } else {
      assert lines == [lines[0]] + lines[1..];
      ConcatCons(lines[0], lines[1..]);
      WrittenLinesAreKept(lines[1..]);
      KeepFirst(lines[0], Concat(lines[1..]));
    }
  }

  lemma KeepFirst(line: string, rest: string)
    requires IsLine(line)
    ensures KeepLines(line + rest) == [line] + KeepLines(rest)
  {
    var l: string, sep: string :| Unbroken(l) && (sep == "\n" || sep == "\r\n") && line == l + sep;
    var s := l + (sep + rest);
    Assoc(l, sep, rest);
    LineAndRest(l, sep, rest);
    WidthOfBoundary(s, |l|, sep, rest);
    forall k | 0 <= k < |l| ensures !IsBreak(s[k]) { assert s[k] == l[k]; }
    LineEndIs(s, |l|);
    assert s[..|l| + |sep|] == l + sep;
  }

  // ---- How fences are written ----------------------------------------------

  function Many(c: char, n: nat): (s: string)
    ensures |s| == n && forall k :: 0 <= k < n ==> s[k] == c
  {
    seq(n, _ => c)
  }

  ghost predicate LineEnds(e: string) {
    forall k :: 0 <= k < |e| ==> IsLineEnd(e[k])
  }

  predicate FenceChar(c: char) {
    c == '`' || c == '~'
  }

  /** Up to three spaces, `n` times the same fence character, what may follow, and the end
      of the line. */
  ghost predicate OpensWith(line: string, c: char, n: nat, indent: nat, info: string, e: string) {
    && FenceChar(c) && n >= 3 && indent <= 3 && LineEnds(e)
    && line == Many(' ', indent) + (Many(c, n) + (info + e))
    && (info != "" ==> info[0] != c && !IsLineEnd(info[|info| - 1]))
  }

  ghost predicate OpensAs(line: string, c: char, n: nat) {
    exists indent: nat, info: string, e: string :: OpensWith(line, c, n, indent, info, e)
  }

  /** Up to three spaces, at least `length` fence characters, blanks, and the end of the
      line. */
  ghost predicate ClosesWith(line: string, c: char, length: nat, indent: nat, n: nat, blanks: string, e: string) {
    && indent <= 3 && n >= length && LineEnds(e)
    && line == Many(' ', indent) + (Many(c, n) + (blanks + e))
    && forall k :: 0 <= k < |blanks| ==> blanks[k] == ' ' || blanks[k] == '\t'
  }

  ghost predicate ClosesAs(line: string, c: char, length: nat) {
    exists indent: nat, n: nat, blanks: string, e: string :: ClosesWith(line, c, length, indent, n, blanks, e)
  }

  lemma {:induction false} BareIs(b: string, e: string)
    requires LineEnds(e) && (b != "" ==> !IsLineEnd(b[|b| - 1]))
    ensures Bare(b + e) == b
  {
    if e == "" {
      assert b + e == b;
    } else {
      BareIs(b, e[..|e| - 1]);
      assert (b + e)[..|b + e| - 1] == b + e[..|e| - 1];
    }
  }

  lemma {:induction false} BareRest(line: string)
    ensures LineEnds(line[|Bare(line)|..]) && (Bare(line) != "" ==> !IsLineEnd(Bare(line)[|Bare(line)| - 1]))
    ensures line == Bare(line) + line[|Bare(line)|..]
  {
    if line == "" {
    } else if IsLineEnd(line[|line| - 1]) {
      var front := line[..|line| - 1];
      BareRest(front);
      assert line[|Bare(front)|..] == front[|Bare(front)|..] + [line[|line| - 1]];
    } else {
      assert line[|line|..] == "";
    }
  }

  /** The two runs at the front of a line. */
  lemma RunsAre(indent: nat, c: char, n: nat, tail: string)
    requires c != ' ' && n > 0 && (tail != "" ==> tail[0] != c)
    ensures var s := Many(' ', indent) + (Many(c, n) + tail);
            && |s| == indent + n + |tail| && RunOf(s, 0, ' ') == indent && s[indent] == c
            && RunOf(s, indent, c) == n && s[indent + n..] == tail
  {
    var s := Many(' ', indent) + (Many(c, n) + tail);
    assert s[indent] == c && s[indent + n..] == tail;
    assert indent + n < |s| ==> s[indent + n] == tail[0];
    RunIs(s, 0, ' ', indent);
    RunIs(s, indent, c, n);
  }

  /** A bare line cut into its two runs and the rest. */
  lemma CutAtRuns(s: string, c: char, indent: nat, n: nat)
    requires indent == RunOf(s, 0, ' ') && indent + n <= |s| && n == RunOf(s, indent, c)
    ensures s == Many(' ', indent) + (Many(c, n) + s[indent + n..])
  {
    var j := indent + n;
    StretchIsMany(s, 0, indent, ' ', indent);
    StretchIsMany(s, indent, j, c, n);
    ThreeParts(s, indent, j);
  }

  lemma StretchIsMany(s: string, i: nat, j: nat, c: char, n: nat)
    requires i <= j <= |s| && n == j - i && forall k :: i <= k < j ==> s[k] == c
    ensures s[i..j] == Many(c, n)
  {
  }

  lemma ThreeParts(s: string, i: nat, j: nat)
    requires i <= j <= |s|
    ensures s == s[0..i] + (s[i..j] + s[j..])
  {
  }

  /** The written forms are exactly the lines that open a fence. */
  lemma OpeningIff(line: string, c: char, n: nat)
    ensures Opening(line) == Some(Fence(c, n)) <==> OpensAs(line, c, n)
  {
    if Opening(line) == Some(Fence(c, n)) { OpensForward(line, c, n); }
    if OpensAs(line, c, n) {
      var indent: nat, info: string, e: string :| OpensWith(line, c, n, indent, info, e);
      OpensBack(line, c, n, indent, info, e);
    }
  }

  lemma OpensForward(line: string, c: char, n: nat)
    requires Opening(line) == Some(Fence(c, n))
    ensures OpensAs(line, c, n)
  {
    var s := Bare(line);
    var indent := RunOf(s, 0, ' ');
    BareRest(line);
    assert n == RunOf(s, indent, c);
    CutAtRuns(s, c, indent, n);
    TailOf(s, indent + n);
    OpensFrom(line, s, line[|s|..], c, n, indent, s[indent + n..]);
  }

  lemma OpensFrom(line: string, s: string, e: string, c: char, n: nat, indent: nat, info: string)
    requires line == s + e && s == Many(' ', indent) + (Many(c, n) + info) && LineEnds(e)
    requires FenceChar(c) && n >= 3 && indent <= 3
    requires info != "" ==> info[0] != c && !IsLineEnd(info[|info| - 1])
    ensures OpensAs(line, c, n)
  {
    Reassociate(Many(' ', indent), Many(c, n), info, e);
    assert OpensWith(line, c, n, indent, info, e);
  }

  lemma TailOf(s: string, i: nat)
    requires i <= |s|
    ensures var t := s[i..]; t != "" ==> t[0] == s[i] && t[|t| - 1] == s[|s| - 1]
  {
  }

  lemma Reassociate(a: string, b: string, c: string, d: string)
    ensures (a + (b + c)) + d == a + (b + (c + d))
  {
    Assoc(a, b + c, d);
    Assoc(b, c, d);
  }

  lemma OpensBack(line: string, c: char, n: nat, indent: nat, info: string, e: string)
    requires OpensWith(line, c, n, indent, info, e)
    ensures Opening(line) == Some(Fence(c, n))
  {
    var s := Many(' ', indent) + (Many(c, n) + info);
    Reassociate(Many(' ', indent), Many(c, n), info, e);
    RunsAre(indent, c, n, info);
    LastOf(s, indent, c, n, info);
    BareIs(s, e);
  }

  lemma LastOf(s: string, indent: nat, c: char, n: nat, tail: string)
    requires s == Many(' ', indent) + (Many(c, n) + tail) && n > 0
    ensures s[|s| - 1] == if tail == "" then c else tail[|tail| - 1]
  {
  }

  /** And those that close it. */
  lemma ClosingIff(line: string, f: Fence)
    requires FenceChar(f.c) && f.length > 0
    ensures Closing(line, f) <==> ClosesAs(line, f.c, f.length)
  {
    if Closing(line, f) { ClosesForward(line, f); }
    if ClosesAs(line, f.c, f.length) {
      var indent: nat, n: nat, blanks: string, e: string :| ClosesWith(line, f.c, f.length, indent, n, blanks, e);
      ClosesBack(line, f, indent, n, blanks, e);
    }
  }

  lemma ClosesForward(line: string, f: Fence)
    requires Closing(line, f)
    ensures ClosesAs(line, f.c, f.length)
  {
    var s := Bare(line);
    var indent := RunOf(s, 0, ' ');
    var n := RunOf(s, indent, f.c);
    BareRest(line);
    CutAtRuns(s, f.c, indent, n);
    TailIsBlank(s, indent + n);
    ClosesFrom(line, s, line[|s|..], f, n, indent, s[indent + n..]);
  }

  lemma ClosesFrom(line: string, s: string, e: string, f: Fence, n: nat, indent: nat, blanks: string)
    requires line == s + e && s == Many(' ', indent) + (Many(f.c, n) + blanks) && LineEnds(e)
    requires n >= f.length && indent <= 3 && forall k :: 0 <= k < |blanks| ==> blanks[k] == ' ' || blanks[k] == '\t'
    ensures ClosesAs(line, f.c, f.length)
  {
    Reassociate(Many(' ', indent), Many(f.c, n), blanks, e);
    assert ClosesWith(line, f.c, f.length, indent, n, blanks, e);
  }

  lemma TailIsBlank(s: string, i: nat)
    requires i <= |s| && forall k :: i <= k < |s| ==> s[k] == ' ' || s[k] == '\t'
    ensures forall k :: 0 <= k < |s| - i ==> s[i..][k] == ' ' || s[i..][k] == '\t'
  {
  }

  lemma ClosesBack(line: string, f: Fence, indent: nat, n: nat, blanks: string, e: string)
    requires FenceChar(f.c) && f.length > 0 && ClosesWith(line, f.c, f.length, indent, n, blanks, e)
    ensures Closing(line, f)
  {
    var s := Many(' ', indent) + (Many(f.c, n) + blanks);
    Reassociate(Many(' ', indent), Many(f.c, n), blanks, e);
    RunsAre(indent, f.c, n, blanks);
    LastOf(s, indent, f.c, n, blanks);
    BareIs(s, e);
    forall k | indent + n <= k < |s| ensures s[k] == ' ' || s[k] == '\t' {
      assert s[k] == s[indent + n..][k - indent - n];
    }
  }

  // ---- Which lines are code ------------------------------------------------

  /** A document is prose lines, lines indented as code, and fenced blocks. */
  datatype Block = Prose(line: string) | Code(line: string) | Fenced(open: string, body: seq<string>, close: string)

  ghost predicate StartsIndented(line: string) {
    "    " <= line || "\t" <= line
  }

  ghost predicate OpensFence(line: string) {
    exists c: char, n: nat :: OpensAs(line, c, n)
  }

  ghost predicate IsBlock(b: Block) {
    match b
    case Prose(line) => !OpensFence(line) && !StartsIndented(line)
    case Code(line) => !OpensFence(line) && StartsIndented(line)
    case Fenced(open, body, close) =>
      exists c: char, n: nat :: IsFenced(open, body, close, c, n)
  }

  ghost predicate IsFenced(open: string, body: seq<string>, close: string, c: char, n: nat) {
    OpensAs(open, c, n) && ClosesAs(close, c, n) && NoneCloses(body, c, n)
  }

  ghost predicate NoneCloses(body: seq<string>, c: char, n: nat) {
    forall k :: 0 <= k < |body| ==> !ClosesAs(body[k], c, n)
  }

  function LinesOf(b: Block): seq<string> {
    match b
    case Prose(line) => [line]
    case Code(line) => [line]
    case Fenced(open, body, close) => [open] + (body + [close])
  }

  function AllLines(bs: seq<Block>): seq<string> {
    if bs == [] then [] else AllLines(bs[..|bs| - 1]) + LinesOf(bs[|bs| - 1])
  }

  /** Line by line, whether it is in a block of code. */
  function CodeFlags(bs: seq<Block>): (flags: seq<bool>)
    ensures |flags| == |AllLines(bs)|
  {
    if bs == [] then [] else
    var b := bs[|bs| - 1];
    CodeFlags(bs[..|bs| - 1]) + seq(|LinesOf(b)|, _ => !b.Prose?)
  }

  lemma {:induction false} FenceOfFront(lines: seq<string>, more: seq<string>, k: nat)
    requires k <= |lines|
    ensures OpenFence(lines + more, k) == OpenFence(lines, k)
  {
    if k == 0 {
    } else {
      FenceOfFront(lines, more, k - 1);
    }
  }

  /** The lines of a document that are code are those of its code blocks, and no fence is
      open behind it. */
  lemma {:induction false} BlocksAreCode(bs: seq<Block>)
    requires forall j :: 0 <= j < |bs| ==> IsBlock(bs[j])
    ensures OpenFence(AllLines(bs), |AllLines(bs)|) == None
    ensures forall k :: 0 <= k < |AllLines(bs)| ==> (IsCodeLine(AllLines(bs), k) <==> CodeFlags(bs)[k])
  {
    if bs == [] {
    } else {
      var front, b := bs[..|bs| - 1], bs[|bs| - 1];
      var lines, more := AllLines(front), LinesOf(b);
      BlocksAreCode(front);
      BlockIsCode(lines, b);
      forall k | 0 <= k < |lines| + |more| ensures IsCodeLine(lines + more, k) <==> CodeFlags(bs)[k] {
        if k < |lines| { FenceOfFront(lines, more, k); }
      }
    }
  }

  /** From line `at` on all lines are code, or none is, and no fence is open behind them. */
  ghost predicate Shown(all: seq<string>, at: nat, code: bool) {
    OpenFence(all, |all|) == None && forall k :: at <= k < |all| ==> (IsCodeLine(all, k) <==> code)
  }

  lemma BlockIsCode(lines: seq<string>, b: Block)
    requires OpenFence(lines, |lines|) == None && IsBlock(b)
    ensures Shown(lines + LinesOf(b), |lines|, !b.Prose?)
  {
    FenceOfFront(lines, LinesOf(b), |lines|);
    match b
    case Prose(line) => LineAlone(lines + [line], |lines|, line);
    case Code(line) => LineAlone(lines + [line], |lines|, line);
    case Fenced(open, body, close) => FencedLines(lines, open, body, close);
  }

  lemma LineAlone(all: seq<string>, at: nat, line: string)
    requires |all| == at + 1 && all[at] == line && OpenFence(all, at) == None && !OpensFence(line)
    ensures Shown(all, at, StartsIndented(line))
  {
    NotOpening(line);
  }

  lemma FencedLines(lines: seq<string>, open: string, body: seq<string>, close: string)
    requires OpenFence(lines + ([open] + (body + [close])), |lines|) == None && IsBlock(Fenced(open, body, close))
    ensures Shown(lines + ([open] + (body + [close])), |lines|, true)
  {
    var c: char, n: nat :| IsFenced(open, body, close, c, n);
    var all, at := lines + ([open] + (body + [close])), |lines|;
    FencedParts(lines, open, body, close, all, at);
    FencedIsCode(all, at, open, body, close, c, n);
  }

  lemma FencedParts(lines: seq<string>, open: string, body: seq<string>, close: string, all: seq<string>, at: nat)
    requires all == lines + ([open] + (body + [close])) && at == |lines|
    ensures |all| == at + |body| + 2 && all[at] == open && all[|all| - 1] == close
    ensures all[at + 1..at + 1 + |body|] == body
  {
  }

  lemma FencedIsCode(all: seq<string>, at: nat, open: string, body: seq<string>, close: string, c: char, n: nat)
    requires |all| == at + |body| + 2 && all[at] == open && all[|all| - 1] == close
    requires all[at + 1..at + 1 + |body|] == body && OpenFence(all, at) == None && IsFenced(open, body, close, c, n)
    ensures Shown(all, at, true)
  {
    OpenedIsCode(all, at, body, c, n);
    ClosingIff(close, Fence(c, n));
  }

  /** The opening line, the body, and whatever line comes behind. */
  lemma OpenedIsCode(all: seq<string>, at: nat, body: seq<string>, c: char, n: nat)
    requires at + 1 + |body| <= |all| && all[at + 1..at + 1 + |body|] == body && OpenFence(all, at) == None
    requires OpensAs(all[at], c, n) && NoneCloses(body, c, n)
    ensures OpenFence(all, at + 1 + |body|) == Some(Fence(c, n))
    ensures forall k :: at <= k <= at + 1 + |body| && k < |all| ==> IsCodeLine(all, k)
  {
    OpeningIff(all[at], c, n);
    FenceStaysOpen(all, at, body, c, n, |body|);
    forall k | at <= k <= at + 1 + |body| && k < |all| ensures IsCodeLine(all, k) {
      if k > at { OpenedLine(all, at, body, c, n, k); }
    }
  }

  lemma OpenedLine(all: seq<string>, at: nat, body: seq<string>, c: char, n: nat, k: nat)
    requires at + 1 + |body| <= |all| && all[at + 1..at + 1 + |body|] == body && OpenFence(all, at) == None
    requires Opening(all[at]) == Some(Fence(c, n)) && FenceChar(c) && n > 0 && NoneCloses(body, c, n)
    requires at < k <= at + 1 + |body| && k < |all|
    ensures IsCodeLine(all, k)
  {
    FenceStaysOpen(all, at, body, c, n, k - at - 1);
  }

  lemma NotOpening(line: string)
    requires !OpensFence(line)
    ensures Opening(line) == None
    ensures Indented(line) <==> StartsIndented(line)
  {
    if Opening(line).Some? {
      var f := Opening(line).value;
      OpeningIff(line, f.c, f.length);
    }
  }

  lemma {:induction false} FenceStaysOpen(all: seq<string>, at: nat, body: seq<string>, c: char, n: nat, j: nat)
    requires j <= |body| && at + 1 + |body| <= |all| && all[at + 1..at + 1 + |body|] == body
    requires OpenFence(all, at) == None && Opening(all[at]) == Some(Fence(c, n)) && FenceChar(c) && n > 0
    requires NoneCloses(body, c, n)
    ensures OpenFence(all, at + 1 + j) == Some(Fence(c, n))
  {
    if j == 0 {
    } else {
      FenceStaysOpen(all, at, body, c, n, j - 1);
      assert all[at + j] == body[j - 1];
      ClosingIff(body[j - 1], Fence(c, n));
    }
  }

  /** A fence that is never closed makes code of all that follows. */
  lemma UnclosedFenceIsCode(bs: seq<Block>, open: string, body: seq<string>, c: char, n: nat)
    requires forall j :: 0 <= j < |bs| ==> IsBlock(bs[j])
    requires OpensAs(open, c, n) && NoneCloses(body, c, n)
    ensures var all := AllLines(bs) + ([open] + body);
            && (forall k :: 0 <= k < |AllLines(bs)| ==> (IsCodeLine(all, k) <==> CodeFlags(bs)[k]))
            && forall k :: |AllLines(bs)| <= k < |all| ==> IsCodeLine(all, k)
  {
    BlocksAreCode(bs);
    FrontIsUnchanged(AllLines(bs), [open] + body);
    OpenTailIsCode(AllLines(bs), open, body, c, n);
  }

  lemma OpenTailIsCode(lines: seq<string>, open: string, body: seq<string>, c: char, n: nat)
    requires OpenFence(lines, |lines|) == None
    requires OpensAs(open, c, n) && NoneCloses(body, c, n)
    ensures var all := lines + ([open] + body); forall k :: |lines| <= k < |all| ==> IsCodeLine(all, k)
  {
    var all, at := lines + ([open] + body), |lines|;
    FenceOfFront(lines, [open] + body, at);
    TailParts(lines, open, body, all, at);
    OpenedIsCode(all, at, body, c, n);
  }

  lemma FrontIsUnchanged(lines: seq<string>, more: seq<string>)
    ensures OpenFence(lines + more, |lines|) == OpenFence(lines, |lines|)
    ensures forall k :: 0 <= k < |lines| ==> (IsCodeLine(lines + more, k) <==> IsCodeLine(lines, k))
  {
    FenceOfFront(lines, more, |lines|);
    forall k | 0 <= k < |lines| ensures IsCodeLine(lines + more, k) <==> IsCodeLine(lines, k) {
      FenceOfFront(lines, more, k);
    }
  }

  lemma TailParts(lines: seq<string>, open: string, body: seq<string>, all: seq<string>, at: nat)
    requires all == lines + ([open] + body) && at == |lines|
    ensures |all| == at + 1 + |body| && all[at] == open && all[at + 1..at + 1 + |body|] == body
  {
  }

  // ---- What survives -------------------------------------------------------

  lemma {:induction false} LineOfPlace(lines: seq<string>, i: nat) returns (k: nat)
    requires i < |Concat(lines)|
    ensures k < |lines| && InLine(lines, k, i)
  {
    var n := |lines| - 1;
    assert lines[..n + 1] == lines;
    if i < |Concat(lines[..n])| {
      k := LineOfPlace(lines[..n], i);
      assert lines[..n][..k] == lines[..k];
    } else {
      k := n;
    }
  }

  /** With the code blocks blanked, every place outside of them is as it was. */
  lemma BlocksAreBlanked(text: string, i: nat)
    requires i < |text|
    ensures |WithoutBlocks(text)| == |text|
    ensures WithoutBlocks(text)[i] == if OutsideCodeLines(text, i) then text[i] else BlankChar(text[i])
  {
    var lines := KeepLines(text);
    var masked := MaskedLines(lines);
    KeptLinesJoin(text);
    MaskedKeepsPlaces(lines, masked);
    var k := LineOfPlace(lines, i);
    PlaceIsMasked(lines, k, i);
    if !OutsideCodeLines(text, i) {
      var j :| 0 <= j < |lines| && IsCodeLine(lines, j) && InLine(lines, j, i);
      PlaceIsMasked(lines, j, i);
    }
  }

  lemma PlaceIsMasked(lines: seq<string>, k: nat, i: nat)
    requires k < |lines| && InLine(lines, k, i)
    ensures var masked := MaskedLines(lines);
            && i < |Concat(lines)| && i < |Concat(masked)|
            && Concat(masked)[i] == if IsCodeLine(lines, k) then BlankChar(Concat(lines)[i]) else Concat(lines)[i]
  {
    var masked := MaskedLines(lines);
    SameOffsets(lines, masked, k);
    CharOfLine(lines, k, i);
    CharOfLine(masked, k, i);
  }

  /** The whole of masking, place by place: blank on the lines of code and in code spans,
      line ends excepted, and unchanged everywhere else. */
  lemma MaskedMeans(text: string, i: nat)
    requires i < |text|
    ensures |Masked(text)| == |text|
    ensures Masked(text)[i] == if OutsideCodeLines(text, i) && !InSpan(WithoutBlocks(text), i) then text[i]
                               else if text[i] == '\n' || text[i] == '\r' then text[i] else ' '
  {
    BlocksAreBlanked(text, i);
    InlineBlanksSpans(WithoutBlocks(text), i);
  }

  /** A written document: the lines of its code blocks are blanked, and on every other line
      all that is not in a code span is left alone. */
  lemma DocumentIsMasked(bs: seq<Block>, k: nat, i: nat)
    requires forall j :: 0 <= j < |bs| ==> IsBlock(bs[j])
    requires forall j :: 0 <= j < |AllLines(bs)| ==> IsLine(AllLines(bs)[j])
    requires k < |AllLines(bs)| && InLine(AllLines(bs), k, i)
    ensures var text := Concat(AllLines(bs));
            && i < |text| == |Masked(text)|
            && Masked(text)[i] == if CodeFlags(bs)[k] || InSpan(WithoutBlocks(text), i) then BlankChar(text[i])
                                  else text[i]
  {
    var lines := AllLines(bs);
    var text := Concat(lines);
    WrittenLinesAreKept(lines);
    CharOfLine(lines, k, i);
    BlocksAreCode(bs);
    MaskedMeans(text, i);
    forall j | 0 <= j < |lines| && InLine(lines, j, i) ensures j == k { OneLineEach(lines, j, k, i); }
  }

  lemma OneLineEach(lines: seq<string>, j: nat, k: nat, i: nat)
    requires j < |lines| && k < |lines| && InLine(lines, j, i) && InLine(lines, k, i)
    ensures j == k
  {
    if j < k { OffsetsGrow(lines, j, k); }
    if k < j { OffsetsGrow(lines, k, j); }
  }

  lemma {:induction false} OffsetsGrow(lines: seq<string>, j: nat, k: nat)
    requires j < k <= |lines|
    ensures Offset(lines, j) + |lines[j]| <= Offset(lines, k)
  {
    var n := k - 1;
    assert lines[..k][..n] == lines[..n];
    if j < n { OffsetsGrow(lines, j, n); }
  }

  // ---- Links ---------------------------------------------------------------

  lemma {:induction false} SpaceIsSkipped(s: string, i: nat, j: nat)
    requires i <= j <= |s| && (forall k :: i <= k < j ==> IsSpace(s[k])) && (j < |s| ==> !IsSpace(s[j]))
    ensures SkipSpace(s, i) == j
    decreases j - i
  {
    if i < j { SpaceIsSkipped(s, i + 1, j); }
  }

  /** Where a bare destination may end. */
  predicate Stops(s: string, end: nat, w: string) {
    end == |s| || (end < |s| && (s[end] == ')' || (w != "" && IsSpace(s[end]))))
  }

  /** A link is reported with its destination and its line whatever white space stands in
      front of that, and whether a title follows or not. */
  lemma SpacedLinkIsReported(s: string, at: nat, gap: string, d: Dest, start: nat)
    requires PlainDest(d, 0) && Blanks(gap) && OccursAt(s, "](" + (gap + WriteDest(d)), at)
    requires var w := WriteDest(d); w != "" ==> w[0] != '<' && !IsSpace(w[0])
    requires start == at + 2 + |gap| && Stops(s, start + |WriteDest(d)|, WriteDest(d))
    ensures start <= |s| && Target(Newlines(s[..start]) + 1, start, WriteDest(d)) in Links(s, 0)
  {
    StretchFits(s, "](" + (gap + WriteDest(d)), at, start);
    SpacedLinkIsRead(s, at, gap, d, start, Target(Newlines(s[..start]) + 1, start, WriteDest(d)));
    ReadIsReported(s, at, start, WriteDest(d));
  }

  lemma SpacedLinkIsRead(s: string, at: nat, gap: string, d: Dest, start: nat, t: Target)
    requires PlainDest(d, 0) && Blanks(gap) && OccursAt(s, "](" + (gap + WriteDest(d)), at)
    requires var w := WriteDest(d); w != "" ==> w[0] != '<' && !IsSpace(w[0])
    requires start == at + 2 + |gap| && Stops(s, start + |WriteDest(d)|, WriteDest(d))
    requires t == Target(Newlines(s[..start]) + 1, start, WriteDest(d))
    ensures IsMarker(s, at) && LinkAt(s, at) == Some(t)
  {
    SpacedParts(s, at, gap, WriteDest(d), start);
    SpacedDestEnds(s, start, d);
    BareLinkIs(s, at, start, WriteDest(d));
  }

  lemma BareLinkIs(s: string, at: nat, start: nat, w: string)
    requires at + 2 <= start <= |s| && SkipSpace(s, at + 2) == start && OccursAt(s, w, start)
    requires (start < |s| ==> s[start] != '<') && BareEnd(s, start, 0, false) == start + |w|
    ensures LinkAt(s, at) == Some(Target(Newlines(s[..start]) + 1, start, w))
  {
    BareLink(s, at, start, start + |w|);
  }

  lemma SpacedDestEnds(s: string, start: nat, d: Dest)
    requires PlainDest(d, 0) && OccursAt(s, WriteDest(d), start) && Stops(s, start + |WriteDest(d)|, WriteDest(d))
    ensures BareEnd(s, start, 0, false) == start + |WriteDest(d)|
  {
    DestIsPassed(d, s, start, start + |WriteDest(d)|, 0);
  }

  lemma SpacedParts(s: string, at: nat, gap: string, w: string, start: nat)
    requires Blanks(gap) && OccursAt(s, "](" + (gap + w), at) && start == at + 2 + |gap|
    requires if w != "" then !IsSpace(w[0]) else start < |s| ==> !IsSpace(s[start])
    ensures start <= |s| && IsMarker(s, at) && OccursAt(s, w, start) && SkipSpace(s, at + 2) == start
    ensures w != "" ==> s[start] == w[0]
  {
    OccursSplit(s, "](", gap + w, at);
    assert s[at..at + 2][0] == s[at] && s[at..at + 2][1] == s[at + 1];
    OccursSplit(s, gap, w, at + 2);
    forall k | at + 2 <= k < start ensures IsSpace(s[k]) { assert s[k] == s[at + 2..start][k - at - 2]; }
    if w != "" { OccursFirst(s, w, start); }
    SpaceIsSkipped(s, at + 2, start);
  }

  /** `](`, white space, and a destination in angle brackets that begins at `start`. */
  ghost predicate AngleAt(s: string, at: nat, gap: string, w: string, start: nat) {
    && Blanks(gap) && OccursAt(s, "](" + (gap + ("<" + (w + ">"))), at) && start == at + 3 + |gap|
    && forall k :: 0 <= k < |w| ==> w[k] != '>' && !IsLineEnd(w[k])
  }

  /** The same for a destination in angle brackets. */
  lemma AngleLinkIsReported(s: string, at: nat, gap: string, w: string, start: nat)
    requires AngleAt(s, at, gap, w, start)
    ensures start <= |s| && Target(Newlines(s[..start]) + 1, start, w) in Links(s, 0)
  {
    AngleLinkIsRead(s, at, gap, w, start);
    ReadIsReported(s, at, start, w);
  }

  lemma ReadIsReported(s: string, at: nat, start: nat, w: string)
    requires IsMarker(s, at) && start <= |s| && LinkAt(s, at) == Some(Target(Newlines(s[..start]) + 1, start, w))
    ensures Target(Newlines(s[..start]) + 1, start, w) in Links(s, 0)
  {
    var t := LinkAt(s, at).value;
    LinksAreMarkers(s, 0, at, t);
  }

  lemma StretchFits(s: string, w: string, at: nat, i: nat)
    requires OccursAt(s, w, at) && at <= i <= at + |w|
    ensures i <= |s|
  {
  }

  lemma AngleLinkIsRead(s: string, at: nat, gap: string, w: string, start: nat)
    requires AngleAt(s, at, gap, w, start)
    ensures IsMarker(s, at) && start <= |s|
    ensures LinkAt(s, at) == Some(Target(Newlines(s[..start]) + 1, start, w))
  {
    var open := start - 1;
    SpacedParts(s, at, gap, "<" + (w + ">"), open);
    AngleParts(s, open, w);
    AngleEndIs(s, open + 1, open + 1 + |w|);
    AngleLink(s, at, open, open + 1 + |w|);
  }

  lemma AngleParts(s: string, open: nat, w: string)
    requires OccursAt(s, "<" + (w + ">"), open) && forall k :: 0 <= k < |w| ==> w[k] != '>' && !IsLineEnd(w[k])
    ensures var end := open + 1 + |w|;
            && end < |s| && s[open] == '<' && s[open + 1..end] == w && s[end] == '>'
            && forall k :: open + 1 <= k < end ==> s[k] != '>' && !IsLineEnd(s[k])
  {
    var end := open + 1 + |w|;
    OccursFirst(s, "<" + (w + ">"), open);
    OccursSplit(s, "<", w + ">", open);
    OccursSplit(s, w, ">", open + 1);
    OccursFirst(s, ">", end);
    forall k | open + 1 <= k < end ensures s[k] != '>' && !IsLineEnd(s[k]) {
      assert s[k] == s[open + 1..end][k - open - 1];
    }
  }

  lemma {:induction false} AngleEndIs(s: string, i: nat, j: nat)
    requires i <= j < |s| && (s[j] == '>' || IsLineEnd(s[j]))
    requires forall k :: i <= k < j ==> s[k] != '>' && !IsLineEnd(s[k])
    ensures AngleEnd(s, i) == j
    decreases j - i
  {
    if i < j { AngleEndIs(s, i + 1, j); }
  }

  /** Links come in the order they stand in the text, each once. */
  ghost predicate Ordered(ts: seq<Target>, from: nat) {
    && (forall a, b :: 0 <= a < b < |ts| ==> ts[a].start < ts[b].start)
    && forall a :: 0 <= a < |ts| ==> ts[a].start >= from
  }

  ghost predicate OrderedFrom(s: string, index: nat) {
    if MarkerAt(s, index).Some? then Ordered(Links(s, index), MarkerAt(s, index).value + 2) else Links(s, index) == []
  }

  lemma {:induction false} LinksInOrder(s: string, index: nat)
    ensures OrderedFrom(s, index)
    decreases |s| - index
  {
    match MarkerAt(s, index)
    case None =>
    case Some(marker) =>
      LinksInOrder(s, marker + 2);
      OneMoreLink(s, index, marker);
  }

  lemma OneMoreLink(s: string, index: nat, marker: nat)
    requires MarkerAt(s, index) == Some(marker) && OrderedFrom(s, marker + 2)
    ensures OrderedFrom(s, index)
  {
    var found: seq<Target> := match LinkAt(s, marker) case None => [] case Some(t) => [t];
    LinksNext(s, index, marker, found);
    FoundIsFirst(s, marker, found, Links(s, marker + 2));
  }

  lemma FoundIsFirst(s: string, marker: nat, found: seq<Target>, rest: seq<Target>)
    requires marker + 2 <= |s| && found == match LinkAt(s, marker) case None => [] case Some(t) => [t]
    requires if MarkerAt(s, marker + 2).Some? then Ordered(rest, MarkerAt(s, marker + 2).value + 2) else rest == []
    ensures Ordered(found + rest, marker + 2)
  {
    if found == [] {
      assert [] + rest == rest;
    } else {
      LinkIsFirst(s, marker, found[0], rest);
    }
  }

  lemma LinkIsFirst(s: string, marker: nat, t: Target, rest: seq<Target>)
    requires marker + 2 <= |s| && LinkAt(s, marker) == Some(t)
    requires if MarkerAt(s, marker + 2).Some? then Ordered(rest, MarkerAt(s, marker + 2).value + 2) else rest == []
    ensures Ordered([t] + rest, marker + 2)
  {
    LinkPlace(s, marker);
    if MarkerAt(s, marker + 2).Some? { NextLinkIsLater(s, marker, t); }
  }

  /** The destination of a link begins in front of the next marker's parenthesis. */
  lemma NextLinkIsLater(s: string, marker: nat, t: Target)
    requires marker + 2 <= |s| && LinkAt(s, marker) == Some(t) && MarkerAt(s, marker + 2).Some?
    ensures t.start <= MarkerAt(s, marker + 2).value
  {
    var next := MarkerAt(s, marker + 2).value;
    assert s[next..next + 2][0] == s[next] == ']';
    SkipsNothingElse(s, marker + 2, next);
  }

  lemma {:induction false} SkipsNothingElse(s: string, i: nat, j: nat)
    requires i <= j < |s| && !IsSpace(s[j])
    ensures SkipSpace(s, i) <= j && !IsSpace(s[SkipSpace(s, i)])
    decreases j - i
  {
    if i < j && IsSpace(s[i]) { SkipsNothingElse(s, i + 1, j); }
  }

  /** A stretch of the text on no line of code and in no code span. */
  ghost predicate InTheOpen(text: string, from: nat, to: nat) {
    forall i :: from <= i < to ==> OutsideCodeLines(text, i) && !InSpan(WithoutBlocks(text), i)
  }

  lemma OpenStretchSurvives(text: string, w: string, at: nat)
    requires OccursAt(text, w, at) && InTheOpen(text, at, at + |w|)
    ensures |Masked(text)| == |text| && OccursAt(Masked(text), w, at)
  {
    MaskKeepsPlaces(text);
    var m := Masked(text);
    forall i | at <= i < at + |w| ensures m[i] == text[i] { MaskedMeans(text, i); }
    assert m[at..at + |w|] == text[at..at + |w|];
  }

  /** A target of a text with the same places is one of the text. */
  lemma SameTarget(m: string, text: string, start: nat, w: string, found: seq<Target>)
    requires KeepsPlaces(m, text) && start <= |m| && Target(Newlines(m[..start]) + 1, start, w) in found
    ensures start <= |text| && Target(Newlines(text[..start]) + 1, start, w) in found
  {
    SameLineNumbers(m, text, start);
  }

  lemma WrittenLinkInPlace(m: string, text: string, at: nat, d: Dest, start: nat)
    requires KeepsPlaces(m, text) && PlainDest(d, 0) && OccursAt(m, "](" + (WriteDest(d) + ")"), at)
    requires var w := WriteDest(d); w != "" ==> w[0] != '<' && !IsSpace(w[0])
    requires start == at + 2
    ensures start <= |text| && Target(Newlines(text[..start]) + 1, start, WriteDest(d)) in Links(m, 0)
  {
    WrittenLinkIsReported(m, at, d);
    SameTarget(m, text, start, WriteDest(d), Links(m, 0));
  }

  /** End to end: a link written outside of code is reported from the masked text, with its
      destination and with the line it is on in the original. */
  lemma LinkInTheOpenIsReported(text: string, at: nat, d: Dest, start: nat)
    requires PlainDest(d, 0) && OccursAt(text, "](" + (WriteDest(d) + ")"), at)
    requires var w := WriteDest(d); w != "" ==> w[0] != '<' && !IsSpace(w[0])
    requires start == at + 2 && InTheOpen(text, at, at + |WriteDest(d)| + 3)
    ensures start <= |text|
            && Target(Newlines(text[..start]) + 1, start, WriteDest(d)) in Links(Masked(text), 0)
  {
    OpenStretchSurvives(text, "](" + (WriteDest(d) + ")"), at);
    MaskKeepsPlaces(text);
    WrittenLinkInPlace(Masked(text), text, at, d, start);
  }

  lemma AngleLinkInPlace(m: string, text: string, at: nat, gap: string, w: string, start: nat)
    requires KeepsPlaces(m, text) && AngleAt(m, at, gap, w, start)
    ensures start <= |text| && Target(Newlines(text[..start]) + 1, start, w) in Links(m, 0)
  {
    AngleLinkIsReported(m, at, gap, w, start);
    SameTarget(m, text, start, w, Links(m, 0));
  }

  lemma AngleLinkInTheOpenIsReported(text: string, at: nat, gap: string, w: string, start: nat)
    requires AngleAt(text, at, gap, w, start)
    requires InTheOpen(text, at, at + |gap| + |w| + 4)
    ensures start <= |text| && Target(Newlines(text[..start]) + 1, start, w) in Links(Masked(text), 0)
  {
    OpenStretchSurvives(text, "](" + (gap + ("<" + (w + ">"))), at);
    MaskKeepsPlaces(text);
    AngleLinkInPlace(Masked(text), text, at, gap, w, start);
  }
}
