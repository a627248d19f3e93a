/** The parts of Python's `str` that the tools rely on: line splitting, trailing
    white space, joining, substring search and substring membership.  The line
    boundaries and the white space are the ones `str.splitlines` and `str.rstrip`
    use. */
module Text {

  datatype Option<+T> = None | Some(value: T)

  /** The characters at which `str.splitlines` ends a line. */
  predicate IsBreak(c: char) {
    var k := c as int;
    0x0A <= k <= 0x0D || 0x1C <= k <= 0x1E || k == 0x85 || k == 0x2028 || k == 0x2029
  }

  /** The characters `str.rstrip` and `str.isspace` treat as white space. */
  predicate IsSpace(c: char) {
    var k := c as int;
    0x09 <= k <= 0x0D || 0x1C <= k <= 0x20 || k == 0x85 || k == 0xA0 || k == 0x1680
    || 0x2000 <= k <= 0x200A || k == 0x2028 || k == 0x2029 || k == 0x202F || k == 0x205F || k == 0x3000
  }

  /** Both tables, character by character. */
  lemma BreaksAre(c: char)
    ensures IsBreak(c) <==> c in "\n\U{0B}\U{0C}\r\U{1C}\U{1D}\U{1E}\U{85}\U{2028}\U{2029}"
  {
  }

  lemma SpacesAre(c: char)
    ensures IsSpace(c)
       <==> IsBreak(c) || c == ' ' || c == '\t' || c == '\U{1F}' || c == '\U{A0}' || c == '\U{1680}'
            || '\U{2000}' <= c <= '\U{200A}' || c == '\U{202F}' || c == '\U{205F}' || c == '\U{3000}'
  {
  }

  predicate Unbroken(s: string) {
    forall k :: 0 <= k < |s| ==> !IsBreak(s[k])
  }

  /** The index of the first line boundary at or after `i`. */
  function LineEnd(s: string, i: nat): (n: nat)
    requires i <= |s|
    ensures i <= n <= |s|
    ensures forall k :: i <= k < n ==> !IsBreak(s[k])
    ensures n < |s| ==> IsBreak(s[n])
    decreases |s| - i
  {
    if i == |s| || IsBreak(s[i]) then i else LineEnd(s, i + 1)
  }

  /** A carriage return and the line feed after it are one boundary. */
  function BreakWidth(s: string, n: nat): (w: nat)
    requires n < |s|
    ensures 1 <= w <= 2 && n + w <= |s|
    ensures w == 2 ==> s[n] == '\r' && s[n + 1] == '\n'
  {
    if s[n] == '\r' && n + 1 < |s| && s[n + 1] == '\n' then 2 else 1
  }

  /** `s.splitlines()` */
  function SplitLines(s: string): (lines: seq<string>)
    ensures forall k :: 0 <= k < |lines| ==> Unbroken(lines[k])
    decreases |s|
  {
    if s == "" then [] else
    var n := LineEnd(s, 0);
    if n == |s| then [s] else [s[..n]] + SplitLines(s[n + BreakWidth(s, n)..])
  }

  /** `"\n".join(lines)` */
  function JoinLines(lines: seq<string>): string {
    if |lines| == 0 then "" else
    if |lines| == 1 then lines[0] else lines[0] + "\n" + JoinLines(lines[1..])
  }

  /** `s.rstrip()` */
  function RStrip(s: string): (t: string)
    ensures t <= s
    ensures forall k :: |t| <= k < |s| ==> IsSpace(s[k])
    ensures t != "" ==> !IsSpace(t[|t| - 1])
  {
    if s != "" && IsSpace(s[|s| - 1]) then RStrip(s[..|s| - 1]) else s
  }

  function RStripAll(lines: seq<string>): (r: seq<string>)
    ensures |r| == |lines|
    ensures forall k :: 0 <= k < |r| ==> r[k] == RStrip(lines[k])
  {
    if lines == [] then [] else [RStrip(lines[0])] + RStripAll(lines[1..])
  }

  predicate EndsWithNewline(s: string) {
    s != "" && s[|s| - 1] == '\n'
  }

  function FinalNewline(present: bool): string {
    if present then "\n" else ""
  }

  /** Lines without trailing white space and without a boundary inside. */
  predicate Trimmed(lines: seq<string>) {
    forall k :: 0 <= k < |lines| ==> Unbroken(lines[k]) && RStrip(lines[k]) == lines[k]
  }

  ghost predicate Blanks(s: string) {
    forall k :: 0 <= k < |s| ==> IsSpace(s[k])
  }

  /** `needle in hay` */
  ghost predicate Contains(hay: string, needle: string) {
    exists i :: OccursAt(hay, needle, i)
  }

  predicate OccursAt(hay: string, needle: string, i: int) {
    0 <= i <= |hay| - |needle| && hay[i..i + |needle|] == needle
  }

  predicate ContainsText(hay: string, needle: string)
    ensures ContainsText(hay, needle) <==> Contains(hay, needle)
  {
    exists i :: 0 <= i <= |hay| - |needle| && OccursAt(hay, needle, i)
  }

  lemma ContainsTrans(a: string, b: string, c: string)
    requires Contains(a, b) && Contains(b, c)
    ensures Contains(a, c)
  {
    var i :| OccursAt(a, b, i);
    var j :| OccursAt(b, c, j);
    var part := a[i + j..i + j + |c|];
    assert forall k :: 0 <= k < |c| ==> part[k] == b[j + k] == b[j..j + |c|][k];
    assert part == c;
    assert OccursAt(a, c, i + j);
  }

  lemma RStripKeeps(s: string)
    requires s == "" || !IsSpace(s[|s| - 1])
    ensures RStrip(s) == s
  {
  }

  lemma RStripTrimmed(l: string)
    requires Unbroken(l)
    ensures Unbroken(RStrip(l)) && RStrip(RStrip(l)) == RStrip(l)
  {
    var t := RStrip(l);
    assert forall k :: 0 <= k < |t| ==> t[k] == l[k];
    RStripKeeps(t);
  }

  lemma RStripAllTrimmed(lines: seq<string>)
    requires forall k :: 0 <= k < |lines| ==> Unbroken(lines[k])
    ensures Trimmed(RStripAll(lines))
  {
    forall k | 0 <= k < |lines| { RStripTrimmed(lines[k]); }
  }

  lemma TrimmedIsFixed(lines: seq<string>)
    requires Trimmed(lines)
    ensures RStripAll(lines) == lines
  {
  }

  lemma Assoc(a: string, b: string, c: string)
    ensures (a + b) + c == a + (b + c)
  {
  }

  lemma Regroup<T>(a: seq<T>, b: seq<T>, c: seq<T>)
    ensures (a + b) + c == a + (b + c)
  {
  }

  lemma MiddleIsContained(a: string, w: string, b: string)
    ensures Contains(a + (w + b), w)
  {
    assert OccursAt(a + (w + b), w, |a|);
  }

  /** Splitting off one line that ends in a newline. */
  lemma SplitFirst(l: string, rest: string)
    requires Unbroken(l)
    ensures SplitLines(l + "\n" + rest) == [l] + SplitLines(rest)
  {
    var s := l + "\n" + rest;
    var n := LineEnd(s, 0);
    assert s[|l|] == '\n';
    assert forall k :: 0 <= k < |l| ==> s[k] == l[k];
    assert n == |l|;
    assert s[..n] == l && s[n + 1..] == rest;
  }

  /** `sep` ends a line when `rest` follows it. */
  predicate IsBoundary(sep: string, rest: string) {
    sep == "\r\n" || (|sep| == 1 && IsBreak(sep[0]) && !(sep[0] == '\r' && rest != "" && rest[0] == '\n'))
  }

  /** Splitting off one line, whatever ends it. */
  lemma SplitAtBoundary(l: string, sep: string, rest: string)
    requires Unbroken(l) && IsBoundary(sep, rest)
    ensures SplitLines(l + (sep + rest)) == [l] + SplitLines(rest)
  {
    var s, n := l + (sep + rest), |l|;
    LineAndRest(l, sep, rest);
    WidthOfBoundary(s, n, sep, rest);
    forall k | 0 <= k < n ensures !IsBreak(s[k]) { assert s[k] == l[k]; }
    LineEndIs(s, n);
  }

  lemma LineEndIs(s: string, n: nat)
    requires n < |s| && IsBreak(s[n]) && forall k :: 0 <= k < n ==> !IsBreak(s[k])
    ensures LineEnd(s, 0) == n
  {
  }

  lemma WidthOfBoundary(s: string, n: nat, sep: string, rest: string)
    requires IsBoundary(sep, rest) && n + |sep| + |rest| == |s| && s[n..] == sep + rest
    ensures n < |s| && IsBreak(s[n]) && BreakWidth(s, n) == |sep|
  {
    var tail := s[n..];
    assert s[n] == tail[0] == sep[0];
    if n + 1 < |s| { assert s[n + 1] == tail[1] == if |sep| == 2 then sep[1] else rest[0]; }
  }

  lemma LineAndRest(l: string, sep: string, rest: string)
    ensures var s := l + (sep + rest); s[..|l|] == l && s[|l|..] == sep + rest && s[|l| + |sep|..] == rest
  {
  }

  lemma SplitWhole(l: string)
    requires Unbroken(l)
    ensures SplitLines(l) == if l == "" then [] else [l]
  {
  }

  /** Joining lines and ending them with a newline is undone by splitting. */
  lemma {:induction false} SplitJoinedEnded(lines: seq<string>)
    requires lines != [] && forall k :: 0 <= k < |lines| ==> Unbroken(lines[k])
    ensures SplitLines(JoinLines(lines) + "\n") == lines
  {
    if |lines| == 1 {
      SplitFirst(lines[0], "");
      assert lines[0] + "\n" + "" == lines[0] + "\n";
    } else {
      var first, joined := lines[0], JoinLines(lines[1..]);
      SplitJoinedEnded(lines[1..]);
      SplitFirst(first, joined + "\n");
      Assoc(first + "\n", joined, "\n");
      assert [first] + lines[1..] == lines;
    }
  }

  /** Without a final newline an empty last line is lost, and nothing else. */
  lemma {:induction false} SplitJoined(lines: seq<string>)
    requires forall k :: 0 <= k < |lines| ==> Unbroken(lines[k])
    ensures SplitLines(JoinLines(lines))
         == if lines != [] && lines[|lines| - 1] == "" then lines[..|lines| - 1] else lines
  {
    if |lines| == 1 {
      SplitWhole(lines[0]);
    } else if |lines| > 1 {
      SplitJoined(lines[1..]);
      SplitFirst(lines[0], JoinLines(lines[1..]));
    }
  }

  lemma {:induction false} JoinSnocEmpty(lines: seq<string>)
    requires lines != []
    ensures JoinLines(lines + [""]) == JoinLines(lines) + "\n"
  {
    if |lines| <= 1 {
    } else {
      JoinSnocEmpty(lines[1..]);
      assert (lines + [""])[1..] == lines[1..] + [""];
    }
  }

  lemma {:induction false} JoinedEnd(lines: seq<string>)
    requires lines != [] && lines[|lines| - 1] != ""
    ensures var j := JoinLines(lines); j != "" && j[|j| - 1] == lines[|lines| - 1][|lines[|lines| - 1]| - 1]
  {
    if |lines| <= 1 {
    } else {
      JoinedEnd(lines[1..]);
    }
  }

  /** The text both comment strippers produce from the lines they keep. */
  function Reassemble(lines: seq<string>, ended: bool): string {
    JoinLines(lines) + FinalNewline(ended)
  }

  /** What a reassembled text splits into again. */
  lemma SplitReassembled(lines: seq<string>, ended: bool)
    requires Trimmed(lines)
    ensures SplitLines(Reassemble(lines, ended))
         == if ended then (if lines == [] then [""] else lines)
            else if lines != [] && lines[|lines| - 1] == "" then lines[..|lines| - 1]
            else lines
  {
    if !ended {
      assert Reassemble(lines, ended) == JoinLines(lines);
      SplitJoined(lines);
    } else if lines == [] {
      SplitFirst("", "");
      assert Reassemble(lines, ended) == "" + "\n" + "";
    } else {
      SplitJoinedEnded(lines);
    }
  }

  lemma EndsInNewline(s: string)
    ensures EndsWithNewline(s + "\n")
  {
  }

  lemma ReassembledEnd(lines: seq<string>)
    requires Trimmed(lines)
    ensures EndsWithNewline(JoinLines(lines)) <==> |lines| > 1 && lines[|lines| - 1] == ""
  {
    if lines != [] {
      var front, last := lines[..|lines| - 1], lines[|lines| - 1];
      if last != "" {
        JoinedEnd(lines);
        RStripKeeps(last);
      } else if front != [] {
        assert lines == front + [""];
        JoinSnocEmpty(front);
        EndsInNewline(JoinLines(front));
      }
    }
  }

  /** Splitting a reassembled text and reassembling it again changes nothing. */
  lemma ReassembleIsStable(lines: seq<string>, ended: bool)
    requires Trimmed(lines)
    ensures var t := Reassemble(lines, ended);
            Trimmed(SplitLines(t)) && Reassemble(SplitLines(t), EndsWithNewline(t)) == t
  {
    SplitReassembled(lines, ended);
    if ended {
      assert JoinLines([""]) == "";
    } else {
      StableUnended(lines);
    }
  }

  lemma StableUnended(lines: seq<string>)
    requires Trimmed(lines)
    ensures var t := Reassemble(lines, false); Reassemble(SplitLines(t), EndsWithNewline(t)) == t
  {
    SplitReassembled(lines, false);
    ReassembledEnd(lines);
    if |lines| > 1 && lines[|lines| - 1] == "" {
      var front := lines[..|lines| - 1];
      JoinSnocEmpty(front);
      assert front + [""] == lines;
    }
  }

  // ---- What a text of lines is ---------------------------------------------

  ghost predicate OnlyNewlines(t: string) {
    forall k :: 0 <= k < |t| && IsBreak(t[k]) ==> t[k] == '\n'
  }

  predicate LastIsEmpty(lines: seq<string>) {
    lines != [] && lines[|lines| - 1] == ""
  }

  /** `t` has these lines, with a newline behind each but perhaps the last; only where an
      empty last line is not ended it does not count as one. */
  ghost predicate Spells(t: string, lines: seq<string>, ended: bool) {
    && OnlyNewlines(t)
    && (EndsWithNewline(t) <==> ended || (|lines| > 1 && LastIsEmpty(lines)))
    && SplitLines(t) == if ended && lines == [] then [""]
                        else if !ended && LastIsEmpty(lines) then lines[..|lines| - 1]
                        else lines
  }

  /** That determines the text. */
  lemma SpellingIsUnique(t: string, u: string, lines: seq<string>, ended: bool)
    requires Spells(t, lines, ended) && Spells(u, lines, ended)
    ensures t == u
  {
    RebuiltFromLines(t);
    RebuiltFromLines(u);
  }

  lemma {:induction false} RebuiltFromLines(t: string)
    requires OnlyNewlines(t)
    ensures t == JoinLines(SplitLines(t)) + FinalNewline(EndsWithNewline(t))
    decreases |t|
  {
    var n := LineEnd(t, 0);
    if n == |t| {
      assert t + "" == t;
    } else {
      var l, rest := t[..n], t[n + 1..];
      assert t == l + "\n" + rest;
      RebuiltFromLines(rest);
      SplitFirst(l, rest);
      JoinedFirst(l, rest);
    }
  }

  lemma JoinedFirst(l: string, rest: string)
    requires rest == JoinLines(SplitLines(rest)) + FinalNewline(EndsWithNewline(rest))
    ensures var t := l + "\n" + rest; t == JoinLines([l] + SplitLines(rest)) + FinalNewline(EndsWithNewline(t))
  {
    var lines := SplitLines(rest);
    if rest == "" {
      assert l + "\n" + "" == l + "\n";
      assert lines == [];
    } else {
      assert ([l] + lines)[1..] == lines;
      Assoc(l + "\n", JoinLines(lines), FinalNewline(EndsWithNewline(rest)));
    }
  }

  lemma ReassembleSpells(lines: seq<string>, ended: bool)
    requires Trimmed(lines)
    ensures Spells(Reassemble(lines, ended), lines, ended)
  {
    SplitReassembled(lines, ended);
    JoinedBreaks(lines);
    ReassembledEnd(lines);
    if ended { EndsInNewline(JoinLines(lines)); } else { assert Reassemble(lines, false) == JoinLines(lines); }
  }

  lemma {:induction false} JoinedBreaks(lines: seq<string>)
    requires forall k :: 0 <= k < |lines| ==> Unbroken(lines[k])
    ensures OnlyNewlines(JoinLines(lines))
  {
    if |lines| <= 1 {
    } else {
      JoinedBreaks(lines[1..]);
    }
  }

  /** `t` is `l` without the white space at its end. */
  ghost predicate Trims(t: string, l: string) {
    t <= l && (t != "" ==> !IsSpace(t[|t| - 1])) && forall k :: |t| <= k < |l| ==> IsSpace(l[k])
  }

  ghost predicate TrimsAll(lines: seq<string>, raw: seq<string>) {
    |lines| == |raw| && forall k :: 0 <= k < |lines| ==> Trims(lines[k], raw[k])
  }

  lemma RStripTrims(raw: seq<string>)
    ensures TrimsAll(RStripAll(raw), raw)
  {
  }

  /** `t` has the lines of `code`, each without the white space at its end. */
  ghost predicate Tidied(t: string, code: string, ended: bool) {
    exists lines: seq<string> :: TrimsAll(lines, SplitLines(code)) && Spells(t, lines, ended)
  }

  lemma TidiedBy(t: string, code: string, ended: bool, lines: seq<string>)
    requires TrimsAll(lines, SplitLines(code)) && Spells(t, lines, ended)
    ensures Tidied(t, code, ended)
  {
  }

  lemma TidiedIsUnique(t: string, u: string, code: string, ended: bool)
    requires Tidied(t, code, ended) && Tidied(u, code, ended)
    ensures t == u
  {
    var lines: seq<string> :| TrimsAll(lines, SplitLines(code)) && Spells(t, lines, ended);
    var others: seq<string> :| TrimsAll(others, SplitLines(code)) && Spells(u, others, ended);
    forall k | 0 <= k < |lines| ensures lines[k] == others[k] {
      TrimsIsUnique(lines[k], others[k], SplitLines(code)[k]);
    }
    assert lines == others;
    SpellingIsUnique(t, u, lines, ended);
  }

  lemma TrimsIsUnique(t: string, u: string, l: string)
    requires Trims(t, l) && Trims(u, l)
    ensures t == u
  {
  }

  // ---- Counting lines ------------------------------------------------------

  /** `s.count("\n")` */
  function Newlines(s: string): nat {
    if s == "" then 0 else (if s[0] == '\n' then 1 else 0) + Newlines(s[1..])
  }

  lemma {:induction false} NewlinesAppend(a: string, b: string)
    ensures Newlines(a + b) == Newlines(a) + Newlines(b)
  {
    if a == "" {
      assert a + b == b;
    } else {
      NewlinesAppend(a[1..], b);
      assert (a + b)[1..] == a[1..] + b;
    }
  }
}
