/** `strip_swift_prose`: the comment stripper for Swift and its lexical relatives.

    The tool scans with one index and three pieces of state.  The reference is a
    recursive lexer in which a block comment calls itself for the block comments
    inside it; the scan is proved equal to it, and the laws of the stripper are
    proved of the lexer. */
module SwiftProse {
  import opened Text

  /** What is left of a text, and how many comments were taken out of it. */
  datatype Stripped = Stripped(text: string, removed: nat)

  function Emit(prefix: string, s: Stripped): Stripped {
    Stripped(prefix + s.text, s.removed)
  }

  predicate Starts(s: string, a: char, b: char) {
    |s| >= 2 && s[0] == a && s[1] == b
  }

  /** The text from a point outside strings and comments. */
  function Code(s: string): Stripped
    decreases |s|
  {
    if s == "" then Stripped("", 0)
    else if s[0] == '"' then Emit("\"", Quoted(s[1..]))
    else if Starts(s, '/', '/') then Remark(Line(s[2..]))
    else if Starts(s, '/', '*') then
      var (newlines, rest) := Block(s[2..]);
      Remark(Emit(newlines, Code(rest)))
    else Emit([s[0]], Code(s[1..]))
  }

  function Remark(s: Stripped): Stripped {
    Stripped(s.text, s.removed + 1)
  }

  /** Inside a string literal: everything is kept, an escape takes two characters. */
  function Quoted(s: string): Stripped
    decreases |s|
  {
    if s == "" then Stripped("", 0)
    else if s[0] == '\\' then
      if |s| == 1 then Stripped(s, 0) else Emit(s[..2], Quoted(s[2..]))
    else if s[0] == '"' then Emit("\"", Code(s[1..]))
    else Emit([s[0]], Quoted(s[1..]))
  }

  /** Inside a line comment: everything up to the newline goes. */
  function Line(s: string): Stripped
    decreases |s|
  {
    if s == "" then Stripped("", 0)
    else if s[0] == '\n' then Emit("\n", Code(s[1..]))
    else Line(s[1..])
  }

  /** After the opening of a block comment: the newlines inside it, and the text
      after its own closing mark.  A comment within is lexed by the same function. */
  function Block(s: string): (r: (string, string))
    ensures |r.1| <= |s|
    ensures forall k :: 0 <= k < |r.0| ==> r.0[k] == '\n'
    ensures Newlines(s) == |r.0| + Newlines(r.1)
    decreases |s|
  {
    if s == "" then ("", "")
    else if Starts(s, '*', '/') then
      NewlinesDrop2(s);
      ("", s[2..])
    else if Starts(s, '/', '*') then
      NewlinesDrop2(s);
      var (inner, after) := Block(s[2..]);
      var (outer, rest) := Block(after);
      (inner + outer, rest)
    else
      var (newlines, rest) := Block(s[1..]);
      (if s[0] == '\n' then "\n" + newlines else newlines, rest)
  }

  lemma NewlinesDrop2(s: string)
    requires |s| >= 2
    ensures Newlines(s) == (if s[0] == '\n' then 1 else 0) + (if s[1] == '\n' then 1 else 0) + Newlines(s[2..])
  {
    assert s[1..][1..] == s[2..];
  }

  /** The whole stripper: lex, then drop trailing white space line by line. */
  function Strip(source: string): Stripped {
    var raw := Code(source);
    Stripped(Reassemble(RStripAll(SplitLines(raw.text)), EndsWithNewline(source)), raw.removed)
  }

  /** `depth` block comments are still open. */
  function Blocks(depth: nat, s: string): Stripped
    decreases depth
  {
    if depth == 0 then Code(s) else
    var (newlines, rest) := Block(s);
    Emit(newlines, Blocks(depth - 1, rest))
  }

  /** What remains to be produced from the state the scan is in. */
  function Resume(inLine: bool, depth: nat, inString: bool, s: string): Stripped {
    if inLine then Line(s)
    else if depth > 0 then Blocks(depth, s)
    else if inString then Quoted(s)
    else Code(s)
  }

  /** One step inside `depth` open comments. */
  lemma BlocksStep(depth: nat, s: string)
    requires depth > 0 && s != ""
    ensures Starts(s, '/', '*') ==> Blocks(depth, s) == Blocks(depth + 1, s[2..])
    ensures Starts(s, '*', '/') ==> Blocks(depth, s) == Blocks(depth - 1, s[2..])
    ensures !Starts(s, '/', '*') && !Starts(s, '*', '/') ==>
              Blocks(depth, s) == Emit(if s[0] == '\n' then "\n" else "", Blocks(depth, s[1..]))
  {
    if Starts(s, '/', '*') {
      var (inner, after) := Block(s[2..]);
      var (outer, rest) := Block(after);
      var tail := Blocks(depth - 1, rest);
      assert Blocks(depth + 1, s[2..]) == Emit(inner, Emit(outer, tail));
      assert (inner + outer) + tail.text == inner + (outer + tail.text);
    } else if Starts(s, '*', '/') {
      var tail := Blocks(depth - 1, s[2..]);
      assert "" + tail.text == tail.text;
    } else {
      var (newlines, rest) := Block(s[1..]);
      var tail := Blocks(depth - 1, rest);
      assert ("\n" + newlines) + tail.text == "\n" + (newlines + tail.text);
      assert "" + (newlines + tail.text) == newlines + tail.text;
    }
  }

  /** The output so far and the text still owed make up the whole result. */
  ghost predicate Owes(whole: Stripped, out: string, removed: nat, todo: Stripped) {
    whole == Stripped(out + todo.text, removed + todo.removed)
  }

  lemma Pay(whole: Stripped, out: string, removed: nat, prefix: string, todo: Stripped)
    requires Owes(whole, out, removed, Emit(prefix, todo))
    ensures Owes(whole, out + prefix, removed, todo)
  {
    assert out + (prefix + todo.text) == (out + prefix) + todo.text;
  }

  lemma LineStep(whole: Stripped, out: string, removed: nat, s: string)
    requires s != "" && Owes(whole, out, removed, Line(s))
    ensures if s[0] == '\n' then Owes(whole, out + ['\n'], removed, Code(s[1..]))
            else Owes(whole, out, removed, Line(s[1..]))
  {
    if s[0] == '\n' { Pay(whole, out, removed, "\n", Code(s[1..])); }
  }

  lemma BlockStep(whole: Stripped, out: string, removed: nat, depth: nat, s: string)
    requires s != "" && depth > 0 && Owes(whole, out, removed, Blocks(depth, s))
    ensures if Starts(s, '/', '*') then Owes(whole, out, removed, Blocks(depth + 1, s[2..]))
            else if Starts(s, '*', '/') then Owes(whole, out, removed, Resume(false, depth - 1, false, s[2..]))
            else if s[0] == '\n' then Owes(whole, out + ['\n'], removed, Blocks(depth, s[1..]))
            else Owes(whole, out, removed, Blocks(depth, s[1..]))
  {
    BlocksStep(depth, s);
    if !Starts(s, '/', '*') && !Starts(s, '*', '/') {
      Pay(whole, out, removed, if s[0] == '\n' then "\n" else "", Blocks(depth, s[1..]));
      assert out + "" == out;
    }
  }

  lemma QuotedStep(whole: Stripped, out: string, removed: nat, s: string)
    requires s != "" && Owes(whole, out, removed, Quoted(s))
    ensures if s[0] == '\\' then
              if |s| == 1 then Owes(whole, out + [s[0]], removed, Quoted(""))
              else Owes(whole, out + [s[0]] + [s[1]], removed, Quoted(s[2..]))
            else if s[0] == '"' then Owes(whole, out + [s[0]], removed, Code(s[1..]))
            else Owes(whole, out + [s[0]], removed, Quoted(s[1..]))
  {
    if s[0] == '\\' {
      if |s| == 1 { LastEscape(whole, out, removed, s); } else { EscapeStep(whole, out, removed, s); }
    } else if s[0] == '"' {
      Pay(whole, out, removed, [s[0]], Code(s[1..]));
    } else {
      Pay(whole, out, removed, [s[0]], Quoted(s[1..]));
    }
  }

  lemma LastEscape(whole: Stripped, out: string, removed: nat, s: string)
    requires |s| == 1 && s[0] == '\\' && Owes(whole, out, removed, Quoted(s))
    ensures Owes(whole, out + [s[0]], removed, Quoted(""))
  {
    assert s == [s[0]] + "";
    Pay(whole, out, removed, [s[0]], Quoted(""));
  }

  lemma EscapeStep(whole: Stripped, out: string, removed: nat, s: string)
    requires |s| > 1 && s[0] == '\\' && Owes(whole, out, removed, Quoted(s))
    ensures Owes(whole, out + [s[0]] + [s[1]], removed, Quoted(s[2..]))
  {
    assert s[..2] == [s[0]] + [s[1]];
    Assoc(out, [s[0]], [s[1]]);
    Pay(whole, out, removed, s[..2], Quoted(s[2..]));
  }

  lemma CodeStep(whole: Stripped, out: string, removed: nat, s: string)
    requires s != "" && Owes(whole, out, removed, Code(s))
    ensures if s[0] == '"' then Owes(whole, out + [s[0]], removed, Quoted(s[1..]))
            else if Starts(s, '/', '/') then Owes(whole, out, removed + 1, Line(s[2..]))
            else if Starts(s, '/', '*') then Owes(whole, out, removed + 1, Blocks(1, s[2..]))
            else Owes(whole, out + [s[0]], removed, Code(s[1..]))
  {
    if s[0] == '"' {
      Pay(whole, out, removed, [s[0]], Quoted(s[1..]));
    } else if Starts(s, '/', '/') {
    } else if Starts(s, '/', '*') {
      assert Blocks(0, Block(s[2..]).1) == Code(Block(s[2..]).1);
    } else {
      Pay(whole, out, removed, [s[0]], Code(s[1..]));
    }
  }

  function Rest(source: string, i: nat): string {
    if i <= |source| then source[i..] else ""
  }

  lemma Onward(source: string, i: nat, rest: string)
    requires i < |source| && rest == Rest(source, i)
    ensures rest != "" && rest[0] == source[i] && rest[1..] == Rest(source, i + 1)
    ensures |rest| > 1 <==> i + 1 < |source|
    ensures if i + 1 < |source| then rest[1] == source[i + 1] && rest[2..] == Rest(source, i + 2)
            else Rest(source, i + 2) == ""
  {
  }

  /** The scan of the tool: one index, three flags, an output list. */
  method StripSwiftProse(source: string) returns (text: string, removed: nat)
    ensures Stripped(text, removed) == Strip(source)
  {
    var out := "";
    removed := 0;
    var i, n := 0, |source|;
    var inString, inLine := false, false;
    var blockDepth := 0;
    ghost var whole := Code(source);
    ghost var rest := source;

    while i < n
      invariant 0 <= i <= n + 1
      invariant rest == Rest(source, i)
      invariant blockDepth >= 0
      invariant inString ==> !inLine && blockDepth == 0
      invariant inLine ==> blockDepth == 0
      invariant i > n ==> inString
      invariant Owes(whole, out, removed, Resume(inLine, blockDepth, inString, rest))
    {
      Onward(source, i, rest);
      ghost var one, two := rest[1..], if i + 1 < n then rest[2..] else "";
      var ch := source[i];
      var nxt := if i + 1 < n then source[i + 1..i + 2] else "";
      if inLine {
        LineStep(whole, out, removed, rest);
        if ch == '\n' {
          inLine := false;
          out := out + [ch];
        }
        i, rest := i + 1, one;
      } else if blockDepth > 0 {
        BlockStep(whole, out, removed, blockDepth, rest);
        if ch == '/' && nxt == "*" {
          blockDepth := blockDepth + 1;
          i, rest := i + 2, two;
        } else if ch == '*' && nxt == "/" {
          blockDepth := blockDepth - 1;
          i, rest := i + 2, two;
        } else {
          if ch == '\n' {
            out := out + [ch];
          }
          i, rest := i + 1, one;
        }
      } else if inString {
        QuotedStep(whole, out, removed, rest);
        out := out + [ch];
        if ch == '\\' {
          if i + 1 < n {
            out := out + [source[i + 1]];
          }
          i, rest := i + 2, two;
        } else {
          if ch == '"' {
            inString := false;
          }
          i, rest := i + 1, one;
        }
      } else {
        CodeStep(whole, out, removed, rest);
        if ch == '"' {
          inString := true;
          out := out + [ch];
          i, rest := i + 1, one;
        } else if ch == '/' && nxt == "/" {
          inLine := true;
          removed := removed + 1;
          i, rest := i + 2, two;
        } else if ch == '/' && nxt == "*" {
          blockDepth := 1;
          removed := removed + 1;
          i, rest := i + 2, two;
        } else {
          out := out + [ch];
          i, rest := i + 1, one;
        }
      }
    }
    EndOfInput(inLine, blockDepth, inString);
    assert out + "" == out;
    text := Reassemble(RStripAll(SplitLines(out)), EndsWithNewline(source));
  }

  lemma {:induction false} EndOfInput(inLine: bool, depth: nat, inString: bool)
    ensures Resume(inLine, depth, inString, "") == Stripped("", 0)
    decreases depth
  {
    if !inLine && depth > 0 {
      EndOfInput(false, depth - 1, false);
      assert Blocks(depth, "") == Emit("", Blocks(depth - 1, ""));
    }
  }

  // ---- What survives -------------------------------------------------------

  /** `t` is what is left of `s` after deleting some characters. */
  ghost predicate Subsequence(t: string, s: string) {
    t == "" || (s != "" && ((t[0] == s[0] && Subsequence(t[1..], s[1..])) || Subsequence(t, s[1..])))
  }

  lemma {:induction false} SubsequenceOfSuffix(t: string, s: string, k: nat)
    requires k <= |s| && Subsequence(t, s[k..])
    ensures Subsequence(t, s)
    decreases k
  {
    if k > 0 {
      assert s[k..] == s[1..][k - 1..];
      SubsequenceOfSuffix(t, s[1..], k - 1);
    } else {
      assert s[0..] == s;
    }
  }

  lemma {:induction false} SubsequenceAppend(a: string, b: string, t: string, s: string)
    requires Subsequence(a, t) && Subsequence(b, s)
    ensures Subsequence(a + b, t + s)
    decreases |t|
  {
    if t == "" {
      assert a + b == b && t + s == s;
    } else {
      assert (t + s)[1..] == t[1..] + s;
      if a == "" {
        SubsequenceAppend(a, b, t[1..], s);
        assert a + b == b;
      } else {
        assert (a + b)[1..] == a[1..] + b;
        if a[0] == t[0] && Subsequence(a[1..], t[1..]) {
          SubsequenceAppend(a[1..], b, t[1..], s);
        } else {
          SubsequenceAppend(a, b, t[1..], s);
        }
      }
    }
  }

  /** The newlines of a block comment, then anything kept from the text after it. */
  lemma {:induction false} SubsequenceOfBlock(s: string, b: string)
    requires Subsequence(b, Block(s).1)
    ensures Subsequence(Block(s).0 + b, s)
    decreases |s|
  {
    if s == "" {
      assert "" + b == b;
    } else if Starts(s, '*', '/') {
      assert "" + b == b;
      SubsequenceOfSuffix(b, s, 2);
    } else if Starts(s, '/', '*') {
      var (inner, after) := Block(s[2..]);
      var (outer, rest) := Block(after);
      SubsequenceOfBlock(after, b);
      SubsequenceOfBlock(s[2..], outer + b);
      Assoc(inner, outer, b);
      SubsequenceOfSuffix(inner + (outer + b), s, 2);
    } else {
      var (newlines, rest) := Block(s[1..]);
      SubsequenceOfBlock(s[1..], b);
      if s[0] == '\n' {
        Assoc("\n", newlines, b);
        assert (("\n" + newlines) + b)[1..] == newlines + b;
      }
    }
  }

  lemma {:induction false} NewlinesOnly(a: string)
    requires forall k :: 0 <= k < |a| ==> a[k] == '\n'
    ensures Newlines(a) == |a|
  {
    if a == "" {
    } else {
      NewlinesOnly(a[1..]);
    }
  }

  lemma KeepFirst(s: string, rest: Stripped)
    requires s != "" && Subsequence(rest.text, s[1..]) && Newlines(rest.text) == Newlines(s[1..])
    ensures var e := Emit([s[0]], rest); Subsequence(e.text, s) && Newlines(e.text) == Newlines(s)
  {
    var t := [s[0]] + rest.text;
    assert t[1..] == rest.text;
  }

  /** Nothing is invented, and no newline is lost, so every kept character stays
      on its line. */
  lemma {:induction false} CodeOnlyDeletes(s: string)
    ensures Subsequence(Code(s).text, s) && Newlines(Code(s).text) == Newlines(s)
    decreases |s|, 1
  {
    if s == "" {
    } else if s[0] == '"' {
      QuotedOnlyDeletes(s[1..]);
      KeepFirst(s, Quoted(s[1..]));
    } else if Starts(s, '/', '/') {
      NewlinesDrop2(s);
      LineOnlyDeletes(s[2..]);
      SubsequenceOfSuffix(Line(s[2..]).text, s, 2);
    } else if Starts(s, '/', '*') {
      NewlinesDrop2(s);
      var (newlines, rest) := Block(s[2..]);
      CodeOnlyDeletes(rest);
      SubsequenceOfBlock(s[2..], Code(rest).text);
      SubsequenceOfSuffix(newlines + Code(rest).text, s, 2);
      NewlinesAppend(newlines, Code(rest).text);
      NewlinesOnly(newlines);
    } else {
      CodeOnlyDeletes(s[1..]);
      KeepFirst(s, Code(s[1..]));
    }
  }

  lemma {:induction false} QuotedOnlyDeletes(s: string)
    ensures Subsequence(Quoted(s).text, s) && Newlines(Quoted(s).text) == Newlines(s)
    decreases |s|, 1
  {
    if s == "" {
    } else if s[0] == '\\' {
      if |s| == 1 {
        assert s[1..] == "";
      } else {
        QuotedOnlyDeletes(s[2..]);
        KeepFirst(s[1..], Quoted(s[2..]));
        assert s[1..][1..] == s[2..];
        KeepFirst(s, Emit([s[1]], Quoted(s[2..])));
        assert s[..2] + Quoted(s[2..]).text == [s[0]] + ([s[1]] + Quoted(s[2..]).text);
      }
    } else if s[0] == '"' {
      CodeOnlyDeletes(s[1..]);
      KeepFirst(s, Code(s[1..]));
    } else {
      QuotedOnlyDeletes(s[1..]);
      KeepFirst(s, Quoted(s[1..]));
    }
  }

  lemma {:induction false} LineOnlyDeletes(s: string)
    ensures Subsequence(Line(s).text, s) && Newlines(Line(s).text) == Newlines(s)
    decreases |s|, 0
  {
    if s == "" {
    } else if s[0] == '\n' {
      CodeOnlyDeletes(s[1..]);
      KeepFirst(s, Code(s[1..]));
    } else {
      LineOnlyDeletes(s[1..]);
    }
  }

  /** The inside of a block comment: characters, and block comments to any depth. */
  datatype Note = End | Char(c: char, more: Note) | Nested(inner: Note, more: Note)

  /** What stands first in a note or, if it is empty, in the mark that closes it. */
  function First(n: Note): char {
    match n
    case End => '*'
    case Char(c, _) => c
    case Nested(_, _) => '/'
  }

  predicate Mark(c: char, d: char) {
    (c == '/' && d == '*') || (c == '*' && d == '/')
  }

  /** No character forms a mark with the one behind it. */
  predicate Plain(n: Note) {
    match n
    case End => true
    case Char(c, more) => !Mark(c, First(more)) && Plain(more)
    case Nested(inner, more) => Plain(inner) && Plain(more)
  }

  function Written(n: Note): string {
    match n
    case End => ""
    case Char(c, more) => [c] + Written(more)
    case Nested(inner, more) => "/*" + (Written(inner) + ("*/" + Written(more)))
  }

  lemma BlockMarks(s: string)
    ensures Block("*/" + s) == ("", s)
    ensures var (inner, after) := Block(s);
            var (outer, rest) := Block(after);
            Block("/*" + s) == (inner + outer, rest)
    ensures Code("/*" + s) == Remark(Emit(Block(s).0, Code(Block(s).1)))
    ensures Newlines("*/" + s) == Newlines(s) && Newlines("/*" + s) == Newlines(s)
  {
    var open, close := "/*" + s, "*/" + s;
    assert open[2..] == s && close[2..] == s;
    NewlinesDrop2(open);
    NewlinesDrop2(close);
  }

  /** However deep the comments nest, the first closing mark of the outermost one
      ends it: only its newlines are left. */
  lemma {:induction false} NestedBlockEnds(n: Note, rest: string)
    requires Plain(n)
    ensures var b := Block(Written(n) + ("*/" + rest)); b.1 == rest && |b.0| == Newlines(Written(n))
  {
    var tail := "*/" + rest;
    BlockMarks(rest);
    match n
    case End => assert "" + tail == tail;
    case Char(c, more) =>
      NestedBlockEnds(more, rest);
      var s := [c] + (Written(more) + tail);
      assert s[1..] == Written(more) + tail;
      assert s[1] == First(more);
      Assoc([c], Written(more), tail);
      assert Written(n)[1..] == Written(more);
    case Nested(inner, more) =>
      NestedBlockEnds(more, rest);
      NestedInside(inner, more, tail);
      NestedBlockEnds(inner, Written(more) + tail);
      BlockMarks(Written(inner) + ("*/" + (Written(more) + tail)));
  }

  lemma NestedInside(inner: Note, more: Note, tail: string)
    ensures Written(Nested(inner, more)) + tail == "/*" + (Written(inner) + ("*/" + (Written(more) + tail)))
    ensures Newlines(Written(Nested(inner, more))) == Newlines(Written(inner)) + Newlines(Written(more))
  {
    var i, m := Written(inner), Written(more);
    Assoc("/*", i + ("*/" + m), tail);
    Assoc(i, "*/" + m, tail);
    Assoc("*/", m, tail);
    BlockMarks(m);
    NewlinesAppend(i, "*/" + m);
    BlockMarks(i + ("*/" + m));
  }

  // ---- Stripping twice -----------------------------------------------------

  /** A cursor over text that should hold no comment: in code, in a string, right
      after a backslash in a string, or at a comment that should not be there. */
  datatype Mode = InCode | InString | Escaped | AtComment

  function NextMode(c: char, m: Mode): Mode {
    match m
    case AtComment => AtComment
    case Escaped => InString
    case InString => if c == '\\' then Escaped else if c == '"' then InCode else InString
    case InCode => if c == '"' then InString else InCode
  }

  predicate Opens(s: string, m: Mode) {
    m == InCode && (Starts(s, '/', '/') || Starts(s, '/', '*'))
  }

  function Walk(s: string, m: Mode): Mode {
    if s == "" then m
    else if Opens(s, m) then AtComment
    else Walk(s[1..], NextMode(s[0], m))
  }

  /** A cut that no comment mark can straddle. */
  lemma {:induction false} WalkSplit(a: string, b: string, m: Mode)
    requires b == "" || (b[0] != '/' && b[0] != '*')
    ensures Walk(a + b, m) == Walk(b, Walk(a, m))
  {
    if a == "" {
      assert a + b == b;
    } else if Opens(a, m) {
      WalkStays(b);
    } else {
      assert (a + b)[1..] == a[1..] + b;
      WalkSplit(a[1..], b, NextMode(a[0], m));
    }
  }

  lemma {:induction false} WalkStays(s: string)
    ensures Walk(s, AtComment) == AtComment
  {
    if s == "" {
    } else {
      WalkStays(s[1..]);
    }
  }

  function AfterSpace(m: Mode): Mode {
    if m == Escaped then InString else m
  }

  lemma {:induction false} WalkSpaces(w: string, m: Mode)
    requires w != "" && forall k :: 0 <= k < |w| ==> IsSpace(w[k])
    ensures Walk(w, m) == AfterSpace(m)
  {
    if |w| <= 1 {
    } else {
      WalkSpaces(w[1..], AfterSpace(m));
    }
  }

  /** Dropping trailing white space and writing the boundary as a newline leaves
      the cursor in the same mode at the start of the next line. */
  lemma WalkTrimmedLine(l: string, sep: string, m: Mode)
    requires sep != "" && forall k :: 0 <= k < |sep| ==> IsSpace(sep[k])
    ensures Walk(RStrip(l) + "\n", m) == Walk(l + sep, m)
    ensures Walk(l, m) != AtComment ==> Walk(RStrip(l), m) != AtComment
  {
    var t := RStrip(l);
    var w := l[|t|..];
    assert t + w == l;
    forall k | 0 <= k < |w| ensures IsSpace(w[k]) { assert w[k] == l[|t| + k]; }
    WalkSplit(l, sep, m);
    WalkSplit(t, "\n", m);
    WalkSplit(t, w, m);
    WalkSpaces(sep, Walk(l, m));
    WalkSpaces("\n", Walk(t, m));
    if w != "" { WalkSpaces(w, Walk(t, m)); }
  }

  lemma {:induction false} WalkTidied(s: string, m: Mode)
    requires Walk(s, m) != AtComment
    ensures Walk(JoinLines(RStripAll(SplitLines(s))), m) != AtComment
    decreases |s|
  {
    if s == "" {
    } else {
      var n := LineEnd(s, 0);
      if n < |s| {
        var k := n + BreakWidth(s, n);
        var l, sep, rest := s[..n], s[n..k], s[k..];
        ThreePieces(s, n, k);
        WalkThrough(l, sep, rest, m);
        WalkTidied(rest, Walk(l + sep, m));
        var tail := RStripAll(SplitLines(rest));
        assert RStripAll(SplitLines(s)) == [RStrip(l)] + tail;
        WalkTidiedLine(l, sep, tail, m);
      } else {
        WalkTrimmedLine(s, "\n", m);
        assert RStripAll(SplitLines(s)) == [RStrip(s)];
      }
    }
  }

  lemma ThreePieces(s: string, n: nat, k: nat)
    requires n <= k <= |s|
    ensures s == (s[..n] + s[n..k]) + s[k..]
  {
  }

  lemma WalkTidiedLine(l: string, sep: string, tail: seq<string>, m: Mode)
    requires sep != "" && forall k :: 0 <= k < |sep| ==> IsSpace(sep[k])
    requires Walk(l, m) != AtComment && Walk(JoinLines(tail), Walk(l + sep, m)) != AtComment
    ensures Walk(JoinLines([RStrip(l)] + tail), m) != AtComment
  {
    WalkTrimmedLine(l, sep, m);
    if tail == [] {
      assert [RStrip(l)] + tail == [RStrip(l)];
    } else {
      WalkThrough(RStrip(l), "\n", JoinLines(tail), m);
      assert ([RStrip(l)] + tail)[1..] == tail;
    }
  }

  /** After white space the walk can be cut anywhere. */
  lemma WalkThrough(l: string, sep: string, rest: string, m: Mode)
    requires sep != "" && forall k :: 0 <= k < |sep| ==> IsSpace(sep[k])
    ensures Walk(l + sep + rest, m) == Walk(rest, Walk(l + sep, m))
    ensures Walk(l, m) == AtComment ==> Walk(l + sep + rest, m) == AtComment
  {
    Assoc(l, sep, rest);
    WalkStays(sep);
    WalkStays(rest);
    WalkSplit(l, sep + rest, m);
    WalkSplit(l, sep, m);
    WalkOff(sep, rest, Walk(l, m));
  }

  lemma {:induction false} WalkOff(sep: string, rest: string, m: Mode)
    requires sep != "" && forall k :: 0 <= k < |sep| ==> IsSpace(sep[k])
    ensures Walk(sep + rest, m) == Walk(rest, Walk(sep, m))
  {
    assert (sep + rest)[1..] == sep[1..] + rest;
    SpaceStep(sep, m);
    SpaceStep(sep + rest, m);
    if |sep| == 1 {
      assert sep[1..] + rest == rest;
    } else {
      WalkOff(sep[1..], rest, AfterSpace(m));
    }
  }

  lemma SpaceStep(s: string, m: Mode)
    requires s != "" && IsSpace(s[0])
    ensures Walk(s, m) == Walk(s[1..], AfterSpace(m))
  {
  }

  /** Lexed text begins with its own first character unless a comment starts there. */
  lemma CodeFirst(s: string)
    requires s != "" && s[0] != '/'
    ensures Code(s).text != "" && Code(s).text[0] == s[0]
  {
  }

  /** Deleting a comment never joins its neighbours into a new one. */
  lemma {:induction false} CodeIsQuiet(s: string)
    ensures Walk(Code(s).text, InCode) != AtComment
    decreases |s|, 1
  {
    if s == "" {
    } else if s[0] == '"' {
      QuotedIsQuiet(s[1..]);
      assert ("\"" + Quoted(s[1..]).text)[1..] == Quoted(s[1..]).text;
    } else if Starts(s, '/', '/') {
      LineIsQuiet(s[2..]);
    } else if Starts(s, '/', '*') {
      var (newlines, rest) := Block(s[2..]);
      CodeIsQuiet(rest);
      if newlines == "" {
        assert newlines + Code(rest).text == Code(rest).text;
      } else {
        WalkOff(newlines, Code(rest).text, InCode);
        WalkSpaces(newlines, InCode);
      }
    } else {
      var t := Code(s[1..]).text;
      CodeIsQuiet(s[1..]);
      assert ([s[0]] + t)[1..] == t;
      if s[0] == '/' && |s| > 1 { CodeFirst(s[1..]); }
    }
  }

  lemma {:induction false} QuotedIsQuiet(s: string)
    ensures Walk(Quoted(s).text, InString) != AtComment
    decreases |s|, 1
  {
    if s == "" {
    } else if s[0] == '\\' {
      if |s| > 1 {
        var t := Quoted(s[2..]).text;
        QuotedIsQuiet(s[2..]);
        assert (s[..2] + t)[1..][1..] == t;
      } else {
        assert s[1..] == "";
      }
    } else if s[0] == '"' {
      CodeIsQuiet(s[1..]);
      assert ("\"" + Code(s[1..]).text)[1..] == Code(s[1..]).text;
    } else {
      QuotedIsQuiet(s[1..]);
      assert ([s[0]] + Quoted(s[1..]).text)[1..] == Quoted(s[1..]).text;
    }
  }

  lemma {:induction false} LineIsQuiet(s: string)
    ensures Walk(Line(s).text, InCode) != AtComment
    decreases |s|, 0
  {
    if s == "" {
    } else if s[0] == '\n' {
      CodeIsQuiet(s[1..]);
      assert ("\n" + Code(s[1..]).text)[1..] == Code(s[1..]).text;
    } else {
      LineIsQuiet(s[1..]);
    }
  }

  /** The lexer leaves a text without comments alone. */
  lemma {:induction false} QuietIsFixed(s: string)
    ensures Walk(s, InCode) != AtComment ==> Code(s) == Stripped(s, 0)
    ensures Walk(s, InString) != AtComment ==> Quoted(s) == Stripped(s, 0)
    decreases |s|
  {
    if s == "" {
    } else {
      var rest := s[1..];
      QuietIsFixed(rest);
      assert s == [s[0]] + rest;
      if s[0] == '\\' {
        if rest != "" {
          QuietIsFixed(s[2..]);
          assert rest[1..] == s[2..];
          assert s == s[..2] + s[2..];
          assert Walk(s, InString) == Walk(rest, Escaped) == Walk(s[2..], InString);
        }
      }
    }
  }

  predicate NoStraddle(a: string, s: string) {
    s == "" || a == "" || a[|a| - 1] != '/' || (s[0] != '/' && s[0] != '*')
  }

  /** Text that holds no comment and ends in code is copied, and lexing goes on
      behind it as if it were not there. */
  lemma {:induction false} CodeIsCopied(a: string, s: string)
    requires NoStraddle(a, s) && Walk(a, InCode) == InCode
    ensures Code(a + s) == Emit(a, Code(s))
    decreases |a|
  {
    var todo := Code(s);
    if a == "" {
      assert a + s == s;
      assert "" + todo.text == todo.text;
    } else {
      assert (a + s)[1..] == a[1..] + s;
      assert [a[0]] + (a[1..] + todo.text) == a + todo.text;
      if a[0] == '"' { QuotedIsCopied(a[1..], s); } else { CodeIsCopied(a[1..], s); }
    }
  }

  lemma {:induction false} QuotedIsCopied(a: string, s: string)
    requires NoStraddle(a, s) && Walk(a, InString) == InCode
    ensures Quoted(a + s) == Emit(a, Code(s))
    decreases |a|
  {
    var todo := Code(s);
    var rest := a[1..];
    assert (a + s)[1..] == rest + s;
    assert [a[0]] + (rest + todo.text) == a + todo.text;
    if a[0] == '\\' {
      assert Walk(a, InString) == Walk(rest, Escaped);
      assert rest[1..] == a[2..];
      QuotedIsCopied(a[2..], s);
      FirstTwo(a, s);
      FirstTwo(a, todo.text);
    } else if a[0] == '"' {
      CodeIsCopied(rest, s);
    } else {
      QuotedIsCopied(rest, s);
    }
  }

  lemma FirstTwo(a: string, b: string)
    requires |a| >= 2
    ensures (a + b)[..2] == a[..2] && (a + b)[2..] == a[2..] + b && a[..2] + (a[2..] + b) == a + b
  {
  }

  /** A block comment in front of `b`. */
  function Commented(n: Note, b: string): string {
    "/*" + (Written(n) + ("*/" + b))
  }

  lemma CommentedLeavesNewlines(n: Note, b: string)
    requires Plain(n)
    ensures Code(Commented(n, b)) == Stripped(NewlineRun(Newlines(Written(n))) + Code(b).text, Code(b).removed + 1)
  {
    var body := Written(n) + ("*/" + b);
    NestedBlockEnds(n, b);
    BlockMarks(body);
    NewlineRunIs(Block(body).0);
  }

  /** A nested block comment between two stretches of code leaves only its
      newlines; a mark inside a string before it is not a comment. */
  lemma BlockCommentVanishes(a: string, n: Note, b: string)
    requires Walk(a, InCode) == InCode && (a == "" || a[|a| - 1] != '/') && Plain(n)
    ensures Code(a + Commented(n, b))
         == Stripped(a + (NewlineRun(Newlines(Written(n))) + Code(b).text), Code(b).removed + 1)
  {
    CodeIsCopied(a, Commented(n, b));
    CommentedLeavesNewlines(n, b);
  }

  function NewlineRun(k: nat): string {
    if k == 0 then "" else "\n" + NewlineRun(k - 1)
  }

  lemma {:induction false} NewlineRunIs(r: string)
    requires forall k :: 0 <= k < |r| ==> r[k] == '\n'
    ensures r == NewlineRun(|r|)
  {
    if r == "" {
    } else {
      NewlineRunIs(r[1..]);
    }
  }

  /** A line comment vanishes up to its newline. */
  lemma {:induction false} LineCommentVanishes(a: string, note: string, b: string)
    requires Walk(a, InCode) == InCode && (a == "" || a[|a| - 1] != '/')
    requires forall k :: 0 <= k < |note| ==> note[k] != '\n'
    ensures Code(a + ("//" + (note + ("\n" + b)))) == Stripped(a + ("\n" + Code(b).text), Code(b).removed + 1)
  {
    var body := note + ("\n" + b);
    CodeIsCopied(a, "//" + body);
    assert ("//" + body)[2..] == body;
    LineSkips(note, b);
  }

  lemma {:induction false} LineSkips(note: string, b: string)
    requires forall k :: 0 <= k < |note| ==> note[k] != '\n'
    ensures Line(note + ("\n" + b)) == Emit("\n", Code(b))
  {
    var s := note + ("\n" + b);
    if note == "" {
      assert s == "\n" + b;
      assert s[1..] == b;
    } else {
      LineSkips(note[1..], b);
      assert s[1..] == note[1..] + ("\n" + b);
    }
  }

  // ---- Whole programs ------------------------------------------------------

  /** What the stripper returns: the lines of the lexed text without the white space at
      their ends. */
  lemma StrippedIsTidied(source: string)
    ensures Tidied(Strip(source).text, Code(source).text, EndsWithNewline(source))
  {
    var code, ended := Code(source).text, EndsWithNewline(source);
    var raw := SplitLines(code);
    RStripAllTrimmed(raw);
    ReassembleSpells(RStripAll(raw), ended);
    RStripTrims(raw);
    TidiedBy(Reassemble(RStripAll(raw), ended), code, ended, RStripAll(raw));
  }

  /** A program as its author writes it: code with comments between, behind the last of
      which, if it runs to the end of its line, nothing need follow. */
  datatype Program =
    | Ends(code: string)
    | EndsNoted(code: string, remark: string)
    | LineNote(code: string, remark: string, more: Program)
    | BlockNote(code: string, note: Note, more: Program)

  function WriteProgram(p: Program): string {
    match p
    case Ends(code) => code
    case EndsNoted(code, remark) => code + ("//" + remark)
    case LineNote(code, remark, more) => code + ("//" + (remark + ("\n" + WriteProgram(more))))
    case BlockNote(code, note, more) => code + Commented(note, WriteProgram(more))
  }

  /** The code alone, on the lines it was on. */
  function CodeOf(p: Program): string {
    match p
    case Ends(code) => code
    case EndsNoted(code, _) => code
    case LineNote(code, _, more) => code + ("\n" + CodeOf(more))
    case BlockNote(code, note, more) => code + (NewlineRun(Newlines(Written(note))) + CodeOf(more))
  }

  function Notes(p: Program): nat {
    match p
    case Ends(_) => 0
    case EndsNoted(_, _) => 1
    case LineNote(_, _, more) => 1 + Notes(more)
    case BlockNote(_, _, more) => 1 + Notes(more)
  }

  ghost predicate OneLine(s: string) {
    forall k :: 0 <= k < |s| ==> s[k] != '\n'
  }

  /** A comment may begin behind this code: it is outside strings, and its last character
      forms no mark with the comment's first. */
  predicate Commentable(code: string) {
    Walk(code, InCode) == InCode && (code == "" || code[|code| - 1] != '/')
  }

  ghost predicate Proper(p: Program) {
    match p
    case Ends(code) => Walk(code, InCode) != AtComment
    case EndsNoted(code, remark) => Commentable(code) && OneLine(remark)
    case LineNote(code, remark, more) => Commentable(code) && OneLine(remark) && Proper(more)
    case BlockNote(code, note, more) => Commentable(code) && Plain(note) && Proper(more)
  }

  lemma {:induction false} ProgramLexes(p: Program)
    requires Proper(p)
    ensures Code(WriteProgram(p)) == Stripped(CodeOf(p), Notes(p))
  {
    match p
    case Ends(code) => QuietIsFixed(code);
    case EndsNoted(code, remark) => LastCommentVanishes(code, remark);
    case LineNote(code, remark, more) =>
      LineCommentVanishes(code, remark, WriteProgram(more));
      ProgramLexes(more);
    case BlockNote(code, note, more) =>
      BlockCommentVanishes(code, note, WriteProgram(more));
      ProgramLexes(more);
  }

  lemma LastCommentVanishes(code: string, remark: string)
    requires Commentable(code) && OneLine(remark)
    ensures Code(code + ("//" + remark)) == Stripped(code, 1)
  {
    CodeIsCopied(code, "//" + remark);
    assert ("//" + remark)[2..] == remark;
    LineToTheEnd(remark);
    assert code + "" == code;
  }

  lemma {:induction false} LineToTheEnd(remark: string)
    requires OneLine(remark)
    ensures Line(remark) == Stripped("", 0)
  {
    if remark == "" {
    } else {
      LineToTheEnd(remark[1..]);
    }
  }

  /** Stripping undoes commenting: of a written program exactly the code remains, line by
      line, without white space at the ends of lines, and every comment is counted. */
  lemma ProgramIsStripped(p: Program)
    requires Proper(p)
    ensures var s := Strip(WriteProgram(p));
            s.removed == Notes(p) && Tidied(s.text, CodeOf(p), EndsWithNewline(WriteProgram(p)))
  {
    ProgramLexes(p);
    StrippedIsTidied(WriteProgram(p));
  }

  /** Code that was tidy comes back as it was. */
  lemma TidyCodeComesBack(p: Program, lines: seq<string>)
    requires Proper(p) && lines != [] && Trimmed(lines) && CodeOf(p) == JoinLines(lines) + "\n"
    requires EndsWithNewline(WriteProgram(p))
    ensures Strip(WriteProgram(p)) == Stripped(CodeOf(p), Notes(p))
  {
    ProgramLexes(p);
    SplitJoinedEnded(lines);
    TrimmedIsFixed(lines);
  }

  /** Stripping is idempotent, and the second pass finds no comment at all. */
  lemma StripIsIdempotent(source: string)
    ensures Strip(Strip(source).text) == Stripped(Strip(source).text, 0)
  {
    var raw := Code(source).text;
    var lines := RStripAll(SplitLines(raw));
    var ended := EndsWithNewline(source);
    var text := Reassemble(lines, ended);
    CodeIsQuiet(source);
    WalkTidied(raw, InCode);
    WalkSplit(JoinLines(lines), FinalNewline(ended), InCode);
    if ended { WalkSpaces("\n", Walk(JoinLines(lines), InCode)); }
    QuietIsFixed(text);
    RStripAllTrimmed(SplitLines(raw));
    ReassembleIsStable(lines, ended);
    TrimmedIsFixed(SplitLines(text));
  }
}
