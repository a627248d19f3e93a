/** Why the runs of `LiteralRuns` are substrings of every match: the scan of a
    written pattern computes what its syntax tree says, and what the tree says is
    contained in every line the tree matches. */
module PatternRuns {
  import opened Text
  import opened LiteralRuns

  // ---- The runs of a tree --------------------------------------------------

  function EmitAtom(a: Atom, st: State): State {
    match a
    case Chr(c) => Push(st, c)
    case Quoted(c) => Push(st, c)
    case Coded(_, digits) => State(Flush(st).runs, digits)
    case _ => Flush(st)
  }

  /** What scanning the written tree does to the runs collected so far. */
  function Emit(r: Re, st: State): State {
    match r
    case Empty => st
    case One(a) => EmitAtom(a, st)
    case Rep(a, _) => Drop(EmitAtom(a, st))
    case Cat(l, r) => Emit(r, Emit(l, st))
    case Alt(l, r) => Emit(r, Flush(Emit(l, st)))
    case Group(_, body, _) => Flush(Emit(body, Flush(st)))
    case Same(name) => Flush(State(Flush(st).runs, name))
  }

  function RunsOf(r: Re): seq<string> {
    Flush(Emit(r, State([], ""))).runs
  }

  // ---- The scan computes them ----------------------------------------------

  lemma {:induction false} PastStop(a: string, c: char, rest: string, stops: string)
    requires c in stops && forall k :: 0 <= k < |a| ==> a[k] !in stops
    ensures Past(a + ([c] + rest), stops) == rest
  {
    var p := a + ([c] + rest);
    if a == "" {
      assert p == [c] + rest;
      assert p[1..] == rest;
    } else {
      PastStop(a[1..], c, rest, stops);
      assert p[1..] == a[1..] + ([c] + rest);
    }
  }

  lemma TokFirst(t: Tok, more: string)
    requires t != Plain('\\') && t != Plain(']')
    ensures ToBracket(PrintTok(t) + more) == ToBracket(more)
    ensures PrintTok(t)[0] != ']'
  {
    var p := PrintTok(t) + more;
    match t
    case Plain(c) => assert p[1..] == more;
    case Escape(c) => assert p[2..] == more;
  }

  lemma ToksFirst(body: seq<Tok>, more: string)
    requires body != []
    ensures PrintToks(body) + more == PrintTok(body[0]) + (PrintToks(body[1..]) + more)
  {
    Assoc(PrintTok(body[0]), PrintToks(body[1..]), more);
  }

  lemma {:induction false} ClassBody(body: seq<Tok>, rest: string)
    requires forall k :: 0 <= k < |body| ==> body[k] != Plain('\\') && body[k] != Plain(']')
    ensures ToBracket(PrintToks(body) + ("]" + rest)) == rest
  {
    var close := "]" + rest;
    if body == [] {
      assert "" + close == close;
      assert close[1..] == rest;
    } else {
      ClassBody(body[1..], rest);
      ToksFirst(body, close);
      TokFirst(body[0], PrintToks(body[1..]) + close);
    }
  }

  lemma ClassIsSkipped(negated: bool, body: seq<Tok>, rest: string, alnum: char -> bool)
    requires ValidAtom(Class(negated, body), alnum)
    ensures var p := (if negated then "^" else "") + (PrintToks(body) + ("]" + rest));
            ToBracket(Skip(Skip(p, '^'), ']')) == rest
  {
    var close := "]" + rest;
    var inside := PrintToks(body) + close;
    var more := PrintToks(body[1..]) + close;
    ToksFirst(body, close);
    assert inside[0] == PrintTok(body[0])[0];
    CaretIsSkipped(negated, inside);
    if body[0] == Plain(']') {
      ClassBody(body[1..], rest);
      SkipFirst(']', more);
    } else {
      TokFirst(body[0], more);
      ClassBody(body, rest);
    }
  }

  lemma CaretIsSkipped(negated: bool, inside: string)
    requires inside != "" && (!negated ==> inside[0] != '^')
    ensures Skip((if negated then "^" else "") + inside, '^') == inside
  {
    if negated { SkipFirst('^', inside); } else { assert "" + inside == inside; }
  }

  lemma SkipFirst(c: char, rest: string)
    ensures Skip([c] + rest, c) == rest
  {
    assert ([c] + rest)[1..] == rest;
  }

  lemma ScanClass(negated: bool, body: seq<Tok>, rest: string, st: State, alnum: char -> bool)
    requires ValidAtom(Class(negated, body), alnum)
    ensures Scan(PrintAtom(Class(negated, body)) + rest, st, alnum) == Scan(rest, Flush(st), alnum)
  {
    var neg, toks := if negated then "^" else "", PrintToks(body);
    Assoc("[" + neg + toks, "]", rest);
    Assoc("[" + neg, toks, "]" + rest);
    Assoc("[", neg, toks + ("]" + rest));
    var p := "[" + (neg + (toks + ("]" + rest)));
    assert p[1..] == neg + (toks + ("]" + rest));
    ClassIsSkipped(negated, body, rest, alnum);
  }

  lemma ScanParen(inside: string, st: State, alnum: char -> bool)
    ensures Scan("(" + inside, st, alnum) == Scan(AfterParen(inside), Flush(st), alnum)
  {
    assert ("(" + inside)[1..] == inside;
  }

  lemma ScanEnd(rest: string, st: State, alnum: char -> bool)
    ensures Scan(")" + rest, st, alnum) == Scan(rest, Flush(st), alnum)
  {
    assert (")" + rest)[1..] == rest;
  }

  lemma ScanBrace(inside: string, st: State, alnum: char -> bool)
    ensures Scan("{" + inside, st, alnum) == Scan(Past(inside, "}"), Drop(st), alnum)
  {
    assert ("{" + inside)[1..] == inside;
  }

  lemma ScanSign(c: char, rest: string, st: State, alnum: char -> bool)
    requires c == '*' || c == '+' || c == '?'
    ensures Scan([c] + rest, st, alnum) == Scan(rest, Drop(st), alnum)
  {
    assert ([c] + rest)[1..] == rest;
  }

  /** Characters that mean nothing to the scan are collected. */
  lemma {:induction false} ScanLetters(w: string, rest: string, st: State, alnum: char -> bool)
    requires forall k :: 0 <= k < |w| ==> w[k] !in METACHARACTERS
    ensures Scan(w + rest, st, alnum) == Scan(rest, State(st.runs, st.current + w), alnum)
  {
    if w == "" {
      assert w + rest == rest && st.current + w == st.current;
    } else {
      assert (w + rest)[1..] == w[1..] + rest;
      ScanLetters(w[1..], rest, Push(st, w[0]), alnum);
      assert (st.current + [w[0]]) + w[1..] == st.current + w;
    }
  }

  lemma HexIsPlain(d: char)
    requires IsHex(d)
    ensures d !in METACHARACTERS
  {
  }

  lemma ScanLetterEscape(c: char, rest: string, st: State, alnum: char -> bool)
    requires alnum(c)
    ensures Scan(['\\', c] + rest, st, alnum) == Scan(rest, Flush(st), alnum)
  {
    var p := ['\\', c] + rest;
    assert p[1..][0] == c && p[1..][1..] == rest;
  }

  lemma ScanCoded(c: char, digits: string, rest: string, st: State, alnum: char -> bool)
    requires ValidAtom(Coded(c, digits), alnum)
    ensures Scan((['\\', c] + digits) + rest, st, alnum) == Scan(rest, State(Flush(st).runs, digits), alnum)
  {
    Assoc(['\\', c], digits, rest);
    ScanLetterEscape(c, digits + rest, st, alnum);
    forall k | 0 <= k < |digits| ensures digits[k] !in METACHARACTERS { HexIsPlain(digits[k]); }
    ScanLetters(digits, rest, Flush(st), alnum);
    assert "" + digits == digits;
  }

  /** The name in a back-reference is read as text. */
  lemma ScanSame(name: string, rest: string, st: State, alnum: char -> bool)
    requires Valid(Same(name), alnum)
    ensures Scan(Print(Same(name)) + rest, st, alnum) == Scan(rest, Emit(Same(name), st), alnum)
  {
    var inside := name + (")" + rest);
    SameText(name, rest);
    ScanParen("?P=" + inside, st, alnum);
    PrefixIsSkipped("?P", '=', inside);
    assert "?P" + ['='] == "?P=";
    ScanLetters(name, ")" + rest, Flush(st), alnum);
    assert "" + name == name;
    ScanEnd(rest, State(Flush(st).runs, name), alnum);
  }

  lemma SameText(name: string, rest: string)
    ensures Print(Same(name)) + rest == "(" + ("?P=" + (name + (")" + rest)))
  {
    Assoc("(?P=", name + ")", rest);
    Assoc(name, ")", rest);
    assert "(" + "?P=" == "(?P=";
    Assoc("(", "?P=", name + (")" + rest));
  }

  lemma ScanAtom(a: Atom, rest: string, st: State, alnum: char -> bool)
    requires ValidAtom(a, alnum)
    ensures Scan(PrintAtom(a) + rest, st, alnum) == Scan(rest, EmitAtom(a, st), alnum)
  {
    if a.Class? {
      ScanClass(a.negated, a.body, rest, st, alnum);
    } else if a.Coded? {
      ScanCoded(a.c, a.digits, rest, st, alnum);
    } else if a.Quoted? || a.Mark? {
      var p := ['\\', a.c] + rest;
      assert p[1..][0] == a.c && p[1..][1..] == rest;
    } else {
      assert ([a.c] + rest)[1..] == rest;
    }
  }

  lemma DropIdle(st: State)
    ensures Drop(Drop(st)) == Drop(st) && Drop(Flush(st)) == Flush(st)
  {
  }

  lemma BoundsHaveNoBrace(c: Count)
    requires !c.Star? && !c.Plus? && !c.Opt?
    ensures forall k :: 0 <= k < |PrintBounds(c)| ==> PrintBounds(c)[k] !in "}"
  {
  }

  lemma ScanCount(c: Count, rest: string, st: State, alnum: char -> bool)
    ensures Scan(PrintCount(c) + rest, st, alnum) == Scan(rest, Drop(st), alnum)
  {
    match c
    case Star => ScanSign('*', rest, st, alnum);
    case Plus => ScanSign('+', rest, st, alnum);
    case Opt => ScanSign('?', rest, st, alnum);
    case _ =>
      BoundsHaveNoBrace(c);
      ScanBounds(PrintBounds(c), rest, st, alnum);
  }

  lemma ScanBounds(bounds: string, rest: string, st: State, alnum: char -> bool)
    requires forall k :: 0 <= k < |bounds| ==> bounds[k] !in "}"
    ensures Scan(("{" + (bounds + "}")) + rest, st, alnum) == Scan(rest, Drop(st), alnum)
  {
    Assoc("{", bounds + "}", rest);
    Assoc(bounds, "}", rest);
    ScanBrace(bounds + ("}" + rest), st, alnum);
    PastStop(bounds, '}', rest, "}");
  }

  lemma ScanStyle(s: Style, rest: string, st: State, alnum: char -> bool)
    ensures Scan(PrintStyle(s) + rest, Drop(st), alnum) == Scan(rest, Drop(st), alnum)
  {
    var p := PrintStyle(s) + rest;
    if s.Greedy? {
      assert p == rest;
    } else {
      DropIdle(st);
      assert p[1..] == rest;
    }
  }

  lemma ScanQuantifier(q: Quantifier, rest: string, st: State, alnum: char -> bool)
    ensures Scan(PrintQuantifier(q) + rest, st, alnum) == Scan(rest, Drop(st), alnum)
  {
    Assoc(PrintCount(q.count), PrintStyle(q.style), rest);
    ScanCount(q.count, PrintStyle(q.style) + rest, st, alnum);
    ScanStyle(q.style, rest, st, alnum);
  }

  lemma {:induction false} NeverStartsWithQuestion(r: Re, alnum: char -> bool)
    requires Valid(r, alnum)
    ensures Print(r) != "" ==> Print(r)[0] != '?'
  {
    match r
    case Cat(l, r) =>
      NeverStartsWithQuestion(l, alnum);
      NeverStartsWithQuestion(r, alnum);
    case Alt(l, r) => NeverStartsWithQuestion(l, alnum);
    case _ =>
  }

  lemma PrefixIsSkipped(prefix: string, c: char, body: string)
    requires prefix != "" && prefix[0] == '?' && c in ":=!>)"
    requires forall k :: 0 <= k < |prefix| ==> prefix[k] !in ":=!>)"
    ensures AfterParen((prefix + [c]) + body) == body
  {
    Assoc(prefix, [c], body);
    PastStop(prefix, c, body, ":=!>)");
  }

  lemma ParenIsSkipped(kind: Kind, body: string)
    requires body != "" && body[0] != '?'
    requires kind.Named? ==> forall c :: c in kind.name ==> c !in ":=!>)"
    ensures AfterParen(PrintKind(kind) + body) == body
  {
    match kind
    case Capture => assert "" + body == body;
    case NonCapturing => PrefixIsSkipped("?", ':', body); assert "?" + [':'] == "?:";
    case Atomic => PrefixIsSkipped("?", '>', body); assert "?" + ['>'] == "?>";
    case Named(name) =>
      PrefixIsSkipped("?P<" + name, '>', body);
      assert "?P<" + (name + ">") == ("?P<" + name) + ['>'];
    case Ahead(positive) =>
      PrefixIsSkipped("?", if positive then '=' else '!', body);
      assert "?" + ['='] == "?=" && "?" + ['!'] == "?!";
    case Behind(positive) =>
      PrefixIsSkipped("?<", if positive then '=' else '!', body);
      assert "?<" + ['='] == "?<=" && "?<" + ['!'] == "?<!";
  }

  /** The walk over the characters is the recursion over the tree. */
  lemma {:induction false} ScanPrint(r: Re, rest: string, st: State, alnum: char -> bool)
    requires Valid(r, alnum)
    ensures Scan(Print(r) + rest, st, alnum) == Scan(rest, Emit(r, st), alnum)
    decreases r, 0
  {
    match r
    case Empty => assert "" + rest == rest;
    case One(a) => ScanAtom(a, rest, st, alnum);
    case Rep(a, q) => ScanRep(a, q, rest, st, alnum);
    case Cat(l, r) =>
      Assoc(Print(l), Print(r), rest);
      ScanPrint(l, Print(r) + rest, st, alnum);
      ScanPrint(r, rest, Emit(l, st), alnum);
    case Alt(l, r) =>
      Assoc(Print(l), "|" + Print(r), rest);
      ScanPrint(l, ("|" + Print(r)) + rest, st, alnum);
      ScanBar(Print(r), rest, Emit(l, st), alnum);
      ScanPrint(r, rest, Flush(Emit(l, st)), alnum);
    case Group(kind, body, times) => ScanGroup(kind, body, times, rest, st, alnum);
    case Same(name) => ScanSame(name, rest, st, alnum);
  }

  lemma ScanRep(a: Atom, q: Quantifier, rest: string, st: State, alnum: char -> bool)
    requires ValidAtom(a, alnum)
    ensures Scan((PrintAtom(a) + PrintQuantifier(q)) + rest, st, alnum) == Scan(rest, Drop(EmitAtom(a, st)), alnum)
  {
    Assoc(PrintAtom(a), PrintQuantifier(q), rest);
    ScanAtom(a, PrintQuantifier(q) + rest, st, alnum);
    ScanQuantifier(q, rest, EmitAtom(a, st), alnum);
  }

  /** A quantified atom that stands for one written character leaves no trace. */
  lemma DropAtom(a: Atom, st: State)
    requires !a.Coded?
    ensures Drop(EmitAtom(a, st)) == Flush(st)
  {
    DropIdle(st);
    if a.Chr? || a.Quoted? {
      var pushed := Push(st, a.c);
      assert pushed.current[..|pushed.current| - 1] == st.current;
    }
  }

  lemma ScanBar(right: string, rest: string, st: State, alnum: char -> bool)
    ensures Scan(("|" + right) + rest, st, alnum) == Scan(right + rest, Flush(st), alnum)
  {
    assert (("|" + right) + rest)[1..] == right + rest;
  }

  lemma ScanOpen(kind: Kind, inside: string, st: State, alnum: char -> bool)
    requires inside != "" && inside[0] != '?'
    requires kind.Named? ==> forall c :: c in kind.name ==> c !in ":=!>)"
    ensures Scan("(" + (PrintKind(kind) + inside), st, alnum) == Scan(inside, Flush(st), alnum)
  {
    ParenIsSkipped(kind, inside);
    ScanParen(PrintKind(kind) + inside, st, alnum);
  }

  lemma ScanClose(times: Option<Quantifier>, rest: string, st: State, alnum: char -> bool)
    ensures Scan(")" + (PrintTimes(times) + rest), st, alnum) == Scan(rest, Flush(st), alnum)
  {
    var tail := PrintTimes(times) + rest;
    ScanEnd(tail, st, alnum);
    if times.Some? {
      ScanQuantifier(times.value, rest, Flush(st), alnum);
      DropIdle(st);
    } else {
      assert tail == rest;
    }
  }

  lemma {:induction false} ScanGroup(kind: Kind, body: Re, times: Option<Quantifier>, rest: string, st: State,
                                     alnum: char -> bool)
    requires Valid(Group(kind, body, times), alnum)
    ensures Scan(Print(Group(kind, body, times)) + rest, st, alnum)
         == Scan(rest, Emit(Group(kind, body, times), st), alnum)
    decreases body, 1
  {
    var close := ")" + (PrintTimes(times) + rest);
    GroupText(kind, body, times, rest);
    NeverStartsWithQuestion(body, alnum);
    ScanOpen(kind, Print(body) + close, st, alnum);
    ScanPrint(body, close, Flush(st), alnum);
    ScanClose(times, rest, Emit(body, Flush(st)), alnum);
  }

  lemma GroupText(kind: Kind, body: Re, times: Option<Quantifier>, rest: string)
    ensures Print(Group(kind, body, times)) + rest
         == "(" + (PrintKind(kind) + (Print(body) + (")" + (PrintTimes(times) + rest))))
  {
    var k, b, t := PrintKind(kind), Print(body), PrintTimes(times);
    Assoc("(", k + (b + (")" + t)), rest);
    Assoc(k, b + (")" + t), rest);
    Assoc(b, ")" + t, rest);
    Assoc(")", t, rest);
  }

  /** For every tree, the tool's runs of its written form are the tree's runs. */
  lemma RunsOfWritten(r: Re, alnum: char -> bool)
    requires Valid(r, alnum)
    ensures Runs(Print(r), alnum) == RunsOf(r)
  {
    ScanPrint(r, "", State([], ""), alnum);
    assert Print(r) + "" == Print(r);
  }

  // ---- Every run is in every match -----------------------------------------

  predicate Demands(q: Option<Quantifier>) {
    q.None? || !q.value.Allows(0)
  }

  predicate Negative(kind: Kind) {
    (kind.Ahead? || kind.Behind?) && !kind.positive
  }

  /** Alternatives, groups that may match nothing and negative look-arounds are
      harmless when they name no text, coded characters and back-references never;
      everything else always is. */
  predicate Certain(r: Re) {
    match r
    case Cat(l, r) => Certain(l) && Certain(r)
    case Alt(_, _) => RunsOf(r) == []
    case One(a) => !a.Coded?
    case Rep(a, _) => !a.Coded?
    case Same(_) => false
    case Group(kind, body, times) => RunsOf(body) == [] || (!Negative(kind) && Demands(times) && Certain(body))
    case _ => true
  }

  lemma {:induction false} EmitFrame(r: Re, st: State, runs: seq<string>)
    ensures Emit(r, State(runs + st.runs, st.current))
         == State(runs + Emit(r, st).runs, Emit(r, st).current)
  {
    FlushFrame(st, runs);
    match r
    case Empty =>
    case One(a) =>
    case Rep(a, _) =>
      assert EmitAtom(a, State(runs + st.runs, st.current)) == State(runs + EmitAtom(a, st).runs,
                                                            EmitAtom(a, st).current);
      DropFrame(EmitAtom(a, st), runs);
    case Cat(l, r) =>
      EmitFrame(l, st, runs);
      EmitFrame(r, Emit(l, st), runs);
    case Alt(l, r) =>
      EmitFrame(l, st, runs);
      FlushFrame(Emit(l, st), runs);
      EmitFrame(r, Flush(Emit(l, st)), runs);
    case Group(_, body, _) =>
      EmitFrame(body, Flush(st), runs);
      FlushFrame(Emit(body, Flush(st)), runs);
    case Same(name) => FlushFrame(State(Flush(st).runs, name), runs);
  }

  lemma DropFrame(st: State, runs: seq<string>)
    ensures Drop(State(runs + st.runs, st.current)) == State(runs + Drop(st).runs, Drop(st).current)
  {
    FlushFrame(if st.current == "" then st else st.(current := st.current[..|st.current| - 1]), runs);
  }

  lemma FlushFrame(st: State, runs: seq<string>)
    ensures Flush(State(runs + st.runs, st.current)) == State(runs + Flush(st).runs, Flush(st).current)
  {
    assert (runs + st.runs) + [st.current] == runs + (st.runs + [st.current]);
  }

  /** A tree without runs adds none, wherever it stands. */
  lemma SilentAddsNothing(r: Re, runs: seq<string>)
    requires RunsOf(r) == []
    ensures Flush(Emit(r, State(runs, ""))) == State(runs, "")
  {
    var st := State([], "");
    EmitFrame(r, st, runs);
    FlushFrame(Emit(r, st), runs);
    assert runs + [] == runs;
  }

  /** All finished runs are in the line, and the unfinished one ends at `i`. */
  ghost predicate Found(st: State, s: string, i: nat) {
    && (forall run :: run in st.runs ==> Contains(s, run))
    && |st.current| <= i <= |s| && s[i - |st.current|..i] == st.current
  }

  lemma FoundFlush(st: State, s: string, i: nat, j: nat)
    requires Found(st, s, i) && j <= |s|
    ensures Found(Flush(st), s, j)
  {
    if st.current != "" { assert OccursAt(s, st.current, i - |st.current|); }
    assert s[j..j] == "";
  }

  lemma {:induction false} MatchKeepsFound(m: Meaning, r: Re, s: string, i: nat, j: nat, st: State)
    requires Certain(r) && Match(m, r, s, i, j) && Found(st, s, i)
    requires r.Alt? ==> st.current == ""
    requires TopAlt(r)
    ensures j <= |s| && Found(Flush(Emit(r, st)), s, j)
    ensures !r.Alt? ==> Found(Emit(r, st), s, j)
    decreases r
  {
    match r
    case Empty => FoundFlush(st, s, i, j);
    case One(a) => FoundAtom(m, a, s, i, j, st);
    case Rep(a, _) =>
      DropAtom(a, st);
      FoundFlush(st, s, i, j);
    case Cat(l, r') =>
      var k: nat :| Match(m, l, s, i, k) && Match(m, r', s, k, j);
      MatchKeepsFound(m, l, s, i, k, st);
      MatchKeepsFound(m, r', s, k, j, Emit(l, st));
    case Alt(_, _) =>
      SilentAddsNothing(r, st.runs);
      FoundFlush(st, s, i, j);
    case Group(kind, body, times) =>
      FoundFlush(st, s, i, j);
      FoundFlush(st, s, i, i);
      if RunsOf(body) == [] {
        SilentAddsNothing(body, Flush(st).runs);
      } else {
        var a, b := SomeOccurrence(m, kind, body, times, s, i, j);
        FoundFlush(st, s, i, a);
        MatchKeepsFound(m, body, s, a, b, Flush(st));
        FoundFlush(Flush(Emit(body, Flush(st))), s, b, j);
      }
  }

  /** Alternatives stand only at the top of a pattern or directly in a group. */
  predicate TopAlt(r: Re) {
    match r
    case Cat(l, r) => !l.Alt? && !r.Alt? && TopAlt(l) && TopAlt(r)
    case Alt(l, r) => TopAlt(l) && TopAlt(r)
    case Group(_, body, _) => TopAlt(body)
    case _ => true
  }

  lemma {:induction false} ValidIsTopAlt(r: Re, alnum: char -> bool)
    requires Valid(r, alnum)
    ensures TopAlt(r)
  {
    match r
    case Cat(l, r) => ValidIsTopAlt(l, alnum); ValidIsTopAlt(r, alnum);
    case Alt(l, r) => ValidIsTopAlt(l, alnum); ValidIsTopAlt(r, alnum);
    case Group(_, body, _) => ValidIsTopAlt(body, alnum);
    case _ =>
  }

  lemma FoundAtom(m: Meaning, a: Atom, s: string, i: nat, j: nat, st: State)
    requires MatchAtom(m, a, s, i, j) && Found(st, s, i) && !a.Coded?
    ensures Found(EmitAtom(a, st), s, j) && Found(Flush(EmitAtom(a, st)), s, j)
  {
    if a.Chr? || a.Quoted? {
      var next := Push(st, a.c);
      assert s[j - |next.current|..j] == s[i - |st.current|..i] + [s[i]];
    } else {
      FoundFlush(st, s, i, j);
    }
    FoundFlush(EmitAtom(a, st), s, j, j);
  }

  lemma FirstOfTimes(m: Meaning, kind: Kind, body: Re, n: nat, s: string, i: nat, j: nat)
    requires n > 0 && GroupTimes(m, kind, body, n, s, i, j)
    ensures exists k: nat :: MatchGroup(m, kind, body, s, i, k)
  {
  }

  /** A group that must match has matched somewhere in the line. */
  lemma SomeOccurrence(m: Meaning, kind: Kind, body: Re, times: Option<Quantifier>, s: string, i: nat, j: nat)
    returns (a: nat, b: nat)
    requires Match(m, Group(kind, body, times), s, i, j) && !Negative(kind) && Demands(times)
    ensures Match(m, body, s, a, b)
  {
    var end: nat := j;
    if times.Some? {
      var n: nat :| times.value.Allows(n) && GroupTimes(m, kind, body, n, s, i, j);
      FirstOfTimes(m, kind, body, n, s, i, j);
      var k: nat :| MatchGroup(m, kind, body, s, i, k);
      end := k;
    }
    assert MatchGroup(m, kind, body, s, i, end);
    if kind.Ahead? {
      var k: nat :| Match(m, body, s, i, k);
      a, b := i, k;
    } else if kind.Behind? {
      var k: nat :| Match(m, body, s, k, i);
      a, b := k, i;
    } else {
      a, b := i, end;
    }
  }

  /** Soundness: in every line a pattern matches, every run the tool extracts from
      the written pattern occurs. */
  lemma RunsAreInEveryMatch(m: Meaning, r: Re, alnum: char -> bool, s: string, i: nat, j: nat, run: string)
    requires Valid(r, alnum) && Certain(r)
    requires Match(m, r, s, i, j)
    requires run in Runs(Print(r), alnum)
    ensures Contains(s, run)
  {
    RunsOfWritten(r, alnum);
    ValidIsTopAlt(r, alnum);
    assert s[i..i] == "";
    MatchKeepsFound(m, r, s, i, j, State([], ""));
  }
}
