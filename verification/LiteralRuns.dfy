/** `_literal_runs`: the texts that can be read off a rename pattern because no match is
    without them.

    The tool never builds a syntax tree; it walks the characters of the pattern.
    The reference is the syntax tree: what a tree is written as, and which stretches
    of a line it matches. */
module LiteralRuns {
  import opened Text
  import Digits

  // ---- Patterns ------------------------------------------------------------

  /** One element of a character class. */
  datatype Tok = Plain(c: char) | Escape(c: char)

  /** What stands for one position of a pattern.
      - `Chr`: an ordinary character;
      - `Quoted`: a backslash and a character that is not a letter or digit;
      - `Mark`: a backslash and a letter, such as a word boundary or a digit class;
      - `Sign`: one of `.`, `^`, `$`;
      - `Closer`: a `]` or `}` that closes nothing, which matches itself;
      - `Coded`: a backslash, `x`, `u` or `U`, and the code of a character in hex, or a
        backslash and three octal digits. */
  datatype Atom =
    | Chr(c: char)
    | Quoted(c: char)
    | Mark(c: char)
    | Sign(c: char)
    | Closer(c: char)
    | Class(negated: bool, body: seq<Tok>)
    | Coded(c: char, digits: string)

  datatype Count = Star | Plus | Opt | Exactly(n: nat) | AtLeast(lo: nat) | AtMost(hi: nat) | Between(lo: nat, hi: nat)

  datatype Style = Greedy | Lazy | Possessive

  datatype Quantifier = Quantifier(count: Count, style: Style) {
    predicate Allows(n: nat) {
      match count
      case Star => true
      case Plus => n >= 1
      case Opt => n <= 1
      case Exactly(k) => n == k
      case AtLeast(lo) => lo <= n
      case AtMost(hi) => n <= hi
      case Between(lo, hi) => lo <= n <= hi
    }
  }

  datatype Kind =
    | Capture
    | NonCapturing
    | Atomic
    | Named(name: string)
    | Ahead(positive: bool)
    | Behind(positive: bool)

  datatype Re =
    | Empty
    | One(a: Atom)
    | Rep(a: Atom, q: Quantifier)
    | Cat(l: Re, r: Re)
    | Alt(l: Re, r: Re)
    | Group(kind: Kind, body: Re, times: Option<Quantifier>)
    | Same(name: string)

  const METACHARACTERS := "\\[({*+?.^$|)]}"

  predicate ValidAtom(a: Atom, alnum: char -> bool) {
    match a
    case Chr(c) => c !in METACHARACTERS
    case Quoted(c) => !alnum(c)
    case Mark(c) => alnum(c) && c !in "xuUN0123456789"
    case Sign(c) => c in ".^$"
    case Closer(c) => c in "]}"
    case Coded(c, digits) =>
      && alnum(c) && (forall k :: 0 <= k < |digits| ==> IsHex(digits[k]))
      && if c in "xuU" then
           |digits| == if c == 'x' then 2 else if c == 'u' then 4 else 8
         else
           '0' <= c <= '3' && |digits| == 2 && forall k :: 0 <= k < 2 ==> '0' <= digits[k] <= '7'
    case Class(negated, body) =>
      && body != []
      && body[0] != Plain('\\') && (!negated ==> body[0] != Plain('^'))
      && forall k :: 1 <= k < |body| ==> body[k] != Plain('\\') && body[k] != Plain(']')
  }

  predicate IsHex(d: char) {
    '0' <= d <= '9' || 'a' <= d <= 'f' || 'A' <= d <= 'F'
  }

  function HexValue(digits: string): nat {
    if digits == "" then 0 else HexValue(digits[..|digits| - 1]) * 16 + HexDigit(digits[|digits| - 1])
  }

  function OctalValue(digits: string): nat {
    if digits == "" then 0 else OctalValue(digits[..|digits| - 1]) * 8 + HexDigit(digits[|digits| - 1])
  }

  function CodeValue(c: char, digits: string): nat {
    if c in "xuU" then HexValue(digits) else OctalValue([c] + digits)
  }

  function HexDigit(d: char): nat {
    if '0' <= d <= '9' then d as int - '0' as int
    else if 'a' <= d <= 'f' then d as int - 'a' as int + 10
    else if 'A' <= d <= 'F' then d as int - 'A' as int + 10
    else 0
  }

  predicate ValidQuantifier(q: Quantifier) {
    q.count.Between? ==> q.count.lo <= q.count.hi
  }

  /** A tree whose written form Python reads back as that tree. */
  predicate Valid(r: Re, alnum: char -> bool) {
    match r
    case Empty => true
    case One(a) => ValidAtom(a, alnum)
    case Rep(a, q) => ValidAtom(a, alnum) && ValidQuantifier(q)
    case Cat(l, r) => !l.Alt? && !r.Alt? && Valid(l, alnum) && Valid(r, alnum)
    case Alt(l, r) => Valid(l, alnum) && Valid(r, alnum)
    case Group(kind, body, times) =>
      && Valid(body, alnum) && (times.Some? ==> ValidQuantifier(times.value))
      && (kind.Named? ==> forall c :: c in kind.name ==> c !in ":=!>)")
    case Same(name) => name != "" && forall k :: 0 <= k < |name| ==> name[k] !in METACHARACTERS && name[k] !in ":=!>)"
  }

  // ---- How a pattern is written --------------------------------------------

  function PrintToks(body: seq<Tok>): string {
    if body == [] then "" else PrintTok(body[0]) + PrintToks(body[1..])
  }

  function PrintTok(t: Tok): string {
    match t
    case Plain(c) => [c]
    case Escape(c) => ['\\', c]
  }

  function PrintAtom(a: Atom): string {
    match a
    case Chr(c) => [c]
    case Quoted(c) => ['\\', c]
    case Mark(c) => ['\\', c]
    case Sign(c) => [c]
    case Closer(c) => [c]
    case Coded(c, digits) => ['\\', c] + digits
    case Class(negated, body) => "[" + (if negated then "^" else "") + PrintToks(body) + "]"
  }

  function PrintBounds(c: Count): string
    requires !c.Star? && !c.Plus? && !c.Opt?
  {
    match c
    case Exactly(n) => Digits.ToString(n)
    case AtLeast(lo) => Digits.ToString(lo) + ","
    case AtMost(hi) => "," + Digits.ToString(hi)
    case Between(lo, hi) => Digits.ToString(lo) + "," + Digits.ToString(hi)
  }

  function PrintCount(c: Count): string {
    match c
    case Star => "*"
    case Plus => "+"
    case Opt => "?"
    case _ => "{" + (PrintBounds(c) + "}")
  }

  function PrintStyle(s: Style): string {
    match s
    case Greedy => ""
    case Lazy => "?"
    case Possessive => "+"
  }

  function PrintQuantifier(q: Quantifier): string {
    PrintCount(q.count) + PrintStyle(q.style)
  }

  function PrintKind(k: Kind): string {
    match k
    case Capture => ""
    case NonCapturing => "?:"
    case Atomic => "?>"
    case Named(name) => "?P<" + (name + ">")
    case Ahead(positive) => if positive then "?=" else "?!"
    case Behind(positive) => if positive then "?<=" else "?<!"
  }

  function PrintTimes(q: Option<Quantifier>): string {
    if q.None? then "" else PrintQuantifier(q.value)
  }

  function Print(r: Re): string {
    match r
    case Empty => ""
    case One(a) => PrintAtom(a)
    case Rep(a, q) => PrintAtom(a) + PrintQuantifier(q)
    case Cat(l, r) => Print(l) + Print(r)
    case Alt(l, r) => Print(l) + ("|" + Print(r))
    case Group(kind, body, times) => "(" + (PrintKind(kind) + (Print(body) + (")" + PrintTimes(times))))
    case Same(name) => "(?P=" + (name + ")")
  }

  // ---- What a pattern matches ----------------------------------------------

  /** What classes, letter escapes, signs and back-references mean is left open, and so
      is on which of the possible stretches an atomic group or a possessive quantifier
      settles: the laws hold for every reading of them. */
  datatype Meaning = Meaning(
    inClass: (bool, seq<Tok>, char) -> bool,
    mark: (char, string, nat, nat) -> bool,
    sign: (char, string, nat, nat) -> bool,
    same: (string, string, nat, nat) -> bool,
    settled: (Re, string, nat, nat) -> bool)

  ghost predicate MatchAtom(m: Meaning, a: Atom, s: string, i: nat, j: nat) {
    i <= j <= |s| &&
    match a
    case Chr(c) => j == i + 1 && s[i] == c
    case Quoted(c) => j == i + 1 && s[i] == c
    case Closer(c) => j == i + 1 && s[i] == c
    case Mark(c) => m.mark(c, s, i, j)
    case Sign(c) => m.sign(c, s, i, j)
    case Class(negated, body) => j == i + 1 && m.inClass(negated, body, s[i])
    case Coded(c, digits) => j == i + 1 && s[i] as int == CodeValue(c, digits)
  }

  ghost predicate AtomTimes(m: Meaning, a: Atom, n: nat, s: string, i: nat, j: nat)
    decreases n
  {
    if n == 0 then i == j <= |s| else
    exists k: nat :: MatchAtom(m, a, s, i, k) && AtomTimes(m, a, n - 1, s, k, j)
  }

  /** The pattern matches the stretch `s[i..j]` of the line `s`.  Look-arounds read
      the line outside that stretch. */
  ghost predicate Match(m: Meaning, r: Re, s: string, i: nat, j: nat)
    decreases r, 0, 0
  {
    i <= j <= |s| &&
    match r
    case Empty => i == j
    case One(a) => MatchAtom(m, a, s, i, j)
    case Rep(a, q) => AtomReaches(m, a, q, s, i, j) && (q.style.Possessive? ==> m.settled(r, s, i, j))
    case Cat(l, r) => exists k: nat :: Match(m, l, s, i, k) && Match(m, r, s, k, j)
    case Alt(l, r) => Match(m, l, s, i, j) || Match(m, r, s, i, j)
    case Group(kind, body, None) => MatchGroup(m, kind, body, s, i, j)
    case Group(kind, body, Some(q)) =>
      GroupReaches(m, kind, body, q, s, i, j) && (q.style.Possessive? ==> m.settled(r, s, i, j))
    case Same(name) => m.same(name, s, i, j)
  }

  ghost predicate AtomReaches(m: Meaning, a: Atom, q: Quantifier, s: string, i: nat, j: nat) {
    exists n: nat :: q.Allows(n) && AtomTimes(m, a, n, s, i, j)
  }

  ghost predicate GroupReaches(m: Meaning, kind: Kind, body: Re, q: Quantifier, s: string, i: nat, j: nat)
    decreases body, 3, 0
  {
    exists n: nat :: q.Allows(n) && GroupTimes(m, kind, body, n, s, i, j)
  }

  ghost predicate MatchGroup(m: Meaning, kind: Kind, body: Re, s: string, i: nat, j: nat)
    decreases body, 1, 0
  {
    i <= j <= |s| &&
    match kind
    case Ahead(positive) => i == j && positive == exists k: nat :: Match(m, body, s, i, k)
    case Behind(positive) => i == j && positive == exists k: nat :: Match(m, body, s, k, i)
    case Atomic => Match(m, body, s, i, j) && m.settled(Group(kind, body, None), s, i, j)
    case _ => Match(m, body, s, i, j)
  }

  ghost predicate GroupTimes(m: Meaning, kind: Kind, body: Re, n: nat, s: string, i: nat, j: nat)
    decreases body, 2, n
  {
    if n == 0 then i == j <= |s| else
    exists k: nat :: MatchGroup(m, kind, body, s, i, k) && GroupTimes(m, kind, body, n - 1, s, k, j)
  }

  // ---- The scan ------------------------------------------------------------

  /** The finished runs, and the one being collected. */
  datatype State = State(runs: seq<string>, current: string)

  function Flush(st: State): State {
    if st.current == "" then st else State(st.runs + [st.current], "")
  }

  function Push(st: State, c: char): State {
    st.(current := st.current + [c])
  }

  /** A quantifier takes back the character in front of it. */
  function Drop(st: State): State {
    Flush(if st.current == "" then st else st.(current := st.current[..|st.current| - 1]))
  }

  function Tail(p: string, k: nat): string {
    if k <= |p| then p[k..] else ""
  }

  /** Behind the `]` that ends a class, from a point inside it. */
  function ToBracket(p: string): (t: string)
    ensures |t| <= |p|
    decreases |p|
  {
    if p == "" then ""
    else if p[0] == ']' then p[1..]
    else ToBracket(Tail(p, if p[0] == '\\' then 2 else 1))
  }

  /** Skip one leading `c`, if it is there. */
  function Skip(p: string, c: char): (t: string)
    ensures |t| <= |p|
  {
    if p != "" && p[0] == c then p[1..] else p
  }

  /** Behind the first character of `stops`. */
  function Past(p: string, stops: string): (t: string)
    ensures |t| <= |p|
  {
    if p == "" then "" else if p[0] in stops then p[1..] else Past(p[1..], stops)
  }

  function AfterParen(p: string): (t: string)
    ensures |t| <= |p|
  {
    if p != "" && p[0] == '?' then Past(p, ":=!>)") else p
  }

  function Scan(p: string, st: State, alnum: char -> bool): State
    decreases |p|
  {
    if p == "" then Flush(st)
    else
      var c, rest := p[0], p[1..];
      if c == '\\' then
        if rest == "" then Flush(st)
        else if alnum(rest[0]) then Scan(rest[1..], Flush(st), alnum)
        else Scan(rest[1..], Push(st, rest[0]), alnum)
      else if c == '[' then Scan(ToBracket(Skip(Skip(rest, '^'), ']')), Flush(st), alnum)
      else if c == '(' then Scan(AfterParen(rest), Flush(st), alnum)
      else if c == '{' then Scan(Past(rest, "}"), Drop(st), alnum)
      else if c in "*+?" then Scan(rest, Drop(st), alnum)
      else if c in ".^$|)]}" then Scan(rest, Flush(st), alnum)
      else Scan(rest, Push(st, c), alnum)
  }

  function Runs(pattern: string, alnum: char -> bool): seq<string> {
    Scan(pattern, State([], ""), alnum).runs
  }

  method SkipOne(pattern: string, start: nat, c: char) returns (index: nat)
    requires start <= |pattern|
    ensures start <= index <= |pattern| && Tail(pattern, index) == Skip(Tail(pattern, start), c)
  {
    index := start;
    if index < |pattern| && pattern[index] == c {
      TailTail(pattern, index, 1);
      index := index + 1;
    }
  }

  method SkipToBracket(pattern: string, start: nat) returns (index: nat)
    requires start <= |pattern|
    ensures index >= start && Tail(pattern, index) == ToBracket(Tail(pattern, start))
  {
    index := start;
    ghost var goal := ToBracket(Tail(pattern, start));
    while index < |pattern| && pattern[index] != ']'
      invariant index >= start
      invariant goal == ToBracket(Tail(pattern, index))
      decreases |pattern| - index
    {
      index := StepInClass(pattern, index);
    }
    ClassEnd(pattern, index);
    index := index + 1;
  }

  method StepInClass(pattern: string, index: nat) returns (next: nat)
    requires index < |pattern| && pattern[index] != ']'
    ensures next > index && ToBracket(Tail(pattern, next)) == ToBracket(Tail(pattern, index))
  {
    ClassStep(pattern, index);
    next := index + (if pattern[index] == '\\' then 2 else 1);
  }

  method SkipClass(pattern: string, start: nat) returns (index: nat)
    requires start <= |pattern|
    ensures index >= start && Tail(pattern, index) == ToBracket(Skip(Skip(Tail(pattern, start), '^'), ']'))
  {
    index := SkipOne(pattern, start, '^');
    index := SkipOne(pattern, index, ']');
    index := SkipToBracket(pattern, index);
  }

  lemma ClassStep(p: string, i: nat)
    requires i < |p| && p[i] != ']'
    ensures ToBracket(Tail(p, i)) == ToBracket(Tail(p, i + if p[i] == '\\' then 2 else 1))
  {
    TailTail(p, i, if p[i] == '\\' then 2 else 1);
  }

  lemma ClassEnd(p: string, i: nat)
    requires i < |p| ==> p[i] == ']'
    ensures ToBracket(Tail(p, i)) == Tail(p, i + 1)
  {
    TailTail(p, i, 1);
  }

  method SkipPast(pattern: string, start: nat, stops: string) returns (index: nat)
    requires start <= |pattern|
    ensures index >= start && Tail(pattern, index) == Past(Tail(pattern, start), stops)
  {
    index := start;
    ghost var goal := Past(Tail(pattern, start), stops);
    while index < |pattern| && pattern[index] !in stops
      invariant index >= start
      invariant goal == Past(Tail(pattern, index), stops)
    {
      PastStep(pattern, index, stops);
      index := index + 1;
    }
    PastEnd(pattern, index, stops);
    index := index + 1;
  }

  lemma PastStep(p: string, i: nat, stops: string)
    requires i < |p| && p[i] !in stops
    ensures Past(Tail(p, i), stops) == Past(Tail(p, i + 1), stops)
  {
    TailTail(p, i, 1);
  }

  lemma PastEnd(p: string, i: nat, stops: string)
    requires i < |p| ==> p[i] in stops
    ensures Past(Tail(p, i), stops) == Tail(p, i + 1)
  {
    TailTail(p, i, 1);
  }

  method LiteralRuns(pattern: string, alnum: char -> bool) returns (runs: seq<string>)
    ensures runs == Runs(pattern, alnum)
  {
    runs := [];
    var current := "";
    var index, length := 0, |pattern|;
    ghost var goal := Scan(pattern, State([], ""), alnum);
    while index < length
      invariant index >= 0
      invariant goal == Scan(Tail(pattern, index), State(runs, current), alnum)
      decreases length - index
    {
      TailTail(pattern, index, 1);
      var ch := pattern[index];
      index := index + 1;
      if ch == '\\' {
        if index >= length {
          break;
        }
        TailTail(pattern, index, 1);
        var escaped := pattern[index];
        index := index + 1;
        if alnum(escaped) {
          runs, current := FlushRun(runs, current);
        } else {
          current := current + [escaped];
        }
      } else if ch == '[' {
        runs, current := FlushRun(runs, current);
        index := SkipClass(pattern, index);
      } else if ch == '(' {
        runs, current := FlushRun(runs, current);
        if index < length && pattern[index] == '?' {
          index := SkipPast(pattern, index, ":=!>)");
        }
      } else if ch == '{' {
        runs, current := DropLast(runs, current);
        index := SkipPast(pattern, index, "}");
      } else if ch in "*+?" {
        runs, current := DropLast(runs, current);
      } else if ch in ".^$|)]}" {
        runs, current := FlushRun(runs, current);
      } else {
        current := current + [ch];
      }
    }
    runs, current := FlushRun(runs, current);
  }

  method FlushRun(runs: seq<string>, current: string) returns (runs': seq<string>, current': string)
    ensures State(runs', current') == Flush(State(runs, current))
  {
    runs', current' := runs, current;
    if current != "" {
      runs', current' := runs + [current], "";
    }
  }

  method DropLast(runs: seq<string>, current: string) returns (runs': seq<string>, current': string)
    ensures State(runs', current') == Drop(State(runs, current))
  {
    current' := current;
    if current != "" {
      current' := current[..|current| - 1];
    }
    runs', current' := FlushRun(runs, current');
  }

  lemma TailTail(p: string, i: nat, k: nat)
    requires k > 0
    ensures Tail(p, i + k) == Tail(Tail(p, i), k)
  {
  }
}
