/** The scan of patterns made of literal words around one part that names text it need
    not match: when it promises too much, and exactly when it does not. */
module PatternWords {
  import opened Text
  import opened LiteralRuns
  import opened PatternRuns
  import opened PatternLimits

  // ---- Concatenation -------------------------------------------------------

  lemma CatMatches(m: Meaning, l: Re, r: Re, s: string, i: nat, j: nat)
    ensures Match(m, Cat(l, r), s, i, j)
       <==> i <= j <= |s| && exists k: nat :: Match(m, l, s, i, k) && Match(m, r, s, k, j)
  {
    if Match(m, Cat(l, r), s, i, j) {
      var k := CatSplits(m, Cat(l, r), s, i, j);
      assert i <= j <= |s|;
      assert Match(m, l, s, i, k) && Match(m, r, s, k, j);
    }
  }

  lemma CatSplits(m: Meaning, c: Re, s: string, i: nat, j: nat) returns (k: nat)
    requires c.Cat? && Match(m, c, s, i, j)
    ensures Match(m, c.l, s, i, k) && Match(m, c.r, s, k, j)
  {
    match c
    case Cat(l, r) =>
      k :| Match(m, l, s, i, k) && Match(m, r, s, k, j);
  }

  lemma CatJoins(m: Meaning, l: Re, r: Re, s: string, i: nat, k: nat, j: nat)
    requires i <= j <= |s| && Match(m, l, s, i, k) && Match(m, r, s, k, j)
    ensures Match(m, Cat(l, r), s, i, j)
  {
    CatMatches(m, l, r, s, i, j);
  }

  lemma TwoParts(s: string, i: nat, k: nat, j: nat)
    requires i <= k <= j <= |s|
    ensures s[i..j] == s[i..k] + s[k..j]
  {
  }

  // ---- Words ---------------------------------------------------------------

  /** The pattern that spells `w`. */
  function Word(w: string): Re {
    if w == "" then Empty else Cat(Word(w[..|w| - 1]), One(Chr(w[|w| - 1])))
  }

  predicate Spellable(w: string) {
    forall k :: 0 <= k < |w| ==> w[k] !in METACHARACTERS
  }

  function Texts(w: string): seq<string> {
    if w == "" then [] else [w]
  }

  lemma {:induction false} WordIsValid(w: string, alnum: char -> bool)
    requires Spellable(w)
    ensures Valid(Word(w), alnum) && !Word(w).Alt?
  {
    if w == "" {
    } else {
      WordIsValid(w[..|w| - 1], alnum);
    }
  }

  lemma {:induction false} EmitWord(w: string, st: State)
    ensures Emit(Word(w), st) == State(st.runs, st.current + w)
  {
    if w == "" {
      assert st.current + w == st.current;
    } else {
      var front := w[..|w| - 1];
      EmitWord(front, st);
      assert (st.current + front) + [w[|w| - 1]] == st.current + w;
    }
  }

  lemma {:induction false} WordMatchesItself(m: Meaning, w: string, s: string, i: nat, j: nat)
    requires Spellable(w)
    ensures Match(m, Word(w), s, i, j) <==> i <= j <= |s| && s[i..j] == w
  {
    if w == "" {
    } else if Match(m, Word(w), s, i, j) {
      var n := |w| - 1;
      var k := CatSplits(m, Word(w), s, i, j);
      WordMatchesItself(m, w[..n], s, i, k);
      assert k + 1 == j && s[k] == w[n];
      TwoParts(s, i, k, j);
    } else if i <= j <= |s| && s[i..j] == w {
      WordIsMatched(m, w, s, i, j);
      assert false;
    }
  }

  lemma LastOff(s: string, i: nat, j: nat)
    requires i < j <= |s|
    ensures s[i..j - 1] == s[i..j][..j - i - 1] && s[j - 1] == s[i..j][j - i - 1]
  {
  }

  lemma {:induction false} WordIsMatched(m: Meaning, w: string, s: string, i: nat, j: nat)
    requires Spellable(w) && i <= j <= |s| && s[i..j] == w
    ensures Match(m, Word(w), s, i, j)
  {
    if w == "" {
    } else {
      var n, k := |w| - 1, j - 1;
      LastOff(s, i, j);
      WordIsMatched(m, w[..n], s, i, k);
      assert Match(m, One(Chr(w[n])), s, k, j);
      CatJoins(m, Word(w[..n]), One(Chr(w[n])), s, i, k, j);
    }
  }

  // ---- Between two words ---------------------------------------------------

  function Between(u: string, r: Re, v: string): Re {
    Cat(Cat(Word(u), r), Word(v))
  }

  /** A match of `r` with `u` in front of it and `v` behind it. */
  ghost predicate Framed(m: Meaning, u: string, r: Re, v: string, s: string, i: nat, h: nat, k: nat, j: nat) {
    i <= h <= k <= j <= |s| && s[i..h] == u && Match(m, r, s, h, k) && s[k..j] == v
  }

  lemma BetweenSplits(m: Meaning, u: string, r: Re, v: string, s: string, i: nat, j: nat) returns (h: nat, k: nat)
    requires Spellable(u) && Spellable(v) && Match(m, Between(u, r, v), s, i, j)
    ensures Framed(m, u, r, v, s, i, h, k, j)
  {
    k := CatSplits(m, Between(u, r, v), s, i, j);
    h := CatSplits(m, Cat(Word(u), r), s, i, k);
    WordMatchesItself(m, u, s, i, h);
    WordMatchesItself(m, v, s, k, j);
  }

  lemma BetweenJoins(m: Meaning, u: string, r: Re, v: string, s: string, i: nat, h: nat, k: nat, j: nat)
    requires Spellable(u) && Spellable(v) && Framed(m, u, r, v, s, i, h, k, j)
    ensures Match(m, Between(u, r, v), s, i, j)
  {
    WordIsMatched(m, u, s, i, h);
    WordIsMatched(m, v, s, k, j);
    CatJoins(m, Word(u), r, s, i, h, k);
    CatJoins(m, Cat(Word(u), r), Word(v), s, i, k, j);
  }

  /** The words around are in every match, and what is between them comes between. */
  lemma FrameIsFound(m: Meaning, u: string, r: Re, v: string, s: string, i: nat, h: nat, k: nat, j: nat)
    requires Framed(m, u, r, v, s, i, h, k, j)
    ensures Contains(s, u) && Contains(s, v) && OccursAt(s, u + (s[h..k] + v), i)
  {
    assert OccursAt(s, u, i) && OccursAt(s, v, k);
    TwoParts(s, i, h, j);
    TwoParts(s, h, k, j);
  }

  /** Around a part that matches nothing, the words meet. */
  lemma WordsMeet(m: Meaning, u: string, r: Re, v: string)
    requires Match(m, r, u + v, |u|, |u|)
    ensures Framed(m, u, r, v, u + v, 0, |u|, |u|, |u + v|)
  {
  }

  /** A part that matches exactly `w` there. */
  lemma WordsAround(m: Meaning, u: string, r: Re, w: string, v: string)
    requires Match(m, r, u + (w + v), |u|, |u| + |w|)
    ensures Framed(m, u, r, v, u + (w + v), 0, |u|, |u| + |w|, |u + (w + v)|)
  {
  }

  lemma EmptyBetween(u: string, v: string)
    ensures u + ("" + v) == u + v
  {
    assert "" + v == v;
  }

  /** A tree adds its runs to those collected before it. */
  lemma FlushedAfter(r: Re, runs: seq<string>)
    ensures Flush(Emit(r, State(runs, ""))) == State(runs + RunsOf(r), "")
  {
    var st := State([], "");
    EmitFrame(r, st, runs);
    FlushFrame(Emit(r, st), runs);
    assert runs + st.runs == runs;
  }

  lemma EmitFirstWord(u: string)
    ensures Flush(Emit(Word(u), State([], ""))) == State(Texts(u), "")
  {
    EmitWord(u, State([], ""));
    assert "" + u == u;
  }

  lemma EmitLastWord(v: string, runs: seq<string>)
    ensures Flush(Emit(Word(v), State(runs, ""))).runs == runs + Texts(v)
  {
    EmitWord(v, State(runs, ""));
    assert "" + v == v && runs + [] == runs;
  }

  lemma BetweenRuns(u: string, kind: Kind, body: Re, times: Option<Quantifier>, v: string, alnum: char -> bool)
    requires Spellable(u) && Spellable(v) && Valid(Group(kind, body, times), alnum)
    ensures var r := Between(u, Group(kind, body, times), v);
            Valid(r, alnum) && Runs(Print(r), alnum) == Texts(u) + RunsOf(body) + Texts(v)
  {
    var g := Group(kind, body, times);
    var r := Between(u, g, v);
    WordIsValid(u, alnum);
    WordIsValid(v, alnum);
    RunsOfWritten(r, alnum);
    EmitFirstWord(u);
    FlushedAfter(body, Texts(u));
    assert Emit(Cat(Word(u), g), State([], "")) == State(Texts(u) + RunsOf(body), "");
    EmitLastWord(v, Texts(u) + RunsOf(body));
  }

  /** An atom between two words: a character, written or quoted, joins them; everything else,
      and whatever is repeated, only parts them, and neither word is cut short. */
  lemma AtomBetweenRuns(u: string, a: Atom, v: string, alnum: char -> bool)
    requires Spellable(u) && Spellable(v) && ValidAtom(a, alnum) && !a.Coded?
    ensures Runs(Print(Between(u, One(a), v)), alnum)
         == if a.Chr? || a.Quoted? then [u + ([a.c] + v)] else Texts(u) + Texts(v)
  {
    WordIsValid(u, alnum);
    WordIsValid(v, alnum);
    var r := Between(u, One(a), v);
    RunsOfWritten(r, alnum);
    EmitOnlyWord(u);
    if a.Chr? || a.Quoted? {
      EmitWord(v, State([], u + [a.c]));
      Assoc(u, [a.c], v);
      assert Emit(Cat(Word(u), One(a)), State([], "")) == State([], u + [a.c]);
      assert Emit(r, State([], "")) == State([], u + ([a.c] + v));
    } else {
      assert Emit(Cat(Word(u), One(a)), State([], "")) == State(Texts(u), "");
      EmitLastWord(v, Texts(u));
    }
  }

  lemma RepeatedBetweenRuns(u: string, a: Atom, q: Quantifier, v: string, alnum: char -> bool)
    requires Spellable(u) && Spellable(v) && Valid(Rep(a, q), alnum) && !a.Coded?
    ensures Runs(Print(Between(u, Rep(a, q), v)), alnum) == Texts(u) + Texts(v)
  {
    WordIsValid(u, alnum);
    WordIsValid(v, alnum);
    var r := Between(u, Rep(a, q), v);
    RunsOfWritten(r, alnum);
    EmitOnlyWord(u);
    DropAtom(a, State([], u));
    assert Emit(Cat(Word(u), Rep(a, q)), State([], "")) == State(Texts(u), "");
    EmitLastWord(v, Texts(u));
  }

  lemma EmitOnlyWord(u: string)
    ensures Emit(Word(u), State([], "")) == State([], u)
  {
    EmitWord(u, State([], ""));
    assert "" + u == u;
  }

  // ---- One part that need not match ----------------------------------------

  /** One match refutes the promise of every text it is without. */
  lemma PromiseAt(m: Meaning, r: Re, alnum: char -> bool, s: string, i: nat, j: nat, run: string)
    requires Keeps(m, r, alnum) && Match(m, r, s, i, j) && run in Runs(Print(r), alnum)
    ensures Contains(s, run)
  {
  }

  /** A part that matches nothing leaves the two words alone in the line. */
  lemma AloneRefutes(m: Meaning, u: string, kind: Kind, body: Re, times: Option<Quantifier>, v: string,
                     alnum: char -> bool)
    requires Spellable(u) && Spellable(v) && Valid(Group(kind, body, times), alnum)
    requires Keeps(m, Between(u, Group(kind, body, times), v), alnum)
    requires Match(m, Group(kind, body, times), u + v, |u|, |u|)
    ensures forall run :: run in RunsOf(body) ==> Contains(u + v, run)
  {
    var g := Group(kind, body, times);
    var r := Between(u, g, v);
    BetweenRuns(u, kind, body, times, v, alnum);
    WordsMeet(m, u, g, v);
    BetweenJoins(m, u, g, v, u + v, 0, |u|, |u|, |u + v|);
    forall run | run in RunsOf(body) ensures Contains(u + v, run) {
      PromiseAt(m, r, alnum, u + v, 0, |u + v|, run);
    }
  }

  /** Where a part is skipped, the two words meet. */
  lemma SkippedIsFound(m: Meaning, u: string, r: Re, v: string, s: string, i: nat, h: nat, j: nat, run: string)
    requires Framed(m, u, r, v, s, i, h, h, j) && Contains(u + v, run)
    ensures Contains(s, run)
  {
    FrameIsFound(m, u, r, v, s, i, h, h, j);
    assert s[h..h] == "";
    EmptyBetween(u, v);
    ContainsTrans(s, u + v, run);
  }

  /** `u(...)?v`: the promise is kept exactly when the two words alone, without the part
      that may be absent, hold all that is read off it. */
  lemma OptionalPartIsSoundIff(m: Meaning, u: string, kind: Kind, body: Re, q: Quantifier, v: string,
                               alnum: char -> bool)
    requires Spellable(u) && Spellable(v) && Valid(Group(kind, body, Some(q)), alnum) && Certain(body)
    requires q.Allows(0) && !q.style.Possessive? && !kind.Ahead? && !kind.Behind?
    ensures Keeps(m, Between(u, Group(kind, body, Some(q)), v), alnum)
       <==> forall run :: run in RunsOf(body) ==> Contains(u + v, run)
  {
    var g := Group(kind, body, Some(q));
    var r := Between(u, g, v);
    if Keeps(m, r, alnum) {
      assert GroupTimes(m, kind, body, 0, u + v, |u|, |u|);
      assert GroupReaches(m, kind, body, q, u + v, |u|, |u|);
      AloneRefutes(m, u, kind, body, Some(q), v, alnum);
    }
    if forall run :: run in RunsOf(body) ==> Contains(u + v, run) {
      BetweenRuns(u, kind, body, Some(q), v, alnum);
      forall s: string, i: nat, j: nat, run | Match(m, r, s, i, j) && run in Runs(Print(r), alnum)
        ensures Contains(s, run)
      {
        var h, k := BetweenSplits(m, u, g, v, s, i, j);
        FrameIsFound(m, u, g, v, s, i, h, k, j);
        if run in RunsOf(body) { OptionalRunIsFound(m, u, kind, body, q, v, alnum, s, i, h, k, j, run); }
      }
    }
  }

  lemma OptionalRunIsFound(m: Meaning, u: string, kind: Kind, body: Re, q: Quantifier, v: string, alnum: char -> bool,
                           s: string, i: nat, h: nat, k: nat, j: nat, run: string)
    requires Valid(Group(kind, body, Some(q)), alnum) && Certain(body) && !kind.Ahead? && !kind.Behind?
    requires Framed(m, u, Group(kind, body, Some(q)), v, s, i, h, k, j)
    requires run in RunsOf(body) && Contains(u + v, run)
    ensures Contains(s, run)
  {
    var n := TimesOfGroup(m, kind, body, q, s, h, k);
    if n == 0 {
      SkippedIsFound(m, u, Group(kind, body, Some(q)), v, s, i, h, j, run);
    } else {
      FirstOfTimes(m, kind, body, n, s, h, k);
      var end: nat :| MatchGroup(m, kind, body, s, h, end);
      RunsOfWritten(body, alnum);
      RunsAreInEveryMatch(m, body, alnum, s, h, end, run);
    }
  }

  lemma TimesOfGroup(m: Meaning, kind: Kind, body: Re, q: Quantifier, s: string, i: nat, j: nat) returns (n: nat)
    requires Match(m, Group(kind, body, Some(q)), s, i, j)
    ensures q.Allows(n) && GroupTimes(m, kind, body, n, s, i, j) && (n == 0 ==> i == j)
  {
    assert GroupReaches(m, kind, body, q, s, i, j);
    n :| q.Allows(n) && GroupTimes(m, kind, body, n, s, i, j);
  }

  /** `u(?!...)v` and `u(?<!...)v`: the same condition. */
  lemma LookaroundPartIsSoundIff(m: Meaning, u: string, kind: Kind, body: Re, v: string, alnum: char -> bool)
    requires Spellable(u) && Spellable(v) && Valid(Group(kind, body, None), alnum) && Negative(kind) && Certain(body)
    ensures Keeps(m, Between(u, Group(kind, body, None), v), alnum)
       <==> forall run :: run in RunsOf(body) ==> Contains(u + v, run)
  {
    var g := Group(kind, body, None);
    var r := Between(u, g, v);
    if run :| run in RunsOf(body) && !Contains(u + v, run) {
      AbsentMatches(m, u, kind, body, v, alnum, run);
      if Keeps(m, r, alnum) { AloneRefutes(m, u, kind, body, None, v, alnum); }
    } else {
      BetweenRuns(u, kind, body, None, v, alnum);
      forall s: string, i: nat, j: nat, run | Match(m, r, s, i, j) && run in Runs(Print(r), alnum)
        ensures Contains(s, run)
      {
        var h, k := BetweenSplits(m, u, g, v, s, i, j);
        FrameIsFound(m, u, g, v, s, i, h, k, j);
        NegativeIsEmpty(m, kind, body, s, h, k);
        if run in RunsOf(body) { SkippedIsFound(m, u, g, v, s, i, h, j, run); }
      }
    }
  }

  lemma NegativeIsEmpty(m: Meaning, kind: Kind, body: Re, s: string, i: nat, j: nat)
    requires Match(m, Group(kind, body, None), s, i, j) && Negative(kind)
    ensures i == j
  {
    assert MatchGroup(m, kind, body, s, i, j);
  }

  /** A body that cannot match anywhere in a line is absent everywhere in it. */
  lemma AbsentMatches(m: Meaning, u: string, kind: Kind, body: Re, v: string, alnum: char -> bool, run: string)
    requires Valid(body, alnum) && Negative(kind) && Certain(body) && run in RunsOf(body) && !Contains(u + v, run)
    ensures Match(m, Group(kind, body, None), u + v, |u|, |u|)
  {
    RunsOfWritten(body, alnum);
    forall a: nat, b: nat ensures !Match(m, body, u + v, a, b) {
      if Match(m, body, u + v, a, b) { RunsAreInEveryMatch(m, body, alnum, u + v, a, b, run); }
    }
    assert MatchGroup(m, kind, body, u + v, |u|, |u|);
  }

  predicate Plain(kind: Kind) {
    kind.Capture? || kind.NonCapturing? || kind.Named?
  }

  /** `u(a|b)v`: the promise is kept exactly when the line of each choice holds the other
      one as well. */
  lemma AlternativePartIsSoundIff(m: Meaning, u: string, kind: Kind, a: string, b: string, v: string,
                                  alnum: char -> bool)
    requires Spellable(u) && Spellable(v) && Spellable(a) && Spellable(b) && Plain(kind)
    requires Valid(Choice(kind, a, b), alnum)
    ensures Keeps(m, Between(u, Choice(kind, a, b), v), alnum)
       <==> Contains(u + (a + v), b) && Contains(u + (b + v), a)
  {
    var r := Between(u, Choice(kind, a, b), v);
    if Keeps(m, r, alnum) {
      ChoiceIsRefuted(m, u, kind, a, b, a, b, v, alnum);
      ChoiceIsRefuted(m, u, kind, a, b, b, a, v, alnum);
    }
    if Contains(u + (a + v), b) && Contains(u + (b + v), a) {
      ChoiceRuns(u, kind, a, b, v, alnum);
      forall s: string, i: nat, j: nat, run | Match(m, r, s, i, j) && run in Runs(Print(r), alnum)
        ensures Contains(s, run)
      {
        ChoiceIsFound(m, u, kind, a, b, v, s, i, j, run);
      }
    }
  }

  /** `(a|b)` */
  function Choice(kind: Kind, a: string, b: string): Re {
    Group(kind, Alt(Word(a), Word(b)), None)
  }

  lemma ChoiceIsRefuted(m: Meaning, u: string, kind: Kind, a: string, b: string, w: string, other: string, v: string,
                        alnum: char -> bool)
    requires Spellable(u) && Spellable(v) && Spellable(a) && Spellable(b) && Plain(kind)
    requires Valid(Choice(kind, a, b), alnum) && Keeps(m, Between(u, Choice(kind, a, b), v), alnum)
    requires (w == a || w == b) && (other == a || other == b)
    ensures Contains(u + (w + v), other)
  {
    var r, s := Between(u, Choice(kind, a, b), v), u + (w + v);
    if other == "" {
      ContainsEmpty(s);
    } else {
      ChoiceRuns(u, kind, a, b, v, alnum);
      ChoiceIsMatched(m, u, kind, a, b, w, v);
      assert other in Texts(other);
      PromiseAt(m, r, alnum, s, 0, |s|, other);
    }
  }

  lemma ChoiceIsFound(m: Meaning, u: string, kind: Kind, a: string, b: string, v: string,
                      s: string, i: nat, j: nat, run: string)
    requires Spellable(u) && Spellable(v) && Spellable(a) && Spellable(b) && Plain(kind)
    requires Match(m, Between(u, Choice(kind, a, b), v), s, i, j)
    requires run in Texts(u) + (Texts(a) + Texts(b)) + Texts(v)
    requires Contains(u + (a + v), b) && Contains(u + (b + v), a)
    ensures Contains(s, run)
  {
    var h, k := BetweenSplits(m, u, Choice(kind, a, b), v, s, i, j);
    FrameIsFound(m, u, Choice(kind, a, b), v, s, i, h, k, j);
    ChoiceMatches(m, kind, a, b, s, h, k);
    var line := u + (s[h..k] + v);
    MiddleIsContained(u, s[h..k], v);
    if run == a || run == b {
      assert Contains(line, run);
      ContainsTrans(s, line, run);
    }
  }

  lemma ChoiceRuns(u: string, kind: Kind, a: string, b: string, v: string, alnum: char -> bool)
    requires Spellable(u) && Spellable(v) && Valid(Choice(kind, a, b), alnum)
    ensures var r := Between(u, Choice(kind, a, b), v);
            Valid(r, alnum) && Runs(Print(r), alnum) == Texts(u) + (Texts(a) + Texts(b)) + Texts(v)
  {
    BetweenRuns(u, kind, Alt(Word(a), Word(b)), None, v, alnum);
    AltRuns(a, b);
  }

  lemma AltRuns(a: string, b: string)
    ensures RunsOf(Alt(Word(a), Word(b))) == Texts(a) + Texts(b)
  {
    EmitFirstWord(a);
    EmitLastWord(b, Texts(a));
  }

  lemma ChoiceMatches(m: Meaning, kind: Kind, a: string, b: string, s: string, h: nat, k: nat)
    requires Spellable(a) && Spellable(b) && Plain(kind)
    ensures Match(m, Choice(kind, a, b), s, h, k) <==> h <= k <= |s| && (s[h..k] == a || s[h..k] == b)
  {
    WordMatchesItself(m, a, s, h, k);
    WordMatchesItself(m, b, s, h, k);
    var alt := Alt(Word(a), Word(b));
    assert Match(m, alt, s, h, k) <==> h <= k <= |s| && (Match(m, Word(a), s, h, k) || Match(m, Word(b), s, h, k));
    assert Match(m, Group(kind, alt, None), s, h, k) <==> MatchGroup(m, kind, alt, s, h, k);
  }

  lemma ChoiceIsMatched(m: Meaning, u: string, kind: Kind, a: string, b: string, w: string, v: string)
    requires Spellable(u) && Spellable(v) && Spellable(a) && Spellable(b) && Plain(kind) && (w == a || w == b)
    ensures var s := u + (w + v); Match(m, Between(u, Choice(kind, a, b), v), s, 0, |s|)
  {
    var s, g := u + (w + v), Choice(kind, a, b);
    MiddleOf(u, w, v);
    ChoiceMatches(m, kind, a, b, s, |u|, |u| + |w|);
    WordsAround(m, u, g, w, v);
    BetweenJoins(m, u, g, v, s, 0, |u|, |u| + |w|, |s|);
  }

  lemma MiddleOf(u: string, w: string, v: string)
    ensures (u + (w + v))[|u|..|u| + |w|] == w
  {
  }

  /** `a|b` for two literal words, standing alone, keeps the promise exactly when it is no
      choice at all: a line that is one of them need not contain the other. */
  lemma AlternationOfWordsIsSoundIff(m: Meaning, a: string, b: string, alnum: char -> bool)
    requires Spellable(a) && Spellable(b)
    ensures Keeps(m, Alt(Word(a), Word(b)), alnum) <==> a == b
  {
    var r := Alt(Word(a), Word(b));
    AltRuns(a, b);
    WordIsValid(a, alnum);
    WordIsValid(b, alnum);
    RunsOfWritten(r, alnum);
    if Keeps(m, r, alnum) {
      WordOfChoiceHolds(m, a, b, a, b, alnum);
      WordOfChoiceHolds(m, a, b, b, a, alnum);
      MutualContainment(a, b);
    }
    if a == b {
      forall s: string, i: nat, j: nat, run | Match(m, r, s, i, j) && run in Runs(Print(r), alnum)
        ensures Contains(s, run)
      {
        assert run == a;
        ChosenWordIsFound(m, a, s, i, j);
      }
    }
  }

  lemma ChosenWordIsFound(m: Meaning, w: string, s: string, i: nat, j: nat)
    requires Spellable(w) && Match(m, Alt(Word(w), Word(w)), s, i, j)
    ensures Contains(s, w)
  {
    WordMatchesItself(m, w, s, i, j);
    assert OccursAt(s, w, i);
  }

  lemma WordOfChoiceHolds(m: Meaning, a: string, b: string, w: string, other: string, alnum: char -> bool)
    requires Spellable(a) && Spellable(b) && (w == a || w == b) && (other == a || other == b)
    requires Runs(Print(Alt(Word(a), Word(b))), alnum) == Texts(a) + Texts(b)
    requires Keeps(m, Alt(Word(a), Word(b)), alnum)
    ensures Contains(w, other)
  {
    if other == "" {
      ContainsEmpty(w);
    } else {
      assert w[0..|w|] == w;
      WordIsMatched(m, w, w, 0, |w|);
      assert other in Texts(other);
      PromiseAt(m, Alt(Word(a), Word(b)), alnum, w, 0, |w|, other);
    }
  }

  lemma ContainsEmpty(s: string)
    ensures Contains(s, "")
  {
    assert OccursAt(s, "", 0);
  }

  lemma MutualContainment(u: string, v: string)
    requires Contains(u, v) && Contains(v, u)
    ensures u == v
  {
    var i :| OccursAt(u, v, i);
    assert u[0..|u|] == u;
  }

  // ---- Coded characters ----------------------------------------------------

  /** `u\xHHv` or `u\OOOv`: the digits, of an octal code all but the first, are read as
      text.  The promise is kept exactly when the word the pattern matches happens to
      contain them with what follows. */
  lemma CodedCharacterIsSoundIff(m: Meaning, u: string, c: char, digits: string, ch: char, v: string,
                                 alnum: char -> bool)
    requires Spellable(u) && Spellable(v) && ValidAtom(Coded(c, digits), alnum) && ch as int == CodeValue(c, digits)
    ensures Keeps(m, Between(u, One(Coded(c, digits)), v), alnum) <==> Contains(u + ([ch] + v), digits + v)
  {
    var one, w := One(Coded(c, digits)), u + ([ch] + v);
    var r := Between(u, one, v);
    CodedRuns(u, c, digits, v, alnum);
    if Keeps(m, r, alnum) {
      assert Match(m, one, w, |u|, |u| + 1);
      WordsAround(m, u, one, [ch], v);
      BetweenJoins(m, u, one, v, w, 0, |u|, |u| + 1, |w|);
      PromiseAt(m, r, alnum, w, 0, |w|, digits + v);
    }
    if Contains(w, digits + v) {
      forall s: string, i: nat, j: nat, run | Match(m, r, s, i, j) && run in Runs(Print(r), alnum)
        ensures Contains(s, run)
      {
        CodedIsFound(m, u, c, digits, ch, v, s, i, j, run);
      }
    }
  }

  lemma CodedIsFound(m: Meaning, u: string, c: char, digits: string, ch: char, v: string,
                     s: string, i: nat, j: nat, run: string)
    requires Spellable(u) && Spellable(v) && ch as int == CodeValue(c, digits)
    requires Match(m, Between(u, One(Coded(c, digits)), v), s, i, j) && run in Texts(u) + [digits + v]
    requires Contains(u + ([ch] + v), digits + v)
    ensures Contains(s, run)
  {
    var one := One(Coded(c, digits));
    var h, k := BetweenSplits(m, u, one, v, s, i, j);
    FrameIsFound(m, u, one, v, s, i, h, k, j);
    CodedMatches(m, c, digits, ch, s, h, k);
    if run == digits + v { ContainsTrans(s, u + ([ch] + v), run); }
  }

  lemma CodedMatches(m: Meaning, c: char, digits: string, ch: char, s: string, i: nat, j: nat)
    requires ch as int == CodeValue(c, digits) && Match(m, One(Coded(c, digits)), s, i, j)
    ensures s[i..j] == [ch]
  {
  }

  lemma CodedRuns(u: string, c: char, digits: string, v: string, alnum: char -> bool)
    requires Spellable(u) && Spellable(v) && ValidAtom(Coded(c, digits), alnum)
    ensures var r := Between(u, One(Coded(c, digits)), v);
            Valid(r, alnum) && Runs(Print(r), alnum) == Texts(u) + [digits + v]
  {
    var r := Between(u, One(Coded(c, digits)), v);
    WordIsValid(u, alnum);
    WordIsValid(v, alnum);
    RunsOfWritten(r, alnum);
    EmitFirstWord(u);
    EmitWord(v, State(Texts(u), digits));
    assert "" + digits == digits;
    EmitOnlyWord(u);
    assert Emit(Cat(Word(u), One(Coded(c, digits))), State([], "")) == State(Texts(u), digits);
    assert Emit(r, State([], "")) == State(Texts(u), digits + v);
  }

  /** `\x41bcd`, `\101bcd` and their like, where the code comes first, never keep the
      promise: the line `Abcd` contains neither `41bcd` nor `01bcd`. */
  lemma LeadingCodeIsNeverKept(m: Meaning, c: char, digits: string, ch: char, v: string, alnum: char -> bool)
    requires Spellable(v) && ValidAtom(Coded(c, digits), alnum) && ch as int == CodeValue(c, digits)
    ensures !Keeps(m, Between("", One(Coded(c, digits)), v), alnum)
  {
    CodedCharacterIsSoundIff(m, "", c, digits, ch, v, alnum);
    assert |"" + ([ch] + v)| < |digits + v|;
  }

  // ---- Back-references -----------------------------------------------------

  /** `(?P=name)` matches what the group of that name matched, which is `w`. */
  ghost predicate Recalls(m: Meaning, name: string, w: string) {
    forall s: string, i: nat, j: nat :: m.same(name, s, i, j) <==> i <= j <= |s| && s[i..j] == w
  }

  /** `u(?P<name>w)x(?P=name)v` */
  function Repeating(u: string, name: string, w: string, x: string, v: string): Re {
    Cat(Cat(Between(u, Group(Named(name), Word(w), None), x), Same(name)), Word(v))
  }

  /** The name is read as text.  The promise is kept exactly when the words the pattern
      matches happen to contain it. */
  lemma BackReferenceIsSoundIff(m: Meaning, u: string, name: string, w: string, x: string, v: string,
                                alnum: char -> bool)
    requires Spellable(u) && Spellable(w) && Spellable(x) && Spellable(v)
    requires Valid(Same(name), alnum) && Recalls(m, name, w)
    ensures Keeps(m, Repeating(u, name, w, x, v), alnum) <==> Contains(u + (w + (x + (w + v))), name)
  {
    var r, line := Repeating(u, name, w, x, v), u + (w + (x + (w + v)));
    RepeatingRuns(u, name, w, x, v, alnum);
    if Keeps(m, r, alnum) {
      RepeatingIsMatched(m, u, name, w, x, v);
      PromiseAt(m, r, alnum, line, 0, |line|, name);
    }
    if Contains(line, name) {
      forall s: string, i: nat, j: nat, run | Match(m, r, s, i, j) && run in Runs(Print(r), alnum)
        ensures Contains(s, run)
      {
        RepeatingMatches(m, u, name, w, x, v, s, i, j);
        RepeatingIsFound(u, name, w, x, v, s, run);
      }
    }
  }

  lemma RepeatingIsFound(u: string, name: string, w: string, x: string, v: string, s: string, run: string)
    requires Contains(s, u + (w + (x + (w + v)))) && Contains(u + (w + (x + (w + v))), name)
    requires run in Texts(u) + Texts(w) + Texts(x) + [name] + Texts(v)
    ensures Contains(s, run)
  {
    WordsOfLine(u, w, x, v);
    ContainsTrans(s, u + (w + (x + (w + v))), run);
  }

  lemma RepeatingRuns(u: string, name: string, w: string, x: string, v: string, alnum: char -> bool)
    requires Spellable(u) && Spellable(w) && Spellable(x) && Spellable(v) && Valid(Same(name), alnum)
    ensures var r := Repeating(u, name, w, x, v);
            Valid(r, alnum) && Runs(Print(r), alnum) == Texts(u) + Texts(w) + Texts(x) + [name] + Texts(v)
  {
    var g := Group(Named(name), Word(w), None);
    var b, r := Between(u, g, x), Repeating(u, name, w, x, v);
    NameIsPlain(name, alnum);
    WordIsValid(w, alnum);
    BetweenRuns(u, Named(name), Word(w), None, x, alnum);
    RunsOfWritten(b, alnum);
    EmitFirstWord(w);
    WordIsValid(v, alnum);
    RunsOfWritten(r, alnum);
    assert Emit(Cat(b, Same(name)), State([], "")) == State(RunsOf(b) + [name], "") by {
      FlushedAfter(b, []);
      assert [] + RunsOf(b) == RunsOf(b);
    }
    EmitLastWord(v, RunsOf(b) + [name]);
  }

  lemma NameIsPlain(name: string, alnum: char -> bool)
    requires Valid(Same(name), alnum)
    ensures forall c :: c in name ==> c !in ":=!>)"
  {
    forall c | c in name ensures c !in ":=!>)" { var k :| 0 <= k < |name| && name[k] == c; }
  }

  lemma RepeatingMatches(m: Meaning, u: string, name: string, w: string, x: string, v: string,
                         s: string, i: nat, j: nat)
    requires Spellable(u) && Spellable(w) && Spellable(x) && Spellable(v) && Recalls(m, name, w)
    requires Match(m, Repeating(u, name, w, x, v), s, i, j)
    ensures Contains(s, u + (w + (x + (w + v))))
  {
    var g := Group(Named(name), Word(w), None);
    var b := Between(u, g, x);
    var q := CatSplits(m, Repeating(u, name, w, x, v), s, i, j);
    var p := CatSplits(m, Cat(b, Same(name)), s, i, q);
    var h, k := BetweenSplits(m, u, g, x, s, i, p);
    NamedMatches(m, name, w, s, h, k);
    WordMatchesItself(m, v, s, q, j);
    FiveParts(s, i, h, k, p, q, j);
    StretchOccurs(s, i, j);
  }

  lemma StretchOccurs(s: string, i: nat, j: nat)
    requires i <= j <= |s|
    ensures Contains(s, s[i..j])
  {
    assert OccursAt(s, s[i..j], i);
  }

  lemma FiveParts(s: string, i: nat, h: nat, k: nat, p: nat, q: nat, j: nat)
    requires i <= h <= k <= p <= q <= j <= |s|
    ensures s[i..j] == s[i..h] + (s[h..k] + (s[k..p] + (s[p..q] + s[q..j])))
  {
    TwoParts(s, i, h, j);
    TwoParts(s, h, k, j);
    TwoParts(s, k, p, j);
    TwoParts(s, p, q, j);
  }

  lemma NamedMatches(m: Meaning, name: string, w: string, s: string, i: nat, j: nat)
    requires Spellable(w)
    ensures Match(m, Group(Named(name), Word(w), None), s, i, j) <==> i <= j <= |s| && s[i..j] == w
  {
    WordMatchesItself(m, w, s, i, j);
    assert Match(m, Group(Named(name), Word(w), None), s, i, j) <==> MatchGroup(m, Named(name), Word(w), s, i, j);
  }

  lemma RepeatingIsMatched(m: Meaning, u: string, name: string, w: string, x: string, v: string)
    requires Spellable(u) && Spellable(w) && Spellable(x) && Spellable(v) && Recalls(m, name, w)
    ensures var s := u + (w + (x + (w + v))); Match(m, Repeating(u, name, w, x, v), s, 0, |s|)
  {
    var s := u + (w + (x + (w + v)));
    var h, k := |u|, |u| + |w|;
    var p := k + |x|;
    LineParts(u, w, x, v);
    RepeatingJoins(m, u, name, w, x, v, s, h, k, p, p + |w|);
  }

  lemma RepeatingJoins(m: Meaning, u: string, name: string, w: string, x: string, v: string,
                       s: string, h: nat, k: nat, p: nat, q: nat)
    requires Spellable(u) && Spellable(w) && Spellable(x) && Spellable(v) && Recalls(m, name, w)
    requires h <= k <= p <= q <= |s|
    requires s[0..h] == u && s[h..k] == w && s[k..p] == x && s[p..q] == w && s[q..|s|] == v
    ensures Match(m, Repeating(u, name, w, x, v), s, 0, |s|)
  {
    var g := Group(Named(name), Word(w), None);
    NamedMatches(m, name, w, s, h, k);
    BetweenJoins(m, u, g, x, s, 0, h, k, p);
    assert Match(m, Same(name), s, p, q);
    CatJoins(m, Between(u, g, x), Same(name), s, 0, p, q);
    WordIsMatched(m, v, s, q, |s|);
    CatJoins(m, Cat(Between(u, g, x), Same(name)), Word(v), s, 0, q, |s|);
  }

  lemma LineParts(u: string, w: string, x: string, v: string)
    ensures var s := u + (w + (x + (w + v)));
            var h, k := |u|, |u| + |w|;
            var p := k + |x|;
            var q := p + |w|;
            && q <= |s| && s[0..h] == u && s[h..k] == w && s[k..p] == x && s[p..q] == w && s[q..|s|] == v
  {
    var s := u + (w + (x + (w + v)));
    assert s[|u|..] == w + (x + (w + v));
    assert s[|u| + |w|..] == x + (w + v);
    assert s[|u| + |w| + |x|..] == w + v;
    assert s[|u| + |w| + |x| + |w|..] == v;
  }

  lemma WordsOfLine(u: string, w: string, x: string, v: string)
    ensures var s := u + (w + (x + (w + v))); Contains(s, u) && Contains(s, w) && Contains(s, x) && Contains(s, v)
  {
    var s := u + (w + (x + (w + v)));
    LineParts(u, w, x, v);
    assert OccursAt(s, u, 0) && OccursAt(s, w, |u|) && OccursAt(s, x, |u| + |w|);
    assert OccursAt(s, v, |u| + |w| + |x| + |w|);
  }
}
