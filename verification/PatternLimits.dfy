/** Where the scan of a pattern promises too much, and exactly when it does not. */
module PatternLimits {
  import opened Text
  import opened LiteralRuns
  import opened PatternRuns

  /** What the tool promises of a pattern, in one reading: no match is without any of the
      texts read off it. */
  ghost predicate Keeps(m: Meaning, r: Re, alnum: char -> bool) {
    forall s: string, i: nat, j: nat, run :: Match(m, r, s, i, j) && run in Runs(Print(r), alnum) ==> Contains(s, run)
  }

  /** Where some stretch can be matched, one is settled on. */
  ghost predicate Fair(m: Meaning) {
    && (forall a: Atom, q: Quantifier, s: string, i: nat, j: nat ::
          q.style.Possessive? && AtomReaches(m, a, q, s, i, j) ==>
          exists k: nat :: AtomReaches(m, a, q, s, i, k) && m.settled(Rep(a, q), s, i, k))
    && (forall kind: Kind, body: Re, q: Quantifier, s: string, i: nat, j: nat ::
          q.style.Possessive? && GroupReaches(m, kind, body, q, s, i, j) ==>
          exists k: nat :: GroupReaches(m, kind, body, q, s, i, k) && m.settled(Group(kind, body, Some(q)), s, i, k))
    && forall body: Re, s: string, i: nat, j: nat :: Match(m, body, s, i, j) ==>
         exists k: nat :: Match(m, body, s, i, k) && m.settled(Group(Atomic, body, None), s, i, k)
  }

  ghost predicate Sound(r: Re, alnum: char -> bool) {
    forall m: Meaning :: Fair(m) ==> Keeps(m, r, alnum)
  }

  lemma CertainIsSound(m: Meaning, r: Re, alnum: char -> bool)
    requires Valid(r, alnum) && Certain(r)
    ensures Keeps(m, r, alnum)
  {
    forall s: string, i: nat, j: nat, run | Match(m, r, s, i, j) && run in Runs(Print(r), alnum)
      ensures Contains(s, run)
    {
      RunsAreInEveryMatch(m, r, alnum, s, i, j, run);
    }
  }

  ghost predicate NoEmpty(runs: seq<string>) {
    forall run :: run in runs ==> run != ""
  }

  lemma {:induction false} EmitNoEmpty(r: Re, st: State)
    requires NoEmpty(st.runs)
    ensures NoEmpty(Emit(r, st).runs) && NoEmpty(Flush(Emit(r, st)).runs)
  {
    match r
    case Cat(l, r') => EmitNoEmpty(l, st); EmitNoEmpty(r', Emit(l, st));
    case Alt(l, r') => EmitNoEmpty(l, st); EmitNoEmpty(r', Flush(Emit(l, st)));
    case Group(_, body, _) => EmitNoEmpty(body, Flush(st));
    case _ =>
  }

  /** A run is never empty, so a pattern that matches the empty line may have none. */
  lemma EmptyMatchRefutes(m: Meaning, r: Re, alnum: char -> bool)
    requires Valid(r, alnum) && Match(m, r, "", 0, 0)
    ensures Keeps(m, r, alnum) ==> RunsOf(r) == []
  {
    assert RunsOf(r) != [] ==> RunsOf(r)[0] in RunsOf(r);
    RunsOfWritten(r, alnum);
    EmitNoEmpty(r, State([], ""));
    if Keeps(m, r, alnum) {
      assert forall run :: run in Runs(Print(r), alnum) ==> Contains("", run);
    }
  }

  lemma SilentKeeps(m: Meaning, r: Re, alnum: char -> bool)
    requires Valid(r, alnum) && RunsOf(r) == []
    ensures Keeps(m, r, alnum)
  {
    RunsOfWritten(r, alnum);
  }

  lemma GroupRuns(kind: Kind, body: Re, times: Option<Quantifier>)
    ensures RunsOf(Group(kind, body, times)) == RunsOf(body)
  {
    DropIdle(Emit(body, State([], "")));
  }

  // ---- Optional groups -----------------------------------------------------

  /** A group that may be absent keeps the promise exactly when it names no text:
      `(name)?` claims `name` although the empty line matches. */
  lemma OptionalGroupIsSoundIff(m: Meaning, kind: Kind, body: Re, q: Quantifier, alnum: char -> bool)
    requires Fair(m) && Valid(Group(kind, body, Some(q)), alnum) && q.Allows(0)
    ensures Keeps(m, Group(kind, body, Some(q)), alnum) <==> RunsOf(body) == []
  {
    var r := Group(kind, body, Some(q));
    GroupRuns(kind, body, Some(q));
    assert GroupTimes(m, kind, body, 0, "", 0, 0);
    assert GroupReaches(m, kind, body, q, "", 0, 0);
    if q.style.Possessive? {
      var k: nat :| GroupReaches(m, kind, body, q, "", 0, k) && m.settled(r, "", 0, k);
      GroupInside(m, kind, body, q, "", 0, k);
    }
    assert Match(m, r, "", 0, 0);
    EmptyMatchRefutes(m, r, alnum);
    if RunsOf(body) == [] { SilentKeeps(m, r, alnum); }
  }

  // ---- Negative look-arounds -----------------------------------------------

  /** A negative look-around whose body must match text keeps the promise exactly when it
      names none: `(?!name)` claims the one text that cannot be there. */
  lemma NegativeLookaroundIsSoundIff(m: Meaning, kind: Kind, body: Re, alnum: char -> bool)
    requires Valid(Group(kind, body, None), alnum) && Negative(kind) && Certain(body)
    ensures Keeps(m, Group(kind, body, None), alnum) <==> RunsOf(body) == []
  {
    var r := Group(kind, body, None);
    GroupRuns(kind, body, None);
    if RunsOf(body) == [] {
      SilentKeeps(m, r, alnum);
    } else {
      var run := RunsOf(body)[0];
      EmitNoEmpty(body, State([], ""));
      RunsOfWritten(body, alnum);
      assert run in RunsOf(body);
      if Match(m, body, "", 0, 0) { RunsAreInEveryMatch(m, body, alnum, "", 0, 0, run); }
      assert forall k: nat :: !Match(m, body, "", 0, k) && !Match(m, body, "", k, 0);
      assert MatchGroup(m, kind, body, "", 0, 0);
      EmptyMatchRefutes(m, r, alnum);
    }
  }

  /** No look-around and no back-reference inside. */
  predicate Lookless(r: Re) {
    match r
    case Cat(l, r) => Lookless(l) && Lookless(r)
    case Alt(l, r) => Lookless(l) && Lookless(r)
    case Group(kind, body, _) => !kind.Ahead? && !kind.Behind? && Lookless(body)
    case Same(_) => false
    case _ => true
  }

  /** Nothing that settles on a match without looking at what follows. */
  predicate Backtracks(r: Re) {
    match r
    case Rep(_, q) => !q.style.Possessive?
    case Cat(l, r) => Backtracks(l) && Backtracks(r)
    case Alt(l, r) => Backtracks(l) && Backtracks(r)
    case Group(kind, body, times) => !kind.Atomic? && (times.Some? ==> !times.value.style.Possessive?)
      && Backtracks(body)
    case _ => true
  }

  /** The pattern can match nothing at all, whatever its letter escapes mean. */
  predicate Nullable(r: Re) {
    match r
    case Empty => true
    case One(_) => false
    case Rep(_, q) => q.Allows(0)
    case Cat(l, r) => Nullable(l) && Nullable(r)
    case Alt(l, r) => Nullable(l) || Nullable(r)
    case Group(_, body, times) => (times.Some? && times.value.Allows(0)) || Nullable(body)
    case Same(_) => false
  }

  function Least(q: Quantifier): nat {
    match q.count
    case Plus => 1
    case Exactly(n) => n
    case AtLeast(lo) => lo
    case Between(lo, _) => lo
    case _ => 0
  }

  /** A nullable pattern matches something everywhere. */
  lemma {:induction false} NullableMatches(m: Meaning, r: Re, alnum: char -> bool, s: string, i: nat) returns (j: nat)
    requires Fair(m) && Valid(r, alnum) && Lookless(r) && Nullable(r) && i <= |s|
    ensures Match(m, r, s, i, j)
    decreases r, 1
  {
    match r
    case Empty => j := i;
    case Rep(a, q) =>
      assert AtomTimes(m, a, 0, s, i, i);
      assert AtomReaches(m, a, q, s, i, i);
      if q.style.Possessive? {
        var k: nat :| AtomReaches(m, a, q, s, i, k) && m.settled(r, s, i, k);
        j := k;
      } else {
        j := i;
      }
      ReachesInside(m, a, q, s, i, j);
    case Cat(l, r') =>
      var k := NullableMatches(m, l, alnum, s, i);
      j := NullableMatches(m, r', alnum, s, k);
    case Alt(l, r') =>
      if Nullable(l) { j := NullableMatches(m, l, alnum, s, i); } else { j := NullableMatches(m, r', alnum, s, i); }
    case Group(kind, body, None) => j := NullableGroup(m, kind, body, alnum, s, i);
    case Group(kind, body, Some(q)) =>
      var n := if q.Allows(0) then 0 else Least(q);
      var end := NullableTimes(m, kind, body, alnum, n, s, i);
      assert GroupReaches(m, kind, body, q, s, i, end);
      if q.style.Possessive? {
        var k: nat :| GroupReaches(m, kind, body, q, s, i, k) && m.settled(r, s, i, k);
        j := k;
      } else {
        j := end;
      }
      GroupInside(m, kind, body, q, s, i, j);
  }

  lemma {:induction false} NullableGroup(m: Meaning, kind: Kind, body: Re, alnum: char -> bool, s: string, i: nat)
    returns (j: nat)
    requires Fair(m) && Valid(body, alnum) && Lookless(Group(kind, body, None)) && Nullable(body) && i <= |s|
    ensures MatchGroup(m, kind, body, s, i, j)
    decreases body, 2
  {
    j := NullableMatches(m, body, alnum, s, i);
    if kind.Atomic? {
      var k: nat :| Match(m, body, s, i, k) && m.settled(Group(Atomic, body, None), s, i, k);
      j := k;
    }
  }

  lemma {:induction false} NullableTimes(m: Meaning, kind: Kind, body: Re, alnum: char -> bool, n: nat, s: string,
                                         i: nat)
    returns (j: nat)
    requires Fair(m) && Valid(body, alnum) && Lookless(Group(kind, body, None)) && (n > 0 ==> Nullable(body))
             && i <= |s|
    ensures i <= j <= |s| && GroupTimes(m, kind, body, n, s, i, j)
    decreases body, 3, n
  {
    if n == 0 {
      j := i;
    } else {
      var k := NullableGroup(m, kind, body, alnum, s, i);
      j := NullableTimes(m, kind, body, alnum, n - 1, s, k);
    }
  }

  lemma {:induction false} TimesInside(m: Meaning, a: Atom, n: nat, s: string, i: nat, j: nat)
    requires AtomTimes(m, a, n, s, i, j)
    ensures i <= j <= |s|
    decreases n
  {
    if n == 0 {
    } else {
      var k: nat :| MatchAtom(m, a, s, i, k) && AtomTimes(m, a, n - 1, s, k, j);
      TimesInside(m, a, n - 1, s, k, j);
    }
  }

  lemma ReachesInside(m: Meaning, a: Atom, q: Quantifier, s: string, i: nat, j: nat)
    requires AtomReaches(m, a, q, s, i, j)
    ensures i <= j <= |s|
  {
    var n: nat :| q.Allows(n) && AtomTimes(m, a, n, s, i, j);
    TimesInside(m, a, n, s, i, j);
  }

  lemma {:induction false} GroupTimesInside(m: Meaning, kind: Kind, body: Re, n: nat, s: string, i: nat, j: nat)
    requires GroupTimes(m, kind, body, n, s, i, j)
    ensures i <= j <= |s|
    decreases n
  {
    if n == 0 {
    } else {
      var k: nat :| MatchGroup(m, kind, body, s, i, k) && GroupTimes(m, kind, body, n - 1, s, k, j);
      GroupTimesInside(m, kind, body, n - 1, s, k, j);
    }
  }

  lemma GroupInside(m: Meaning, kind: Kind, body: Re, q: Quantifier, s: string, i: nat, j: nat)
    requires GroupReaches(m, kind, body, q, s, i, j)
    ensures i <= j <= |s|
  {
    var n: nat :| q.Allows(n) && GroupTimes(m, kind, body, n, s, i, j);
    GroupTimesInside(m, kind, body, n, s, i, j);
  }

  /** One that backtracks can match nothing everywhere. */
  lemma {:induction false} NullableMatchesNothing(m: Meaning, r: Re, alnum: char -> bool, s: string, i: nat)
    requires Valid(r, alnum) && Lookless(r) && Backtracks(r) && Nullable(r) && i <= |s|
    ensures Match(m, r, s, i, i)
    decreases r
  {
    match r
    case Rep(a, q) => assert AtomTimes(m, a, 0, s, i, i);
    case Cat(l, r') =>
      NullableMatchesNothing(m, l, alnum, s, i);
      NullableMatchesNothing(m, r', alnum, s, i);
    case Alt(l, r') =>
      if Nullable(l) { NullableMatchesNothing(m, l, alnum, s, i); } else { NullableMatchesNothing(m, r', alnum, s, i); }
    case Group(kind, body, times) =>
      if Nullable(body) { NullableMatchesNothing(m, body, alnum, s, i); }
      if times.Some? {
        var n := if times.value.Allows(0) then 0 else Least(times.value);
        NothingTimes(m, kind, body, n, s, i);
        assert GroupReaches(m, kind, body, times.value, s, i, i);
      }
    case _ =>
  }

  lemma {:induction false} NothingTimes(m: Meaning, kind: Kind, body: Re, n: nat, s: string, i: nat)
    requires i <= |s| && (n > 0 ==> MatchGroup(m, kind, body, s, i, i))
    ensures GroupTimes(m, kind, body, n, s, i, i)
    decreases n
  {
    if n == 0 {
    } else {
      NothingTimes(m, kind, body, n - 1, s, i);
    }
  }

  /** The reading in which no class, letter escape or sign matches anything. */
  function Blind(): Meaning {
    Meaning((_, _, _) => false, (_, _, _, _) => false, (_, _, _, _) => false, (_, _, _, _) => false,
            (_, _, _, _) => true)
  }

  /** In that reading only a nullable pattern matches the empty line. */
  lemma {:induction false} OnlyNullableMatchesNothing(r: Re)
    requires Lookless(r) && Match(Blind(), r, "", 0, 0)
    ensures Nullable(r)
    decreases r
  {
    var m := Blind();
    match r
    case Rep(a, q) =>
      var n: nat :| q.Allows(n) && AtomTimes(m, a, n, "", 0, 0);
    case Cat(l, r') =>
      var k: nat :| Match(m, l, "", 0, k) && Match(m, r', "", k, 0);
      OnlyNullableMatchesNothing(l);
      OnlyNullableMatchesNothing(r');
    case Alt(l, r') =>
      if Match(m, l, "", 0, 0) { OnlyNullableMatchesNothing(l); } else { OnlyNullableMatchesNothing(r'); }
    case Group(kind, body, times) =>
      if times.Some? {
        var n: nat :| times.value.Allows(n) && GroupTimes(m, kind, body, n, "", 0, 0);
        if n > 0 {
          FirstOfTimes(m, kind, body, n, "", 0, 0);
          OnlyNullableMatchesNothing(body);
        }
      } else {
        OnlyNullableMatchesNothing(body);
      }
    case _ =>
  }

  lemma BlindIsFair()
    ensures Fair(Blind())
  {
  }

  /** A negative look-around whose body holds no other keeps the promise in all readings
      exactly when its body names no text or can match nothing, in which case the
      look-around itself never matches. */
  lemma LooklessLookaroundIsSoundIff(kind: Kind, body: Re, alnum: char -> bool)
    requires Valid(Group(kind, body, None), alnum) && Negative(kind) && Lookless(body)
    requires kind.Behind? ==> Backtracks(body)
    ensures Sound(Group(kind, body, None), alnum) <==> RunsOf(body) == [] || Nullable(body)
  {
    var r := Group(kind, body, None);
    GroupRuns(kind, body, None);
    if RunsOf(body) == [] {
      forall m: Meaning ensures Keeps(m, r, alnum) { SilentKeeps(m, r, alnum); }
    } else if Nullable(body) {
      forall m: Meaning | Fair(m) ensures Keeps(m, r, alnum) { NeverMatches(m, kind, body, alnum); }
    } else {
      BlindIsFair();
      if Match(Blind(), body, "", 0, 0) { OnlyNullableMatchesNothing(body); }
      assert forall k: nat :: !Match(Blind(), body, "", 0, k) && !Match(Blind(), body, "", k, 0);
      assert MatchGroup(Blind(), kind, body, "", 0, 0);
      EmptyMatchRefutes(Blind(), r, alnum);
    }
  }

  lemma NeverMatches(m: Meaning, kind: Kind, body: Re, alnum: char -> bool)
    requires Fair(m) && Valid(body, alnum) && Negative(kind) && Lookless(body) && Nullable(body)
    requires kind.Behind? ==> Backtracks(body)
    ensures forall s: string, i: nat, j: nat :: !Match(m, Group(kind, body, None), s, i, j)
  {
    forall s: string, i: nat, j: nat ensures !MatchGroup(m, kind, body, s, i, j) {
      if i <= |s| {
        if kind.Ahead? {
          var k := NullableMatches(m, body, alnum, s, i);
        } else {
          NullableMatchesNothing(m, body, alnum, s, i);
        }
      }
    }
  }
}
