/** `apply_literal_edits`, and the two passes `port_text` makes with it: once over
    the original source, once over the text without prose. */
module Edits {
  import opened Text

  /** The manifest is untyped, so any field of an edit may be something else. */
  datatype Value = Literal(s: string) | NotText
  datatype Cardinality = Default | Number(n: int) | NotNumber
  datatype Edit = Edit(find: Value, count: Cardinality, replacement: Value)

  // ---- Counting and replacing ----------------------------------------------

  function FirstAt(text: string, find: string, i: nat): (n: Option<nat>)
    ensures n.Some? ==> i <= n.value && OccursAt(text, find, n.value)
    ensures n.Some? ==> forall k :: i <= k < n.value ==> !OccursAt(text, find, k)
    ensures n.None? ==> forall k :: i <= k ==> !OccursAt(text, find, k)
    decreases |text| - i
  {
    if i + |find| > |text| then None
    else if OccursAt(text, find, i) then Some(i)
    else FirstAt(text, find, i + 1)
  }

  /** `text.split(find)`: the pieces between the disjoint occurrences, taken from the
      left. */
  function Split(text: string, find: string): (pieces: seq<string>)
    requires find != ""
    ensures pieces != []
    decreases |text|
  {
    match FirstAt(text, find, 0)
    case None => [text]
    case Some(n) => [text[..n]] + Split(text[n + |find|..], find)
  }

  function Glue(pieces: seq<string>, glue: string): string
    requires pieces != []
  {
    if |pieces| == 1 then pieces[0] else pieces[0] + (glue + Glue(pieces[1..], glue))
  }

  /** `text.count(find)` */
  function Count(text: string, find: string): nat
    requires find != ""
  {
    |Split(text, find)| - 1
  }

  /** `text.replace(find, with, count)` for the count of all occurrences. */
  function Replace(text: string, find: string, replacement: string): string
    requires find != ""
  {
    Glue(Split(text, find), replacement)
  }

  lemma GlueCons(p: string, rest: seq<string>, glue: string)
    requires rest != []
    ensures Glue([p] + rest, glue) == p + (glue + Glue(rest, glue))
  {
    assert ([p] + rest)[1..] == rest;
  }

  /** The occurrences that are counted are disjoint and together with the pieces make
      up the text. */
  lemma {:induction false} SplitIsFaithful(text: string, find: string)
    requires find != ""
    ensures Glue(Split(text, find), find) == text
    decreases |text|
  {
    var at := FirstAt(text, find, 0);
    if at.None? {
    } else {
      var n := at.value;
      var rest := text[n + |find|..];
      SplitIsFaithful(rest, find);
      GlueCons(text[..n], Split(rest, find), find);
      assert text == text[..n] + (find + rest);
    }
  }

  /** No occurrence starts in `p` when one stands right behind it. */
  ghost predicate EndsFirst(p: string, find: string) {
    forall i :: 0 <= i < |p| ==> !OccursAt(p + find, find, i)
  }

  /** A search from the left finds each glue where its piece ends, and none in the last
      piece. */
  ghost predicate Leftmost(pieces: seq<string>, find: string) {
    forall k :: 0 <= k < |pieces| ==> if k < |pieces| - 1 then EndsFirst(pieces[k], find)
      else !Contains(pieces[k], find)
  }

  lemma SamePlace(p: string, find: string, rest: string, i: nat)
    requires i <= |p|
    ensures OccursAt(p + find, find, i) <==> OccursAt(p + (find + rest), find, i)
  {
    assert (p + (find + rest))[i..i + |find|] == (p + find)[i..i + |find|];
  }

  lemma SearchEnds(p: string, find: string, rest: string)
    ensures var whole := p + (find + rest);
            OccursAt(whole, find, |p|) && (EndsFirst(p, find) <==> forall i :: 0 <= i < |p| ==>
                                           !OccursAt(whole, find, i))
  {
    var whole := p + (find + rest);
    assert whole[|p|..|p| + |find|] == find;
    forall i | 0 <= i <= |p| ensures OccursAt(p + find, find, i) <==> OccursAt(whole, find, i) {
      SamePlace(p, find, rest, i);
    }
  }

  lemma SplitAt(text: string, find: string, p: string, rest: string)
    requires find != "" && text == p + (find + rest)
    requires OccursAt(text, find, |p|) && forall i :: 0 <= i < |p| ==> !OccursAt(text, find, i)
    ensures Split(text, find) == [p] + Split(rest, find)
  {
    assert text[..|p|] == p && text[|p| + |find|..] == rest;
  }

  lemma LeftmostCons(p: string, pieces: seq<string>, find: string)
    requires pieces != []
    ensures Leftmost([p] + pieces, find) <==> EndsFirst(p, find) && Leftmost(pieces, find)
  {
    var all := [p] + pieces;
    assert all[0] == p;
    forall k | 0 <= k < |pieces| ensures all[k + 1] == pieces[k] {}
  }

  /** The pieces are those of a search from the left. */
  lemma {:induction false} SplitIsLeftmost(text: string, find: string)
    requires find != ""
    ensures Leftmost(Split(text, find), find)
    decreases |text|
  {
    var at := FirstAt(text, find, 0);
    if at.None? {
    } else {
      var p, rest := text[..at.value], text[at.value + |find|..];
      SplitIsLeftmost(rest, find);
      assert text == p + (find + rest);
      SearchEnds(p, find, rest);
      LeftmostCons(p, Split(rest, find), find);
    }
  }

  /** And they are the only ones: splitting undoes joining leftmost pieces. */
  lemma {:induction false} SplitIsUnique(pieces: seq<string>, find: string)
    requires find != "" && pieces != [] && Leftmost(pieces, find)
    ensures Split(Glue(pieces, find), find) == pieces
  {
    if |pieces| <= 1 {
    } else {
      var p, more := pieces[0], pieces[1..];
      assert pieces == [p] + more;
      LeftmostCons(p, more, find);
      SplitIsUnique(more, find);
      SearchEnds(p, find, Glue(more, find));
      SplitAt(Glue(pieces, find), find, p, Glue(more, find));
    }
  }

  function Occurrences(pieces: seq<string>): int {
    |pieces| - 1
  }

  lemma {:induction false} GlueLength(pieces: seq<string>, a: string, b: string)
    requires pieces != []
    ensures |Glue(pieces, b)| == |Glue(pieces, a)| + Occurrences(pieces) * (|b| - |a|)
  {
    if |pieces| <= 1 {
    } else {
      GlueLength(pieces[1..], a, b);
      var d, n := |b| - |a|, Occurrences(pieces[1..]);
      assert (n + 1) * d == n * d + d;
    }
  }

  /** Replacing changes the length by the count times the difference. */
  lemma ReplaceLength(text: string, find: string, replacement: string)
    requires find != ""
    ensures |Replace(text, find, replacement)| == |text| + Count(text, find) * (|replacement| - |find|)
  {
    SplitIsFaithful(text, find);
    GlueLength(Split(text, find), find, replacement);
  }

  /** An edit whose text is not there changes nothing. */
  lemma AbsentMeansZero(text: string, find: string)
    requires find != ""
    ensures Count(text, find) == 0 <==> !Contains(text, find)
  {
    if Contains(text, find) {
      var i :| OccursAt(text, find, i);
    }
  }

  // ---- One pass ------------------------------------------------------------

  datatype Fault = BadFind | BadCount | Missed | Mismatch(expected: int, actual: nat)
  datatype Problem = Problem(index: nat, fault: Fault)

  /** What one attempt at an edit comes to. */
  datatype Attempt = Faulty(fault: Fault) | Absent | Exact

  predicate ValidFind(e: Edit) {
    e.find.Literal? && e.find.s != ""
  }

  function Expected(e: Edit): Option<int> {
    match e.count
    case Default => Some(1)
    case Number(n) => if n <= 0 then None else Some(n)
    case NotNumber => None
  }

  function Try(text: string, e: Edit): Attempt {
    if !ValidFind(e) then Faulty(BadFind)
    else
      match Expected(e)
      case None => Faulty(BadCount)
      case Some(expected) =>
        var actual := Count(text, e.find.s);
        if actual == 0 then Absent
        else if actual != expected then Faulty(Mismatch(expected, actual))
        else Exact
  }

  /** The text, the problems reported, the edits not to be tried again, and the edits
      that were carried out. */
  datatype State = State(text: string, problems: seq<Problem>, applied: set<nat>, done: seq<nat>)

  function TextOf(v: Value): string {
    if v.Literal? then v.s else ""
  }

  function Step(st: State, e: Edit, index: nat, report: bool): State {
    if index in st.applied then st
    else
      match Try(st.text, e)
      case Faulty(fault) => st.(problems := st.problems + [Problem(index, fault)], applied := st.applied + {index})
      case Absent => if report then st.(problems := st.problems + [Problem(index, Missed)]) else st
      case Exact => State(Replace(st.text, e.find.s, TextOf(e.replacement)), st.problems, st.applied + {index},
                          st.done + [index])
  }

  /** After the first `k` edits of a pass. */
  function Pass(text: string, edits: seq<Edit>, already: set<nat>, report: bool, k: nat): State
    requires k <= |edits|
  {
    if k == 0 then State(text, [], already, [])
    else Step(Pass(text, edits, already, report, k - 1), edits[k - 1], k - 1, report)
  }

  /** A replacement that is no text is noticed only when it is needed; then the pass stops
      with an exception. */
  predicate Raises(st: State, edits: seq<Edit>) {
    exists i :: 0 <= i < |edits| && i in st.done && edits[i].replacement.NotText?
  }

  method ApplyLiteralEdits(source: string, edits: seq<Edit>, already: set<nat>, report: bool)
    returns (raised: bool, text: string, problems: seq<Problem>, applied: set<nat>)
    ensures var st := Pass(source, edits, already, report, |edits|);
            && (raised <==> Raises(st, edits))
            && (!raised ==> text == st.text && problems == st.problems && applied == st.applied)
  {
    raised, text, problems, applied := false, source, [], already;
    ghost var done: seq<nat> := [];
    for index := 0 to |edits|
      invariant !raised && State(text, problems, applied, done) == Pass(source, edits, already, report, index)
      invariant forall i :: 0 <= i < |edits| && i in done ==> edits[i].replacement.Literal?
    {
      var edit := edits[index];
      PassNext(source, edits, already, report, index);
      if index in applied {
        continue;
      }
      if !edit.find.Literal? || edit.find.s == "" {
        problems := problems + [Problem(index, BadFind)];
        applied := applied + {index};
        continue;
      }
      var expected := Expected(edit);
      if expected.None? {
        problems := problems + [Problem(index, BadCount)];
        applied := applied + {index};
        continue;
      }
      var actual := Count(text, edit.find.s);
      if actual == 0 {
        if report {
          problems := problems + [Problem(index, Missed)];
        }
        continue;
      }
      if actual != expected.value {
        problems := problems + [Problem(index, Mismatch(expected.value, actual))];
        applied := applied + {index};
        continue;
      }
      if edit.replacement.NotText? {
        NeededIsNotText(source, edits, already, report, index);
        raised := true;
        return;
      }
      text := Replace(text, edit.find.s, edit.replacement.s);
      applied := applied + {index};
      done := done + [index];
    }
  }

  lemma PassNext(text: string, edits: seq<Edit>, already: set<nat>, report: bool, k: nat)
    requires k < |edits|
    ensures Pass(text, edits, already, report, k + 1)
         == Step(Pass(text, edits, already, report, k), edits[k], k, report)
  {
  }

  lemma NeededIsNotText(text: string, edits: seq<Edit>, already: set<nat>, report: bool, i: nat)
    requires i < |edits| && Met(text, edits, already, report, i) == Exact && edits[i].replacement.NotText?
    requires i !in Pass(text, edits, already, report, i).applied
    ensures Raises(Pass(text, edits, already, report, |edits|), edits)
  {
    PassAt(text, edits, already, report, i, i);
    PassAt(text, edits, already, report, |edits|, i);
  }

  ghost predicate Increasing(s: seq<nat>) {
    forall i, j :: 0 <= i < j < |s| ==> s[i] < s[j]
  }

  ghost predicate InOrder(ps: seq<Problem>) {
    forall i, j :: 0 <= i < j < |ps| ==> ps[i].index < ps[j].index
  }

  /** What edit `i` met when its turn came in a pass. */
  function Met(text: string, edits: seq<Edit>, already: set<nat>, report: bool, i: nat): Attempt
    requires i < |edits|
  {
    Try(Pass(text, edits, already, report, i).text, edits[i])
  }

  /** A pass, edit by edit. */
  lemma {:induction false} PassAt(text: string, edits: seq<Edit>, already: set<nat>, report: bool, k: nat, i: nat)
    requires i < |edits| && k <= |edits|
    ensures var st, met := Pass(text, edits, already, report, k), Met(text, edits, already, report, i);
            && (i in st.done <==> i < k && i !in already && met == Exact)
            && (forall fault :: Problem(i, fault) in st.problems <==>
                  i < k && i !in already && (met == Faulty(fault) || (report && fault == Missed && met == Absent)))
            && (i in st.applied <==> i in already || (i < k && met != Absent))
  {
    if k == 0 {
    } else {
      PassAt(text, edits, already, report, k - 1, i);
      PassNext(text, edits, already, report, k - 1);
      StepAt(Pass(text, edits, already, report, k - 1), edits[k - 1], k - 1, report, i);
    }
  }

  /** What one step adds. */
  lemma StepAt(st: State, e: Edit, k: nat, report: bool, i: nat)
    ensures var now, met := Step(st, e, k, report), Try(st.text, e);
            && (i in now.done <==> i in st.done || (i == k && k !in st.applied && met == Exact))
            && (forall fault :: Problem(i, fault) in now.problems <==>
                  (Problem(i, fault) in st.problems
                   || (i == k && k !in st.applied
                       && (met == Faulty(fault) || (report && fault == Missed && met == Absent)))))
            && (i in now.applied <==> i in st.applied || (i == k && met != Absent))
  {
    TryFault(st.text, e);
  }

  /** `after` is `before` with each of exactly `n` disjoint occurrences, taken from the
      left and none left over, replaced. */
  ghost predicate Replaced(before: string, after: string, find: string, replacement: string, n: int) {
    exists pieces: seq<string> ::
      pieces != [] && Leftmost(pieces, find) && Occurrences(pieces) == n
      && Glue(pieces, find) == before && Glue(pieces, replacement) == after
  }

  /** An edit that is carried out replaces exactly its declared number of occurrences;
      any other edit leaves the text alone. */
  lemma EditReplaces(text: string, edits: seq<Edit>, already: set<nat>, report: bool, i: nat)
    requires i < |edits|
    ensures var before, after := Pass(text, edits, already, report, i).text, Pass(text, edits, already, report, i + 1);
            var e := edits[i];
            if i in after.done then
              && e.find.Literal? && Expected(e).Some?
              && Replaced(before, after.text, e.find.s, TextOf(e.replacement), Expected(e).value)
              && |after.text| == |before| + Expected(e).value * (|TextOf(e.replacement)| - |e.find.s|)
            else after.text == before
    ensures var before, after := Pass(text, edits, already, report, i).text, Pass(text, edits, already, report, i + 1);
            var e := edits[i];
            i in after.done && e.replacement.Literal? ==>
              && (e.count == Default ==> Replaced(before, after.text, e.find.s, e.replacement.s, 1))
              && !e.count.NotNumber?
              && (e.count.Number? ==> e.count.n > 0
                                      && Replaced(before, after.text, e.find.s, e.replacement.s, e.count.n))
  {
    var st, e := Pass(text, edits, already, report, i), edits[i];
    PassAt(text, edits, already, report, i, i);
    PassAt(text, edits, already, report, i + 1, i);
    if i in Pass(text, edits, already, report, i + 1).done {
      var pieces := Split(st.text, e.find.s);
      SplitIsFaithful(st.text, e.find.s);
      SplitIsLeftmost(st.text, e.find.s);
      ReplaceLength(st.text, e.find.s, TextOf(e.replacement));
      assert Glue(pieces, e.find.s) == st.text && Occurrences(pieces) == Expected(e).value;
    }
  }

  /** What a problem says of edit `e` and the text it was tried on. */
  ghost predicate Describes(fault: Fault, e: Edit, text: string, report: bool) {
    match fault
    case BadFind => e.find.NotText? || e.find.s == ""
    case BadCount => e.find.Literal? && e.find.s != "" && (e.count.NotNumber? || (e.count.Number? && e.count.n <= 0))
    case Missed => report && e.find.Literal? && e.find.s != "" && !Contains(text, e.find.s)
    case Mismatch(expected, actual) =>
      && e.find.Literal? && e.find.s != "" && (e.count == Number(expected) || (e.count == Default && expected == 1))
      && 0 < actual && actual != expected
      && exists pieces :: pieces != [] && Leftmost(pieces, e.find.s) && Glue(pieces, e.find.s) == text
                          && |pieces| == actual + 1
  }

  /** Every problem reported is one: the numbers in it are the declared one and the number of
      disjoint occurrences in the text at that point. */
  lemma ProblemMeans(text: string, edits: seq<Edit>, already: set<nat>, report: bool, k: nat, i: nat, fault: Fault)
    requires i < |edits| && k <= |edits| && Problem(i, fault) in Pass(text, edits, already, report, k).problems
    ensures Describes(fault, edits[i], Pass(text, edits, already, report, i).text, report)
  {
    PassAt(text, edits, already, report, k, i);
    FaultMeans(Pass(text, edits, already, report, i).text, edits[i], report, fault);
  }

  lemma FaultMeans(text: string, e: Edit, report: bool, fault: Fault)
    requires Try(text, e) == Faulty(fault) || (report && fault == Missed && Try(text, e) == Absent)
    ensures Describes(fault, e, text, report)
  {
    TryFault(text, e);
    if ValidFind(e) {
      AbsentMeansZero(text, e.find.s);
      SplitIsFaithful(text, e.find.s);
      SplitIsLeftmost(text, e.find.s);
      assert |Split(text, e.find.s)| == Count(text, e.find.s) + 1;
    }
  }

  /** Replacements and problems are in the order of the edits, all before the `k`-th. */
  ghost predicate Ordered(st: State, k: nat) {
    && Increasing(st.done) && InOrder(st.problems)
    && (forall i :: 0 <= i < |st.done| ==> st.done[i] < k)
    && (forall i :: 0 <= i < |st.problems| ==> st.problems[i].index < k)
  }

  /** Problems and replacements are recorded in the order of the edits. */
  lemma {:induction false} PassOrder(text: string, edits: seq<Edit>, already: set<nat>, report: bool, k: nat)
    requires k <= |edits|
    ensures Ordered(Pass(text, edits, already, report, k), k)
  {
    if k == 0 {
    } else {
      PassOrder(text, edits, already, report, k - 1);
      PassNext(text, edits, already, report, k - 1);
      var st := Pass(text, edits, already, report, k - 1);
      StepOrder(st, Pass(text, edits, already, report, k), edits[k - 1], k - 1, report);
    }
  }

  lemma StepOrder(st: State, now: State, e: Edit, k: nat, report: bool)
    requires Ordered(st, k) && now == Step(st, e, k, report)
    ensures Ordered(now, k + 1)
  {
  }

  lemma TryFault(text: string, e: Edit)
    ensures Try(text, e) != Faulty(Missed)
  {
  }

  // ---- Two passes ----------------------------------------------------------

  /** What becomes of a declared edit over a whole run. */
  datatype Fate = Failed(fault: Fault) | DoneFirst | DoneSecond

  /** Both passes, with any transformation of the text between them. */
  function First(source: string, edits: seq<Edit>): State {
    Pass(source, edits, {}, false, |edits|)
  }

  function Second(source: string, edits: seq<Edit>, strip: string -> string): State {
    var first := First(source, edits);
    Pass(strip(first.text), edits, first.applied, true, |edits|)
  }

  /** What `port_text` does with the edits around the stripping. */
  method EditTwice(source: string, edits: seq<Edit>, strip: string -> string)
    returns (raised: bool, text: string, problems: seq<Problem>)
    ensures raised <==> Raises(First(source, edits), edits) || Raises(Second(source, edits, strip), edits)
    ensures !raised ==> text == Second(source, edits, strip).text
    ensures !raised ==> problems == First(source, edits).problems + Second(source, edits, strip).problems
  {
    var early, applied, late, all;
    raised, text, early, applied := ApplyLiteralEdits(source, edits, {}, false);
    problems := early;
    if !raised {
      raised, text, late, all := ApplyLiteralEdits(strip(text), edits, applied, true);
      problems := early + late;
    }
  }

  /** The fate of edit `i`, from the two texts it was tried on: a second try is made
      only when the first text did not hold it at all. */
  function FateOf(source: string, edits: seq<Edit>, strip: string -> string, i: nat): Fate
    requires i < |edits|
  {
    match Met(source, edits, {}, false, i)
    case Faulty(fault) => Failed(fault)
    case Exact => DoneFirst
    case Absent =>
      var first := First(source, edits);
      match Met(strip(first.text), edits, first.applied, true, i)
      case Faulty(fault) => Failed(fault)
      case Exact => DoneSecond
      case Absent => Failed(Missed)
  }

  /** Every declared edit is carried out at most once over both passes, and reported
      exactly when it fails; it is a miss only if neither text held it. */
  lemma EveryEditHasOneFate(source: string, edits: seq<Edit>, strip: string -> string, i: nat)
    requires i < |edits|
    ensures var first, second, fate := First(source, edits), Second(source, edits, strip),
            FateOf(source, edits, strip, i);
            && (i in first.done <==> fate == DoneFirst)
            && (i in second.done <==> fate == DoneSecond)
            && Increasing(first.done) && Increasing(second.done)
            && InOrder(first.problems) && InOrder(second.problems)
            && forall fault :: (Problem(i, fault) in first.problems + second.problems <==> fate == Failed(fault))
                               && !(Problem(i, fault) in first.problems && Problem(i, fault) in second.problems)
  {
    var first := First(source, edits);
    PassAt(source, edits, {}, false, |edits|, i);
    PassAt(strip(first.text), edits, first.applied, true, |edits|, i);
    PassOrder(source, edits, {}, false, |edits|);
    PassOrder(strip(first.text), edits, first.applied, true, |edits|);
    TryFault(Pass(source, edits, {}, false, i).text, edits[i]);
    TryFault(Pass(strip(first.text), edits, first.applied, true, i).text, edits[i]);
  }

  /** A run without problems carried out every declared edit, each in one pass. */
  lemma NoProblemsMeansAllDone(source: string, edits: seq<Edit>, strip: string -> string)
    ensures First(source, edits).problems + Second(source, edits, strip).problems == []
       <==> forall i :: 0 <= i < |edits| ==>
              FateOf(source, edits, strip, i) == DoneFirst || FateOf(source, edits, strip, i) == DoneSecond
  {
    var all := First(source, edits).problems + Second(source, edits, strip).problems;
    forall i | 0 <= i < |edits|
      ensures FateOf(source, edits, strip, i).Failed? ==> Problem(i, FateOf(source, edits, strip, i).fault) in all
      ensures forall fault :: Problem(i, fault) in all ==> FateOf(source, edits, strip, i) == Failed(fault)
    {
      EveryEditHasOneFate(source, edits, strip, i);
    }
    if all != [] {
      PassOrder(source, edits, {}, false, |edits|);
      PassOrder(strip(First(source, edits).text), edits, First(source, edits).applied, true, |edits|);
      var p := all[0];
      assert p in all && p == Problem(p.index, p.fault);
      assert FateOf(source, edits, strip, p.index) == Failed(p.fault);
    }
  }
}
