/** `source_tokens` and `check_source_tokens`: the boundary-free scan for names a
    rename table was meant to remove. */
module SourceTokens {
  import opened Text
  import opened LiteralRuns
  import opened PatternRuns

  const MIN_SOURCE_TOKEN_LENGTH := 4

  /** `str.casefold`: every character is folded on its own, possibly to several. */
  function Fold(s: string, fold: char -> string): string {
    if s == "" then "" else fold(s[0]) + Fold(s[1..], fold)
  }

  lemma {:induction false} FoldAppend(a: string, b: string, fold: char -> string)
    ensures Fold(a + b, fold) == Fold(a, fold) + Fold(b, fold)
  {
    if a == "" {
      assert a + b == b;
    } else {
      FoldAppend(a[1..], b, fold);
      assert (a + b)[1..] == a[1..] + b;
      Assoc(fold(a[0]), Fold(a[1..], fold), Fold(b, fold));
    }
  }

  /** Every character is folded where it stands. */
  lemma FoldAt(s: string, k: nat, fold: char -> string)
    requires k < |s|
    ensures Fold(s, fold) == Fold(s[..k], fold) + (fold(s[k]) + Fold(s[k + 1..], fold))
  {
    assert s == s[..k] + s[k..];
    FoldAppend(s[..k], s[k..], fold);
    assert s[k..][1..] == s[k + 1..];
  }

  /** Folding a line folds every part of it where it stands. */
  lemma FoldKeepsContains(s: string, run: string, fold: char -> string)
    requires Contains(s, run)
    ensures Contains(Fold(s, fold), Fold(run, fold))
  {
    var i :| OccursAt(s, run, i);
    var a, b := s[..i], s[i + |run|..];
    assert s == a + (run + b);
    FoldAppend(a, run + b, fold);
    FoldAppend(run, b, fold);
    MiddleIsContained(Fold(a, fold), Fold(run, fold), Fold(b, fold));
  }

  /** How characters are classified and folded. */
  datatype Unicode = Unicode(alnum: char -> bool, fold: char -> string)

  datatype SourceToken = SourceToken(index: nat, text: string)

  // ---- Deriving the tokens -------------------------------------------------

  /** Rule `index` names the text `t` of at least the minimal length. */
  ghost predicate Names(patterns: seq<string>, index: nat, t: string, u: Unicode) {
    index < |patterns| && |t| >= MIN_SOURCE_TOKEN_LENGTH
    && exists run :: run in Runs(patterns[index], u.alnum) && Fold(run, u.fold) == t
  }

  ghost predicate Distinct(tokens: seq<SourceToken>) {
    forall a, b :: 0 <= a < b < |tokens| ==> tokens[a].text != tokens[b].text
  }

  /** The rule of the token is the first that names its text. */
  ghost predicate NamedFirst(patterns: seq<string>, c: SourceToken, u: Unicode) {
    Names(patterns, c.index, c.text, u) && forall e: nat :: e < c.index ==> !Names(patterns, e, c.text, u)
  }

  /** `candidates` are exactly the texts that the first `k` rules name, each once and
      under the first rule that names it. */
  ghost predicate Candidates(patterns: seq<string>, k: nat, candidates: seq<SourceToken>, u: Unicode) {
    && k <= |patterns|
    && Distinct(candidates)
    && (forall c :: c in candidates ==> c.index < k && NamedFirst(patterns, c, u))
    && (forall e: nat, t :: e < k && Names(patterns, e, t, u) ==> exists c :: c in candidates && c.text == t)
  }

  predicate Redundant(token: SourceToken, candidates: seq<SourceToken>) {
    exists other :: other in candidates && other.text != token.text && ContainsText(token.text, other.text)
  }

  function Minimal(tokens: seq<SourceToken>, candidates: seq<SourceToken>): (kept: seq<SourceToken>)
    ensures forall t :: t in kept <==> t in tokens && !Redundant(t, candidates)
  {
    if tokens == [] then [] else
    var front := Minimal(tokens[..|tokens| - 1], candidates);
    var last := tokens[|tokens| - 1];
    if Redundant(last, candidates) then front else front + [last]
  }

  method CollectCandidates(patterns: seq<string>, u: Unicode) returns (candidates: seq<SourceToken>)
    ensures Candidates(patterns, |patterns|, candidates, u)
  {
    candidates := [];
    var seen: set<string> := {};
    for index := 0 to |patterns|
      invariant seen == set c | c in candidates :: c.text
      invariant Candidates(patterns, index, candidates, u)
    {
      var runs := LiteralRuns.LiteralRuns(patterns[index], u.alnum);
      for r := 0 to |runs|
        invariant seen == set c | c in candidates :: c.text
        invariant Distinct(candidates)
        invariant forall c :: c in candidates ==> c.index <= index && NamedFirst(patterns, c, u)
        invariant forall e: nat, t :: e < index && Names(patterns, e, t, u) ==> t in seen
        invariant forall k :: 0 <= k < r && |Fold(runs[k], u.fold)| >= MIN_SOURCE_TOKEN_LENGTH ==>
                  Fold(runs[k], u.fold) in seen
      {
        var folded := Fold(runs[r], u.fold);
        if |folded| < MIN_SOURCE_TOKEN_LENGTH || folded in seen {
          continue;
        }
        assert Names(patterns, index, folded, u);
        assert NamedFirst(patterns, SourceToken(index, folded), u);
        seen := seen + {folded};
        candidates := candidates + [SourceToken(index, folded)];
      }
    }
  }

  method SourceTokensOf(patterns: seq<string>, u: Unicode) returns (tokens: seq<SourceToken>)
    ensures exists candidates ::
              Candidates(patterns, |patterns|, candidates, u) && tokens == Minimal(candidates, candidates)
  {
    var candidates := CollectCandidates(patterns, u);
    tokens := Minimal(candidates, candidates);
  }

  /** Kept are exactly the tokens that contain no other one. */
  lemma MinimalMeans(candidates: seq<SourceToken>, t: SourceToken)
    ensures t in Minimal(candidates, candidates)
       <==> t in candidates && forall c :: c in candidates && Contains(t.text, c.text) ==> c.text == t.text
  {
  }

  lemma ProperlyContained(a: string, b: string)
    requires Contains(a, b) && a != b
    ensures |b| < |a|
  {
    var i :| OccursAt(a, b, i);
    assert a[0..|a|] == a;
  }

  /** A token that contains another may be dropped: whatever it would have found,
      some token that is kept finds too. */
  lemma {:induction false} SomeKeptTokenIsInside(c: SourceToken, candidates: seq<SourceToken>)
    requires c in candidates
    ensures exists t :: t in Minimal(candidates, candidates) && Contains(c.text, t.text)
    decreases |c.text|
  {
    if Redundant(c, candidates) {
      var other :| other in candidates && other.text != c.text && ContainsText(c.text, other.text);
      ProperlyContained(c.text, other.text);
      SomeKeptTokenIsInside(other, candidates);
      var t :| t in Minimal(candidates, candidates) && Contains(other.text, t.text);
      ContainsTrans(c.text, other.text, t.text);
    } else {
      assert c.text[0..|c.text|] == c.text;
      assert OccursAt(c.text, c.text, 0);
    }
  }

  /** Dropping every token that contains another one changes no verdict. */
  lemma MinimalTokensDecideTheSame(line: string, candidates: seq<SourceToken>)
    ensures (exists c :: c in candidates && Contains(line, c.text))
       <==> (exists t :: t in Minimal(candidates, candidates) && Contains(line, t.text))
  {
    if c :| c in candidates && Contains(line, c.text) {
      SomeKeptTokenIsInside(c, candidates);
      var t :| t in Minimal(candidates, candidates) && Contains(c.text, t.text);
      ContainsTrans(line, c.text, t.text);
    }
  }

  // ---- Scanning the tree ---------------------------------------------------

  datatype IndexedPath = IndexedPath(rel: string, mode: string)

  /** The staged bytes of a file, as far as the scan can read them. */
  datatype Blob = Utf8(text: string) | Undecodable

  datatype Finding = Finding(rel: string, line: nat, token: nat)

  const RULE_DEFINITION_PATHS: set<string> :=
    {"tools/extract/gate.py", "tools/extract/port.py", "tools/extract/vocabulary.example.json"}

  predicate Scanned(entry: IndexedPath, blobs: map<string, Blob>, excluded: set<string>) {
    && entry.rel !in excluded
    && (entry.mode == "100644" || entry.mode == "100755")
    && entry.rel in blobs && blobs[entry.rel].Utf8?
  }

  /** The first token of the list that occurs in a folded line. */
  function FirstHit(tokens: seq<SourceToken>, folded: string): (hit: Option<SourceToken>)
    ensures hit.Some? ==> hit.value in tokens && Contains(folded, hit.value.text)
    ensures hit.None? ==> forall t :: t in tokens ==> !Contains(folded, t.text)
  {
    if tokens == [] then None
    else if ContainsText(folded, tokens[0].text) then Some(tokens[0])
    else FirstHit(tokens[1..], folded)
  }

  /** `hit` is the first token of the list that occurs in the line. */
  ghost predicate IsFirstHit(tokens: seq<SourceToken>, k: nat, folded: string) {
    && k < |tokens| && Contains(folded, tokens[k].text)
    && forall j :: 0 <= j < k ==> !Contains(folded, tokens[j].text)
  }

  lemma {:induction false} FirstHitIs(tokens: seq<SourceToken>, folded: string)
    ensures FirstHit(tokens, folded).Some? ==>
              exists k: nat :: IsFirstHit(tokens, k, folded) && FirstHit(tokens, folded).value == tokens[k]
  {
    if tokens == [] {
    } else if ContainsText(folded, tokens[0].text) {
      assert IsFirstHit(tokens, 0, folded);
    } else if FirstHit(tokens, folded).Some? {
      FirstHitIs(tokens[1..], folded);
      var k: nat :| IsFirstHit(tokens[1..], k, folded) && FirstHit(tokens[1..], folded).value == tokens[1..][k];
      LaterHit(tokens, k, folded);
    }
  }

  lemma LaterHit(tokens: seq<SourceToken>, k: nat, folded: string)
    requires tokens != [] && !Contains(folded, tokens[0].text) && IsFirstHit(tokens[1..], k, folded)
    ensures IsFirstHit(tokens, k + 1, folded)
  {
    forall j | 0 <= j < k + 1 ensures !Contains(folded, tokens[j].text) {
      if j > 0 { assert tokens[1..][j - 1] == tokens[j]; }
    }
  }

  function LineFinding(rel: string, line: nat, hit: Option<SourceToken>): seq<Finding> {
    if hit.Some? then [Finding(rel, line, hit.value.index)] else []
  }

  function LineFindings(rel: string, lines: seq<string>, tokens: seq<SourceToken>, fold: char -> string): seq<Finding> {
    if lines == [] then [] else
    var n := |lines|;
    var front := LineFindings(rel, lines[..n - 1], tokens, fold);
    front + LineFinding(rel, n, FirstHit(tokens, Fold(lines[n - 1], fold)))
  }

  /** What one entry adds to the report. */
  function FindingsIn(entry: IndexedPath, blobs: map<string, Blob>, tokens: seq<SourceToken>, excluded: set<string>,
                      fold: char -> string): seq<Finding>
  {
    if Scanned(entry, blobs, excluded)
    then LineFindings(entry.rel, SplitLines(blobs[entry.rel].text), tokens, fold)
    else []
  }

  function Findings(entries: seq<IndexedPath>, blobs: map<string, Blob>, tokens: seq<SourceToken>,
                    excluded: set<string>, fold: char -> string): seq<Finding>
  {
    if entries == [] then [] else
    var front := Findings(entries[..|entries| - 1], blobs, tokens, excluded, fold);
    var last := entries[|entries| - 1];
    front + FindingsIn(last, blobs, tokens, excluded, fold)
  }

  method ScanLine(tokens: seq<SourceToken>, folded: string) returns (hit: Option<SourceToken>)
    ensures hit == FirstHit(tokens, folded)
  {
    hit := None;
    for k := 0 to |tokens|
      invariant hit == None && FirstHit(tokens, folded) == FirstHit(tokens[k..], folded)
    {
      assert tokens[k..][1..] == tokens[k + 1..];
      if ContainsText(folded, tokens[k].text) {
        return Some(tokens[k]);
      }
    }
  }

  lemma FindingsNext(report: seq<Finding>, entries: seq<IndexedPath>, k: nat, blobs: map<string, Blob>,
                     tokens: seq<SourceToken>, excluded: set<string>, fold: char -> string)
    requires k < |entries|
    ensures report + Findings(entries[..k + 1], blobs, tokens, excluded, fold)
         == report + Findings(entries[..k], blobs, tokens, excluded, fold)
          + FindingsIn(entries[k], blobs, tokens, excluded, fold)
  {
    assert entries[..k + 1][..k] == entries[..k];
  }

  lemma LinesNext(report: seq<Finding>, rel: string, lines: seq<string>, k: nat, tokens: seq<SourceToken>,
                  fold: char -> string)
    requires k < |lines|
    ensures report + LineFindings(rel, lines[..k + 1], tokens, fold)
         == report + LineFindings(rel, lines[..k], tokens, fold)
          + LineFinding(rel, k + 1, FirstHit(tokens, Fold(lines[k], fold)))
  {
    assert lines[..k + 1][..k] == lines[..k];
  }

  method CheckSourceTokens(entries: seq<IndexedPath>, blobs: map<string, Blob>, report: seq<Finding>,
                           tokens: seq<SourceToken>, extraExcluded: set<string>, fold: char -> string)
    returns (report': seq<Finding>)
    ensures report' == report + Findings(entries, blobs, tokens, RULE_DEFINITION_PATHS + extraExcluded, fold)
  {
    var excluded := RULE_DEFINITION_PATHS + extraExcluded;
    report' := report;
    if tokens == [] {
      NoTokensNoFindings(entries, blobs, excluded, fold);
      return;
    }
    for e := 0 to |entries|
      invariant report' == report + Findings(entries[..e], blobs, tokens, excluded, fold)
    {
      var entry := entries[e];
      FindingsNext(report, entries, e, blobs, tokens, excluded, fold);
      if !Scanned(entry, blobs, excluded) {
        continue;
      }
      var lines := SplitLines(blobs[entry.rel].text);
      ghost var before := report';
      for n := 0 to |lines|
        invariant report' == before + LineFindings(entry.rel, lines[..n], tokens, fold)
      {
        LinesNext(before, entry.rel, lines, n, tokens, fold);
        var hit := ScanLine(tokens, Fold(lines[n], fold));
        if hit.Some? {
          report' := report' + [Finding(entry.rel, n + 1, hit.value.index)];
        }
      }
      assert lines[..|lines|] == lines;
    }
    assert entries[..|entries|] == entries;
  }

  lemma {:induction false} NoTokensNoFindings(entries: seq<IndexedPath>, blobs: map<string, Blob>,
                                              excluded: set<string>, fold: char -> string)
    ensures Findings(entries, blobs, [], excluded, fold) == []
  {
    if entries == [] {
    } else {
      var last := entries[|entries| - 1];
      NoTokensNoFindings(entries[..|entries| - 1], blobs, excluded, fold);
      if Scanned(last, blobs, excluded) { NoTokensNoLines(last.rel, SplitLines(blobs[last.rel].text), fold); }
    }
  }

  lemma {:induction false} NoTokensNoLines(rel: string, lines: seq<string>, fold: char -> string)
    ensures LineFindings(rel, lines, [], fold) == []
  {
    if lines == [] {
    } else {
      NoTokensNoLines(rel, lines[..|lines| - 1], fold);
    }
  }

  lemma {:induction false} LineIsHit(rel: string, lines: seq<string>, tokens: seq<SourceToken>,
                                     fold: char -> string, f: Finding)
    ensures f in LineFindings(rel, lines, tokens, fold)
       <==> (f.rel == rel && 1 <= f.line <= |lines|
             && FirstHit(tokens, Fold(lines[f.line - 1], fold)).Some?
             && FirstHit(tokens, Fold(lines[f.line - 1], fold)).value.index == f.token)
  {
    if lines == [] {
    } else {
      var n := |lines|;
      LineIsHit(rel, lines[..n - 1], tokens, fold, f);
    }
  }

  /** A line of a file is reported exactly when a token occurs in it, and under the first
      of the list that does. */
  lemma LineIsReported(rel: string, lines: seq<string>, tokens: seq<SourceToken>, fold: char -> string, f: Finding)
    ensures f in LineFindings(rel, lines, tokens, fold)
       <==> (f.rel == rel && 1 <= f.line <= |lines|
             && exists k: nat :: IsFirstHit(tokens, k, Fold(lines[f.line - 1], fold)) && tokens[k].index == f.token)
  {
    LineIsHit(rel, lines, tokens, fold, f);
    if 1 <= f.line <= |lines| {
      var folded := Fold(lines[f.line - 1], fold);
      FirstHitIs(tokens, folded);
      forall k: nat, j: nat | IsFirstHit(tokens, k, folded) && IsFirstHit(tokens, j, folded) ensures k == j {}
      if k: nat :| IsFirstHit(tokens, k, folded) && tokens[k].index == f.token { assert tokens[k] in tokens; }
    }
  }

  /** All of one file, in the order of its lines, each at most once. */
  ghost predicate InLineOrder(fs: seq<Finding>, rel: string, n: nat) {
    && (forall a, b :: 0 <= a < b < |fs| ==> fs[a].line < fs[b].line)
    && (forall f :: f in fs ==> f.rel == rel && 1 <= f.line <= n)
  }

  lemma {:induction false} LinesInOrder(rel: string, lines: seq<string>, tokens: seq<SourceToken>, fold: char -> string)
    ensures InLineOrder(LineFindings(rel, lines, tokens, fold), rel, |lines|)
  {
    if lines == [] {
    } else {
      var n := |lines|;
      LinesInOrder(rel, lines[..n - 1], tokens, fold);
      OneMoreLine(LineFindings(rel, lines[..n - 1], tokens, fold), rel, n, FirstHit(tokens, Fold(lines[n - 1], fold)));
    }
  }

  lemma OneMoreLine(fs: seq<Finding>, rel: string, n: nat, hit: Option<SourceToken>)
    requires n > 0 && InLineOrder(fs, rel, n - 1)
    ensures InLineOrder(fs + LineFinding(rel, n, hit), rel, n)
  {
  }

  /** No two findings are about the same line of the same file. */
  ghost predicate EachOnce(fs: seq<Finding>) {
    forall a, b :: 0 <= a < b < |fs| ==> fs[a].rel != fs[b].rel || fs[a].line != fs[b].line
  }

  ghost predicate OfEntries(fs: seq<Finding>, entries: seq<IndexedPath>) {
    forall f :: f in fs ==> exists k :: 0 <= k < |entries| && entries[k].rel == f.rel
  }

  /** However many tokens a line holds, it is reported once. */
  lemma {:induction false} LinesAreReportedOnce(entries: seq<IndexedPath>, blobs: map<string, Blob>,
                                                tokens: seq<SourceToken>, excluded: set<string>, fold: char -> string)
    requires forall a, b :: 0 <= a < b < |entries| ==> entries[a].rel != entries[b].rel
    ensures EachOnce(Findings(entries, blobs, tokens, excluded, fold))
    ensures OfEntries(Findings(entries, blobs, tokens, excluded, fold), entries)
  {
    if entries == [] {
    } else {
      var front, last := entries[..|entries| - 1], entries[|entries| - 1];
      LinesAreReportedOnce(front, blobs, tokens, excluded, fold);
      if Scanned(last, blobs, excluded) { LinesInOrder(last.rel, SplitLines(blobs[last.rel].text), tokens, fold); }
      LastEntry(entries);
      OneMoreFile(Findings(front, blobs, tokens, excluded, fold), FindingsIn(last, blobs, tokens, excluded, fold),
                  front, last);
    }
  }

  lemma LastEntry(entries: seq<IndexedPath>)
    requires entries != []
    ensures var n := |entries| - 1; entries == entries[..n] + [entries[n]]
  {
  }

  lemma OneMoreFile(fs: seq<Finding>, more: seq<Finding>, entries: seq<IndexedPath>, entry: IndexedPath)
    requires EachOnce(fs) && EachOnce(more) && OfEntries(fs, entries) && forall f :: f in more ==> f.rel == entry.rel
    requires forall k :: 0 <= k < |entries| ==> entries[k].rel != entry.rel
    ensures EachOnce(fs + more) && OfEntries(fs + more, entries + [entry])
  {
    var all := entries + [entry];
    assert all[|entries|] == entry;
    forall f | f in fs ensures exists k :: 0 <= k < |all| && all[k].rel == f.rel {
      var k :| 0 <= k < |entries| && entries[k].rel == f.rel;
      assert all[k] == entries[k];
    }
  }

  /** A finding of a regular file that is tracked, can be read and is no rule definition. */
  ghost predicate FoundIn(entry: IndexedPath, blobs: map<string, Blob>, tokens: seq<SourceToken>, excluded: set<string>,
                          fold: char -> string, f: Finding)
  {
    && entry.rel !in excluded && entry.mode in {"100644", "100755"}
    && entry.rel in blobs && blobs[entry.rel].Utf8?
    && f in LineFindings(entry.rel, SplitLines(blobs[entry.rel].text), tokens, fold)
  }

  /** Exactly the lines of such files with a token in them are reported. */
  lemma {:induction false} FindingMeans(entries: seq<IndexedPath>, blobs: map<string, Blob>, tokens: seq<SourceToken>,
                                        excluded: set<string>, fold: char -> string, f: Finding)
    ensures f in Findings(entries, blobs, tokens, excluded, fold)
       <==> exists entry :: entry in entries && FoundIn(entry, blobs, tokens, excluded, fold, f)
  {
    if entries == [] {
    } else {
      var front, last := entries[..|entries| - 1], entries[|entries| - 1];
      FindingMeans(front, blobs, tokens, excluded, fold, f);
      LastEntry(entries);
      FoundInLast(last, blobs, tokens, excluded, fold, f);
    }
  }

  lemma FoundInLast(entry: IndexedPath, blobs: map<string, Blob>, tokens: seq<SourceToken>, excluded: set<string>,
                    fold: char -> string, f: Finding)
    ensures f in FindingsIn(entry, blobs, tokens, excluded, fold)
       <==> FoundIn(entry, blobs, tokens, excluded, fold, f)
  {
  }

  // ---- The promise of the gate ---------------------------------------------

  /** Where in a report line `n` of `entry` shows up, and under which token. */
  ghost predicate Reported(entry: IndexedPath, n: nat, folded: string, tokens: seq<SourceToken>, report: seq<Finding>) {
    exists t :: t in tokens && Contains(folded, t.text) && Finding(entry.rel, n + 1, t.index) in report
  }

  /** A line of a scanned file is reported exactly when it contains a text some rule
      names, whether or not that text is still in the list that is scanned for. */
  lemma LineIsReportedIff(candidates: seq<SourceToken>, entries: seq<IndexedPath>, blobs: map<string, Blob>,
                          excluded: set<string>, fold: char -> string, entry: IndexedPath, n: nat)
    requires entry in entries && Scanned(entry, blobs, excluded) && n < |SplitLines(blobs[entry.rel].text)|
    ensures var tokens := Minimal(candidates, candidates);
            var folded := Fold(SplitLines(blobs[entry.rel].text)[n], fold);
            (Reported(entry, n, folded, tokens, Findings(entries, blobs, tokens, excluded, fold))
             <==> exists c :: c in candidates && Contains(folded, c.text))
  {
    var lines := SplitLines(blobs[entry.rel].text);
    var tokens := Minimal(candidates, candidates);
    var folded := Fold(lines[n], fold);
    MinimalTokensDecideTheSame(folded, candidates);
    if FirstHit(tokens, folded).Some? {
      var f := Finding(entry.rel, n + 1, FirstHit(tokens, folded).value.index);
      LineIsHit(entry.rel, lines, tokens, fold, f);
      FindingIsThere(entries, blobs, tokens, excluded, fold, entry, f);
    }
  }

  lemma FindingIsThere(entries: seq<IndexedPath>, blobs: map<string, Blob>, tokens: seq<SourceToken>,
                       excluded: set<string>, fold: char -> string, entry: IndexedPath, f: Finding)
    requires entry in entries && Scanned(entry, blobs, excluded)
    requires f in LineFindings(entry.rel, SplitLines(blobs[entry.rel].text), tokens, fold)
    ensures f in Findings(entries, blobs, tokens, excluded, fold)
  {
    FoundInLast(entry, blobs, tokens, excluded, fold, f);
    FindingMeans(entries, blobs, tokens, excluded, fold, f);
  }

  /** A surviving match puts the text its rule names into the folded line. */
  lemma MatchShowsCandidate(patterns: seq<string>, u: Unicode, candidates: seq<SourceToken>,
                            rule: nat, r: Re, run: string, m: Meaning, line: string, i: nat, j: nat)
    requires Candidates(patterns, |patterns|, candidates, u)
    requires rule < |patterns| && patterns[rule] == Print(r) && Valid(r, u.alnum) && Certain(r)
    requires run in Runs(patterns[rule], u.alnum) && |Fold(run, u.fold)| >= 4
    requires Match(m, r, line, i, j)
    ensures exists c :: c in candidates && Contains(Fold(line, u.fold), c.text)
  {
    RunsAreInEveryMatch(m, r, u.alnum, line, i, j, run);
    FoldKeepsContains(line, run, u.fold);
    assert Names(patterns, rule, Fold(run, u.fold), u);
    var c :| c in candidates && c.text == Fold(run, u.fold);
  }

  /** End to end: if a rename pattern still matches inside a line of a scanned file
      and names a text of at least four folded characters, that line is reported,
      and the token it is reported for occurs in it. */
  lemma SurvivingNameIsReported(
      patterns: seq<string>, u: Unicode, candidates: seq<SourceToken>,
      entries: seq<IndexedPath>, blobs: map<string, Blob>, excluded: set<string>,
      rule: nat, r: Re, run: string, m: Meaning, entry: IndexedPath, n: nat, i: nat, j: nat)
    requires Candidates(patterns, |patterns|, candidates, u)
    requires rule < |patterns| && patterns[rule] == Print(r) && Valid(r, u.alnum) && Certain(r)
    requires run in Runs(patterns[rule], u.alnum) && |Fold(run, u.fold)| >= 4
    requires entry in entries && Scanned(entry, blobs, excluded)
    requires n < |SplitLines(blobs[entry.rel].text)|
    requires Match(m, r, SplitLines(blobs[entry.rel].text)[n], i, j)
    ensures var tokens := Minimal(candidates, candidates);
            Reported(entry, n, Fold(SplitLines(blobs[entry.rel].text)[n], u.fold), tokens,
                     Findings(entries, blobs, tokens, excluded, u.fold))
  {
    MatchShowsCandidate(patterns, u, candidates, rule, r, run, m, SplitLines(blobs[entry.rel].text)[n], i, j);
    LineIsReportedIff(candidates, entries, blobs, excluded, u.fold, entry, n);
  }
}
