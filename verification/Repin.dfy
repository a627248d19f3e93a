/** `repin.py`: `apply` edits the authored manifest, `check` says what is wrong with
    it.  The two are proved to fit: what `apply` does, `check` accepts. */
module Repin {
  import opened Text

  type Bytes = string
  type Path = string

  // ---- The manifest --------------------------------------------------------

  /** A value that should be a string; `None` when it is absent or something else. */
  type Field = Option<string>

  datatype Stamp = NoStamp | Malformed | Stamp(reason: Field, previous: string)

  datatype Derived = NotAnObject | Entry(reason: Field, pinned: Field, stamp: Stamp)

  datatype File = File(path: Path, description: Field)

  /** `files` is a map written in order; `derived` is always visited in sorted order. */
  datatype Document = Document(files: seq<File>, derived: map<Path, Derived>)

  const INFRASTRUCTURE: set<Path> := {
    ".gitignore", "LICENSE", "pyproject.toml", "tools/extract/port.py", "tools/extract/gate.py",
    "tools/extract/manifest.json", AUTHORED, "tools/extract/port_receipt.json",
    "tools/extract/vocabulary.example.json"}
  const AUTHORED: Path := "tools/extract/authored.json"

  /** The staged blobs, the files in the worktree, and the ported destinations. */
  datatype Tree = Tree(blobs: map<Path, Bytes>, worktree: map<Path, Bytes>, ported: set<Path>)

  /** The hash, and the test whether a statement says nothing. */
  datatype Tools = Tools(sha: Bytes -> string, vacant: Field -> bool)

  function Paths(files: seq<File>): set<Path> {
    set k | 0 <= k < |files| :: files[k].path
  }

  function Accounted(t: Tree, d: Document): set<Path> {
    INFRASTRUCTURE + t.ported + Paths(d.files) + d.derived.Keys
  }

  // ---- Statements ----------------------------------------------------------

  function LStrip(s: string): string {
    if s != "" && IsSpace(s[0]) then LStrip(s[1..]) else s
  }

  function Strip(s: string): string {
    RStrip(LStrip(s))
  }

  function Words(s: string, inWord: bool): nat {
    if s == "" then 0
    else if IsSpace(s[0]) then Words(s[1..], false)
    else (if inWord then 0 else 1) + Words(s[1..], true)
  }

  const VACANT_MARKER := "UNDESCRIBED-PLACEHOLDER"

  /** `vacant_statement`: whether a description or a reason says nothing.  The two
      tests on words and letters are the library's. */
  predicate VacantStatement(value: Field, placeholder: string -> bool, isAlpha: char -> bool) {
    value.None? || Strip(value.value) == ""
    || var text := Strip(value.value);
       ContainsText(text, VACANT_MARKER) || placeholder(text)
       || |text| < 12 || (forall c :: c in text ==> !isAlpha(c)) || Words(text, false) < 3
  }

  /** Words with gaps between them. */
  function Spaced(words: seq<string>, gaps: seq<string>): string
    requires words != [] && |gaps| == |words| - 1
  {
    if |words| == 1 then words[0] else words[0] + (gaps[0] + Spaced(words[1..], gaps[1..]))
  }

  ghost predicate IsWord(w: string) {
    w != "" && forall k :: 0 <= k < |w| ==> !IsSpace(w[k])
  }

  ghost predicate IsGap(g: string) {
    g != "" && Blanks(g)
  }

  /** A statement says nothing when it has fewer than three words or twelve characters, no
      letter, or a placeholder. */
  lemma VacantIff(s: string, words: seq<string>, gaps: seq<string>, placeholder: string -> bool, isAlpha: char -> bool)
    requires words != [] && |gaps| == |words| - 1 && Strip(s) == Spaced(words, gaps)
    requires (forall k :: 0 <= k < |words| ==> IsWord(words[k])) && forall k :: 0 <= k < |gaps| ==> IsGap(gaps[k])
    ensures VacantStatement(Some(s), placeholder, isAlpha)
       <==> |words| < 3 || |Strip(s)| < 12 || (forall k :: 0 <= k < |Strip(s)| ==> !isAlpha(Strip(s)[k]))
            || placeholder(Strip(s)) || Contains(Strip(s), "UNDESCRIBED-PLACEHOLDER")
  {
    WordsAreCounted(words, gaps);
  }

  lemma {:induction false} WordsAreCounted(words: seq<string>, gaps: seq<string>)
    requires words != [] && |gaps| == |words| - 1
    requires (forall k :: 0 <= k < |words| ==> IsWord(words[k])) && forall k :: 0 <= k < |gaps| ==> IsGap(gaps[k])
    ensures Words(Spaced(words, gaps), false) == |words|
  {
    if |words| == 1 {
      WordIsPassed(words[0], "", false);
      assert words[0] + "" == words[0];
    } else {
      var rest := Spaced(words[1..], gaps[1..]);
      WordsAreCounted(words[1..], gaps[1..]);
      WordIsPassed(words[0], gaps[0] + rest, false);
      GapIsPassed(gaps[0], rest, true);
    }
  }

  lemma {:induction false} WordIsPassed(w: string, rest: string, inWord: bool)
    requires IsWord(w)
    ensures Words(w + rest, inWord) == (if inWord then 0 else 1) + Words(rest, true)
  {
    assert (w + rest)[1..] == w[1..] + rest;
    if |w| == 1 {
      assert w[1..] + rest == rest;
    } else {
      WordIsPassed(w[1..], rest, true);
    }
  }

  lemma {:induction false} GapIsPassed(g: string, rest: string, inWord: bool)
    requires IsGap(g)
    ensures Words(g + rest, inWord) == Words(rest, false)
  {
    assert (g + rest)[1..] == g[1..] + rest;
    if |g| == 1 {
      assert g[1..] + rest == rest;
    } else {
      GapIsPassed(g[1..], rest, false);
    }
  }

  function StandardTools(sha: Bytes -> string, placeholder: string -> bool, isAlpha: char -> bool): Tools {
    Tools(sha, f => VacantStatement(f, placeholder, isAlpha))
  }

  predicate Vacant(value: Field, tools: Tools) {
    tools.vacant(value)
  }

  /** A statement is judged without the white space around it. */
  ghost predicate IgnoresMargins(tools: Tools) {
    forall s :: Vacant(Some(Strip(s)), tools) <==> Vacant(Some(s), tools)
  }

  lemma StandardToolsIgnoreMargins(sha: Bytes -> string, placeholder: string -> bool, isAlpha: char -> bool)
    ensures IgnoresMargins(StandardTools(sha, placeholder, isAlpha))
  {
    var tools := StandardTools(sha, placeholder, isAlpha);
    forall s ensures Vacant(Some(Strip(s)), tools) <==> Vacant(Some(s), tools) { StripIsStable(s); }
  }

  lemma {:induction false} LStripFront(s: string)
    ensures LStrip(s) != "" ==> !IsSpace(LStrip(s)[0])
  {
    if s == "" {
    } else {
      LStripFront(s[1..]);
    }
  }

  /** Stripping a stripped text changes nothing, so a stored statement is judged as
      the one that was given. */
  lemma StripIsStable(s: string)
    ensures Strip(Strip(s)) == Strip(s)
  {
    var l := LStrip(s);
    var r := RStrip(l);
    LStripFront(s);
    if r != "" {
      assert r[0] == l[0];
      assert LStrip(r) == r;
      RStripKeeps(r);
    }
  }

  /** Stripping takes white space off both ends, all of it and nothing else. */
  lemma StripMeans(s: string)
    ensures NoMargins(Strip(s)) && exists a, b :: Blanks(a) && Blanks(b) && s == a + (Strip(s) + b)
  {
    StripIsStable(s);
    NoMarginsIsStripped(Strip(s));
    var a := LStripRest(s);
    var b := RStripRest(LStrip(s));
    assert s == a + (Strip(s) + b);
  }

  lemma RStripRest(l: string) returns (b: string)
    ensures Blanks(b) && l == RStrip(l) + b
  {
    b := l[|RStrip(l)|..];
    forall k | 0 <= k < |b| ensures IsSpace(b[k]) { assert b[k] == l[|RStrip(l)| + k]; }
  }

  lemma {:induction false} LStripRest(s: string) returns (a: string)
    ensures Blanks(a) && s == a + LStrip(s)
  {
    a := "";
    if s != "" && IsSpace(s[0]) {
      var more := LStripRest(s[1..]);
      a := [s[0]] + more;
      assert s == [s[0]] + s[1..];
    }
  }

  const METHOD :=
    "tool-assisted: the hash was updated to the staged bytes by tools/extract/repin.py --apply. "
    + "This records acceptance of the new content, not an independent re-review of it."

  predicate EndsWith(s: string, t: string) {
    |t| <= |s| && s[|s| - |t|..] == t
  }

  function Addition(reason: string): string {
    "Re-pinned: " + Strip(reason) + " (" + METHOD + ")"
  }

  /** `qualified_reason` */
  function QualifiedReason(existing: Field, reason: string): string {
    Qualified(if existing.Some? then Strip(existing.value) else "", Addition(reason))
  }

  function Qualified(base: string, addition: string): string {
    if EndsWith(base, addition) then base
    else if base != "" then base + ("\n\n" + addition)
    else addition
  }

  /** A re-pinned entry always ends in the qualification of the reason given, and a
      second re-pin for the same reason does not repeat it. */
  lemma ReasonIsQualifiedOnce(existing: Field, reason: string)
    ensures EndsWith(QualifiedReason(existing, reason), Addition(reason))
    ensures var q := QualifiedReason(existing, reason); QualifiedReason(Some(q), reason) == q
  {
    var base := if existing.Some? then Strip(existing.value) else "";
    if existing.Some? { StripIsStable(existing.value); }
    AdditionHasNoMargins(reason);
    QualifiedOnce(base, Addition(reason));
  }

  lemma QualifiedOnce(base: string, addition: string)
    requires Strip(base) == base && Strip(addition) == addition != ""
    ensures var q := Qualified(base, addition); EndsWith(q, addition) && Strip(q) == q
  {
    MarginsOfJoined(base, "\n\n", addition);
    AtTheEnd(base, "\n\n", addition);
    assert addition[0..] == addition;
  }

  lemma AtTheEnd(a: string, gap: string, b: string)
    ensures EndsWith(a + (gap + b), b)
  {
    assert a + (gap + b) == (a + gap) + b;
  }

  ghost predicate NoMargins(s: string) {
    s != "" ==> !IsSpace(s[0]) && !IsSpace(s[|s| - 1])
  }

  lemma NoMarginsIsStripped(s: string)
    ensures NoMargins(s) <==> Strip(s) == s
  {
    LStripFront(s);
    if NoMargins(s) { RStripKeeps(s); }
  }

  lemma AdditionHasNoMargins(reason: string)
    ensures NoMargins(Addition(reason)) && Strip(Addition(reason)) == Addition(reason) != ""
  {
    var a := Addition(reason);
    assert a[0] == 'R' && a[|a| - 1] == ')';
    NoMarginsIsStripped(a);
  }

  lemma MarginsOfJoined(a: string, gap: string, b: string)
    requires Strip(a) == a && Strip(b) == b && b != ""
    ensures a != "" ==> Strip(a + (gap + b)) == a + (gap + b)
  {
    NoMarginsIsStripped(a);
    NoMarginsIsStripped(b);
    NoMarginsIsStripped(a + (gap + b));
  }

  // ---- Check ---------------------------------------------------------------

  predicate IsSha(s: string) {
    |s| == 64 && forall c :: c in s ==> c in "0123456789abcdef"
  }

  predicate Undeclared(t: Tree, d: Document, rel: Path) {
    rel in t.blobs && rel !in Accounted(t, d)
  }

  predicate Stale(t: Tree, d: Document, rel: Path, tools: Tools) {
    && rel in d.derived && d.derived[rel].Entry? && rel in t.blobs
    && var pinned := d.derived[rel].pinned;
       pinned.None? || !IsSha(pinned.value) || tools.sha(t.blobs[rel]) != pinned.value
  }

  predicate VacantEntry(d: Document, rel: Path, tools: Tools) {
    && rel in d.derived && d.derived[rel].Entry?
    && var e := d.derived[rel];
       Vacant(e.reason, tools) || e.stamp.Malformed? || (e.stamp.Stamp? && Vacant(e.stamp.reason, tools))
  }

  predicate VacantFile(d: Document, rel: Path, tools: Tools) {
    exists k :: 0 <= k < |d.files| && d.files[k].path == rel && Vacant(d.files[k].description, tools)
  }

  predicate Untracked(t: Tree, d: Document, rel: Path) {
    rel !in t.blobs && (rel in Paths(d.files) || (rel in d.derived && d.derived[rel].Entry?))
  }

  datatype Kind = KIndex | KManifest | KUndeclared | KStale | KVacant | KMalformed | KUntracked
  datatype Finding = Finding(kind: Kind, path: Path)

  /** What is reported about a manifest that could be read. */
  ghost predicate Finds(t: Tree, d: Document, f: Finding, tools: Tools) {
    match f.kind
    case KIndex => false
    case KManifest => false
    case KUndeclared => Undeclared(t, d, f.path)
    case KStale => Stale(t, d, f.path, tools)
    case KVacant => VacantFile(d, f.path, tools) || VacantEntry(d, f.path, tools)
    case KMalformed => f.path in d.derived && d.derived[f.path].NotAnObject?
    case KUntracked => Untracked(t, d, f.path)
  }

  /** The findings, in the order of the paths given by the caller's iteration. */
  method Check(t: Tree, d: Document, tools: Tools) returns (findings: set<Finding>)
    ensures forall f :: f in findings <==> Finds(t, d, f, tools)
  {
    findings := {};
    var todo := t.blobs.Keys;
    while todo != {}
      invariant todo <= t.blobs.Keys
      invariant forall f :: f in findings <==> f.kind.KUndeclared? && f.path !in todo && Undeclared(t, d, f.path)
      decreases |todo|
    {
      var rel :| rel in todo;
      if rel !in Accounted(t, d) {
        findings := findings + {Finding(KUndeclared, rel)};
      }
      todo := todo - {rel};
    }
    var files := CheckFiles(t, d, tools);
    var derived := CheckDerived(t, d, tools);
    findings := findings + files + derived;
  }

  /** An entry that passes: it says why it is there, its stamp, if any, says why it was moved,
      and its pin is the full hash of the staged bytes. */
  ghost predicate InOrder(t: Tree, rel: Path, e: Derived, tools: Tools) {
    && e.Entry? && rel in t.blobs && !tools.vacant(e.reason)
    && (e.stamp == NoStamp || (e.stamp.Stamp? && !tools.vacant(e.stamp.reason)))
    && e.pinned == Some(tools.sha(t.blobs[rel])) && FullHash(tools.sha(t.blobs[rel]))
  }

  predicate FullHash(s: string) {
    |s| == 64 && forall k :: 0 <= k < 64 ==> '0' <= s[k] <= '9' || 'a' <= s[k] <= 'f'
  }

  lemma FullHashIff(s: string)
    ensures FullHash(s) <==> IsSha(s)
  {
    forall c: char ensures c in "0123456789abcdef" <==> '0' <= c <= '9' || 'a' <= c <= 'f' {}
    if FullHash(s) {
      forall c | c in s ensures c in "0123456789abcdef" { var k :| 0 <= k < |s| && s[k] == c; }
    }
    if IsSha(s) {
      forall k | 0 <= k < 64 ensures '0' <= s[k] <= '9' || 'a' <= s[k] <= 'f' { assert s[k] in s; }
    }
  }

  /** No finding is about path `rel`. */
  ghost predicate Quiet(t: Tree, d: Document, rel: Path, tools: Tools) {
    forall kind :: !Finds(t, d, Finding(kind, rel), tools)
  }

  /** A manifest has no findings about a path exactly when the path, if it is tracked, is
      accounted for, every description of it says something, its derived entry, if it has
      one, is in order, and it is tracked if it is declared at all. */
  lemma QuietIff(t: Tree, d: Document, rel: Path, tools: Tools)
    ensures Quiet(t, d, rel, tools)
       <==> (rel in t.blobs ==> rel in INFRASTRUCTURE || rel in t.ported || rel in d.derived || rel in Paths(d.files))
            && (forall k :: 0 <= k < |d.files| && d.files[k].path == rel ==>
                  rel in t.blobs && !tools.vacant(d.files[k].description))
            && (rel in d.derived ==> InOrder(t, rel, d.derived[rel], tools))
  {
    if rel in d.derived { DerivedIsQuietIff(t, d, rel, tools); }
    assert Quiet(t, d, rel, tools) <==>
           (&& !Undeclared(t, d, rel) && !Stale(t, d, rel, tools) && !VacantFile(d, rel, tools)
            && !VacantEntry(d, rel, tools) && !(rel in d.derived && d.derived[rel].NotAnObject?)
            && !Untracked(t, d, rel)) by {
      QuietUnfolded(t, d, rel, tools);
    }
  }

  lemma DerivedIsQuietIff(t: Tree, d: Document, rel: Path, tools: Tools)
    requires rel in d.derived
    ensures InOrder(t, rel, d.derived[rel], tools)
       <==> !Stale(t, d, rel, tools) && !VacantEntry(d, rel, tools) && d.derived[rel].Entry? && rel in t.blobs
  {
    var e := d.derived[rel];
    if e.Entry? && e.pinned.Some? { FullHashIff(e.pinned.value); }
  }

  lemma QuietUnfolded(t: Tree, d: Document, rel: Path, tools: Tools)
    ensures Quiet(t, d, rel, tools)
       <==> !Undeclared(t, d, rel) && !Stale(t, d, rel, tools) && !VacantFile(d, rel, tools)
            && !VacantEntry(d, rel, tools) && !(rel in d.derived && d.derived[rel].NotAnObject?)
            && !Untracked(t, d, rel)
  {
    if Quiet(t, d, rel, tools) {
      assert !Finds(t, d, Finding(KUndeclared, rel), tools) && !Finds(t, d, Finding(KStale, rel), tools);
      assert !Finds(t, d, Finding(KVacant, rel), tools) && !Finds(t, d, Finding(KMalformed, rel), tools);
      assert !Finds(t, d, Finding(KUntracked, rel), tools);
    }
  }

  const NOTHING := Document([], map[])

  /** `check` from the start: the paths the index has problems with, and the staged
      manifest, if it is there and says anything. */
  method CheckRoot(t: Tree, problems: set<Path>, staged: Option<Document>, tools: Tools)
    returns (findings: set<Finding>)
    ensures forall f :: f in findings <==>
              match f.kind
              case KIndex => f.path in problems
              case KManifest => staged.None? && f.path == AUTHORED
              case _ => Finds(t, if staged.Some? then staged.value else NOTHING, f, tools)
  {
    var rest;
    findings := set p | p in problems :: Finding(KIndex, p);
    if staged.None? {
      findings := findings + {Finding(KManifest, AUTHORED)};
      rest := Check(t, NOTHING, tools);
    } else {
      rest := Check(t, staged.value, tools);
    }
    findings := findings + rest;
  }

  method CheckFiles(t: Tree, d: Document, tools: Tools) returns (findings: set<Finding>)
    ensures forall f :: f in findings <==>
              || (f.kind.KVacant? && VacantFile(d, f.path, tools))
              || (f.kind.KUntracked? && f.path in Paths(d.files) && f.path !in t.blobs)
  {
    findings := {};
    for k := 0 to |d.files|
      invariant forall f :: f in findings <==>
                  exists j :: 0 <= j < k && f.path == d.files[j].path
                              && ((f.kind.KVacant? && Vacant(d.files[j].description, tools))
                                  || (f.kind.KUntracked? && f.path !in t.blobs))
    {
      var file := d.files[k];
      if Vacant(file.description, tools) {
        findings := findings + {Finding(KVacant, file.path)};
      }
      if file.path !in t.blobs {
        findings := findings + {Finding(KUntracked, file.path)};
      }
    }
  }

  method CheckDerived(t: Tree, d: Document, tools: Tools) returns (findings: set<Finding>)
    ensures forall f :: f in findings <==>
              || (f.kind.KVacant? && VacantEntry(d, f.path, tools))
              || (f.kind.KStale? && Stale(t, d, f.path, tools))
              || (f.kind.KMalformed? && f.path in d.derived && d.derived[f.path].NotAnObject?)
              || (f.kind.KUntracked? && f.path in d.derived && d.derived[f.path].Entry? && f.path !in t.blobs)
  {
    findings := {};
    var todo := d.derived.Keys;
    while todo != {}
      invariant todo <= d.derived.Keys
      invariant forall f :: f in findings <==>
                  (f.path in d.derived && f.path !in todo
                   && (|| (f.kind.KVacant? && VacantEntry(d, f.path, tools))
                       || (f.kind.KStale? && Stale(t, d, f.path, tools))
                       || (f.kind.KMalformed? && d.derived[f.path].NotAnObject?)
                       || (f.kind.KUntracked? && d.derived[f.path].Entry? && f.path !in t.blobs)))
      decreases |todo|
    {
      var rel :| rel in todo;
      todo := todo - {rel};
      if d.derived[rel].NotAnObject? {
        findings := findings + {Finding(KMalformed, rel)};
        continue;
      }
      if VacantEntry(d, rel, tools) {
        findings := findings + {Finding(KVacant, rel)};
      }
      if rel !in t.blobs {
        findings := findings + {Finding(KUntracked, rel)};
      } else if Stale(t, d, rel, tools) {
        findings := findings + {Finding(KStale, rel)};
      }
    }
  }

  // ---- Keeping the map sorted ----------------------------------------------

  /** `a < b` on strings. */
  predicate Less(a: string, b: string) {
    b != "" && (a == "" || a[0] < b[0] || (a[0] == b[0] && Less(a[1..], b[1..])))
  }

  lemma {:induction false} LessIsTotal(a: string, b: string)
    ensures a == b || Less(a, b) || Less(b, a)
    ensures !(Less(a, b) && Less(b, a)) && !Less(a, a)
  {
    if a != "" && b != "" && a[0] == b[0] {
      LessIsTotal(a[1..], b[1..]);
      assert a == [a[0]] + a[1..] && b == [b[0]] + b[1..];
    }
    if a == "" {
    } else {
      LessIsTotal(a[1..], a[1..]);
    }
  }

  lemma {:induction false} LessTrans(a: string, b: string, c: string)
    requires Less(a, b) && Less(b, c)
    ensures Less(a, c)
  {
    if a != "" && a[0] == b[0] && b[0] == c[0] { LessTrans(a[1..], b[1..], c[1..]); }
  }

  ghost predicate Sorted(files: seq<File>) {
    forall i, j :: 0 <= i < j < |files| ==> Less(files[i].path, files[j].path)
  }

  /** A key of a map occurs once. */
  ghost predicate UniqueKeys(files: seq<File>) {
    forall i, j :: 0 <= i < j < |files| ==> files[i].path != files[j].path
  }

  /** `_reinsert_sorted` for a key that is not there: in front of the first larger one. */
  method ReinsertSorted(files: seq<File>, path: Path, description: Field) returns (r: seq<File>, ghost position: nat)
    requires path !in Paths(files)
    ensures position <= |files| && r == files[..position] + [File(path, description)] + files[position..]
    ensures forall k :: 0 <= k < position ==> !Less(path, files[k].path)
    ensures position < |files| ==> Less(path, files[position].path)
    ensures Sorted(files) ==> Sorted(r)
    ensures UniqueKeys(files) ==> UniqueKeys(r)
    ensures Paths(r) == Paths(files) + {path}
  {
    var at := |files|;
    for index := 0 to |files|
      invariant at == |files|
      invariant forall k :: 0 <= k < index ==> !Less(path, files[k].path)
    {
      if Less(path, files[index].path) {
        at := index;
        break;
      }
    }
    r, position := files[..at] + [File(path, description)] + files[at..], at;
    if Sorted(files) { InsertionIsSorted(files, path, description, at); }
    InsertionKeys(files, path, description, at);
  }

  lemma InsertionKeys(files: seq<File>, path: Path, description: Field, at: nat)
    requires at <= |files| && path !in Paths(files)
    ensures var r := files[..at] + [File(path, description)] + files[at..];
            Paths(r) == Paths(files) + {path} && (UniqueKeys(files) ==> UniqueKeys(r))
  {
    var r := files[..at] + [File(path, description)] + files[at..];
    forall k | 0 <= k < |files| ensures files[k].path in Paths(r) && files[k].path != path {
      assert r[if k < at then k else k + 1] == files[k];
      assert files[k].path in Paths(files);
    }
    assert r[at].path == path;
  }

  lemma InsertionIsSorted(files: seq<File>, path: Path, description: Field, at: nat)
    requires at <= |files| && path !in Paths(files) && Sorted(files)
    requires forall k :: 0 <= k < at ==> !Less(path, files[k].path)
    requires at < |files| ==> Less(path, files[at].path)
    ensures Sorted(files[..at] + [File(path, description)] + files[at..])
  {
    forall k | 0 <= k < at ensures Less(files[k].path, path) {
      assert files[k].path in Paths(files);
      LessIsTotal(path, files[k].path);
    }
    forall k | at <= k < |files| ensures Less(path, files[k].path) {
      if k > at { LessTrans(path, files[at].path, files[k].path); }
    }
  }

  // ---- Apply ---------------------------------------------------------------

  datatype Request = Request(declare: seq<Path>, descriptions: seq<string>, repin: seq<Path>, repinAll: bool,
                             reasons: seq<string>)

  /** What one run did: the new document, the paths declared and re-pinned, and how
      many requests were refused. */
  datatype Applied = Applied(document: Document, declared: seq<Path>, repinned: map<Path, string>, refusals: nat)

  /** Whether a path may be declared with a description. */
  predicate MayDeclare(t: Tree, accounted: set<Path>, rel: Path, description: string, tools: Tools) {
    !Vacant(Some(description), tools) && (rel in t.blobs || rel in t.worktree) && rel !in accounted
  }

  /** Whether a pin may be moved, for a reason, to the staged bytes. */
  predicate MayRepin(t: Tree, d: Document, rel: Path, tools: Tools) {
    && rel in d.derived && d.derived[rel].Entry? && rel in t.blobs
    && (rel in t.worktree ==> t.worktree[rel] == t.blobs[rel])
    && d.derived[rel].pinned != Some(tools.sha(t.blobs[rel]))
  }

  function Repinned(e: Derived, sha: string, reason: string): Derived
    requires e.Entry?
  {
    Entry(Some(QualifiedReason(e.reason, reason)), Some(sha),
          Stamp(Some(Strip(reason)), if e.pinned.Some? then e.pinned.value else ""))
  }

  /** The first half: only the `files` map changes, and only by new entries. */
  ghost predicate Declares(before: seq<File>, after: seq<File>, declared: seq<Path>, t: Tree, accounted: set<Path>) {
    && Paths(after) == Paths(before) + (set rel | rel in declared)
    && (forall rel :: rel in declared ==> rel !in accounted && (rel in t.blobs || rel in t.worktree))
    && (forall f :: f in before ==> f in after)
    && (Sorted(before) ==> Sorted(after)) && (UniqueKeys(before) ==> UniqueKeys(after))
  }

  /** Declaration `k` is carried out: it may be, and no earlier one for that path was. */
  ghost predicate Wins(t: Tree, d: Document, r: Request, tools: Tools, k: nat)
    requires k < |r.declare| == |r.descriptions|
  {
    && MayDeclare(t, Accounted(t, d), r.declare[k], r.descriptions[k], tools)
    && forall j :: 0 <= j < k && r.declare[j] == r.declare[k] ==>
         !MayDeclare(t, Accounted(t, d), r.declare[j], r.descriptions[j], tools)
  }

  function NewFile(r: Request, k: nat): File
    requires k < |r.declare| == |r.descriptions|
  {
    File(r.declare[k], Some(Strip(r.descriptions[k])))
  }

  /** The first `n` declarations: each one that is carried out adds its entry, with the
      description given for it, and nothing else is added. */
  ghost predicate Described(t: Tree, d: Document, r: Request, tools: Tools, n: nat, files: seq<File>,
                            declared: seq<Path>)
    requires n <= |r.declare| == |r.descriptions|
  {
    && (forall f :: f in files <==>
          f in d.files || exists k :: 0 <= k < n && Wins(t, d, r, tools, k) && f == NewFile(r, k))
    && (forall rel :: rel in declared <==> exists k :: 0 <= k < n && Wins(t, d, r, tools, k) && r.declare[k] == rel)
  }

  /** Whether declaration `k` is carried out can be read off the paths declared so far. */
  lemma WinsMeans(t: Tree, d: Document, r: Request, tools: Tools, k: nat, files: seq<File>, declared: seq<Path>)
    requires k < |r.declare| == |r.descriptions| && Described(t, d, r, tools, k, files, declared)
    ensures Wins(t, d, r, tools, k)
       <==> MayDeclare(t, Accounted(t, d), r.declare[k], r.descriptions[k], tools) && r.declare[k] !in declared
  {
    if r.declare[k] !in declared { NoneBefore(t, d, r, tools, k, k); }
  }

  /** If one of the first `n` declarations of a path may be carried out, the first such
      one is. */
  lemma {:induction false} NoneBefore(t: Tree, d: Document, r: Request, tools: Tools, n: nat, k: nat)
    requires n <= k < |r.declare| == |r.descriptions|
    requires forall j :: 0 <= j < n && r.declare[j] == r.declare[k] ==> !Wins(t, d, r, tools, j)
    ensures forall j :: 0 <= j < n && r.declare[j] == r.declare[k] ==>
              !MayDeclare(t, Accounted(t, d), r.declare[j], r.descriptions[j], tools)
  {
    if n == 0 {
    } else {
      NoneBefore(t, d, r, tools, n - 1, k);
    }
  }

  lemma StillDescribed(t: Tree, d: Document, r: Request, tools: Tools, k: nat, files: seq<File>, declared: seq<Path>)
    requires k < |r.declare| == |r.descriptions| && Described(t, d, r, tools, k, files, declared)
             && !Wins(t, d, r, tools, k)
    ensures Described(t, d, r, tools, k + 1, files, declared)
  {
  }

  method DeclareOne(t: Tree, d: Document, r: Request, k: nat, files: seq<File>, ghost declared: seq<Path>, tools: Tools)
    returns (files': seq<File>)
    requires k < |r.declare| == |r.descriptions| && Wins(t, d, r, tools, k) && r.declare[k] !in declared
    requires Declares(d.files, files, declared, t, Accounted(t, d)) && Described(t, d, r, tools, k, files, declared)
    ensures Declares(d.files, files', declared + [r.declare[k]], t, Accounted(t, d))
    ensures Described(t, d, r, tools, k + 1, files', declared + [r.declare[k]])
    ensures |files'| == |files| + 1
  {
    ghost var position;
    var rel, text := r.declare[k], Strip(r.descriptions[k]);
    files', position := ReinsertSorted(files, rel, Some(text));
    InsertedMembers(files, File(rel, Some(text)), position);
    OneMoreDeclared(d.files, files, files', declared, rel, t, Accounted(t, d));
    OneMoreDescribed(t, d, r, tools, k, files, files', declared);
  }

  lemma OneMoreDeclared(before: seq<File>, was: seq<File>, now: seq<File>, declared: seq<Path>, rel: Path, t: Tree,
                        accounted: set<Path>)
    requires Declares(before, was, declared, t, accounted)
    requires Paths(now) == Paths(was) + {rel} && rel !in accounted && (rel in t.blobs || rel in t.worktree)
    requires forall f :: f in was ==> f in now
    requires (Sorted(was) ==> Sorted(now)) && (UniqueKeys(was) ==> UniqueKeys(now))
    ensures Declares(before, now, declared + [rel], t, accounted)
  {
    assert (set q | q in declared + [rel]) == (set q | q in declared) + {rel};
  }

  lemma OneMoreDescribed(t: Tree, d: Document, r: Request, tools: Tools, k: nat, was: seq<File>, now: seq<File>,
                         declared: seq<Path>)
    requires k < |r.declare| == |r.descriptions| && Wins(t, d, r, tools, k)
    requires Described(t, d, r, tools, k, was, declared)
    requires forall f :: f in now <==> f in was || f == NewFile(r, k)
    ensures Described(t, d, r, tools, k + 1, now, declared + [r.declare[k]])
  {
  }

  method ApplyDeclarations(t: Tree, d: Document, r: Request, tools: Tools)
    returns (files: seq<File>, declared: seq<Path>, refusals: nat)
    requires |r.declare| == |r.descriptions|
    ensures Declares(d.files, files, declared, t, Accounted(t, d))
    ensures Described(t, d, r, tools, |r.declare|, files, declared) && |files| == |d.files| + |declared|
    ensures |declared| + refusals == |r.declare| && (declared == [] ==> files == d.files)
  {
    files, declared, refusals := d.files, [], 0;
    var accounted := Accounted(t, d);
    for k := 0 to |r.declare|
      invariant Declares(d.files, files, declared, t, Accounted(t, d))
      invariant Described(t, d, r, tools, k, files, declared)
      invariant accounted == Accounted(t, d) + (set rel | rel in declared)
      invariant |declared| + refusals == k && |files| == |d.files| + |declared| && (declared == [] ==> files == d.files)
    {
      var rel := r.declare[k];
      WinsMeans(t, d, r, tools, k, files, declared);
      assert rel in accounted <==> rel in Accounted(t, d) || rel in declared;
      if !MayDeclare(t, accounted, rel, r.descriptions[k], tools) {
        StillDescribed(t, d, r, tools, k, files, declared);
        refusals := refusals + 1;
        continue;
      }
      files := DeclareOne(t, d, r, k, files, declared, tools);
      accounted := accounted + {rel};
      declared := declared + [rel];
    }
  }

  lemma InsertedMembers(files: seq<File>, f: File, at: nat)
    requires at <= |files|
    ensures forall g :: g in files[..at] + [f] + files[at..] <==> g in files || g == f
  {
    var r := files[..at] + [f] + files[at..];
    assert files == files[..at] + files[at..];
    assert r[at] == f;
  }

  /** The second half: exactly the granted pins move, each to its staged bytes, with
      the reason given for it. */
  ghost predicate Repins(t: Tree, before: Document, after: map<Path, Derived>, repinned: map<Path, string>,
                         tools: Tools) {
    && after.Keys == before.derived.Keys
    && (forall rel :: rel in repinned ==> MayRepin(t, before, rel, tools))
    && forall rel :: rel in after ==> after[rel] == PinAfter(t, before, repinned, rel, tools)
  }

  function PinAfter(t: Tree, before: Document, repinned: map<Path, string>, rel: Path, tools: Tools): Derived
    requires rel in before.derived && (rel in repinned ==> MayRepin(t, before, rel, tools))
  {
    if rel in repinned then Repinned(before.derived[rel], tools.sha(t.blobs[rel]), repinned[rel])
      else before.derived[rel]
  }

  /** A request to move a pin that is granted. */
  predicate Grants(t: Tree, d: Document, rel: Path, reason: string, tools: Tools) {
    !Vacant(Some(reason), tools) && MayRepin(t, d, rel, tools)
  }

  /** The granted ones among the first `k` requests. */
  function Granted(t: Tree, d: Document, targets: seq<Path>, reasons: seq<string>, tools: Tools,
                   k: nat): (g: map<Path, string>)
    requires k <= |targets| == |reasons|
    ensures |g| <= k && forall rel :: rel in g ==> !Vacant(Some(g[rel]), tools)
  {
    if k == 0 then map[] else
    var front := Granted(t, d, targets, reasons, tools, k - 1);
    if Grants(t, d, targets[k - 1], reasons[k - 1], tools) then front[targets[k - 1] := reasons[k - 1]] else front
  }

  /** Each granted path is re-pinned under its own reason, and no other is. */
  lemma {:induction false} GrantedMeans(t: Tree, d: Document, targets: seq<Path>, reasons: seq<string>, tools: Tools,
                                        k: nat, j: nat)
    requires j < k <= |targets| == |reasons| && forall i, i' :: 0 <= i < i' < |targets| ==> targets[i] != targets[i']
    ensures var g := Granted(t, d, targets, reasons, tools, k);
            (targets[j] in g <==> Grants(t, d, targets[j], reasons[j], tools))
              && (targets[j] in g ==> g[targets[j]] == reasons[j])
  {
    if j < k - 1 {
      GrantedMeans(t, d, targets, reasons, tools, k - 1, j);
    } else {
      NotYetGranted(t, d, targets, reasons, tools, k - 1, targets[j]);
    }
  }

  lemma {:induction false} NotYetGranted(t: Tree, d: Document, targets: seq<Path>, reasons: seq<string>, tools: Tools,
                                         k: nat, rel: Path)
    requires k <= |targets| == |reasons| && forall i :: 0 <= i < k ==> targets[i] != rel
    ensures rel !in Granted(t, d, targets, reasons, tools, k)
  {
    if k == 0 {
    } else {
      NotYetGranted(t, d, targets, reasons, tools, k - 1, rel);
    }
  }

  method RepinOne(t: Tree, d: Document, derived: map<Path, Derived>, repinned: map<Path, string>, rel: Path,
                  reason: string, tools: Tools)
    returns (derived': map<Path, Derived>, repinned': map<Path, string>)
    requires Repins(t, d, derived, repinned, tools) && rel !in repinned
    ensures Repins(t, d, derived', repinned', tools)
    ensures repinned' == if Grants(t, d, rel, reason, tools) then repinned[rel := reason] else repinned
  {
    derived', repinned' := derived, repinned;
    if Grants(t, d, rel, reason, tools) {
      OneMorePin(t, d, derived, repinned, rel, reason, tools);
      derived' := derived[rel := Repinned(derived[rel], tools.sha(t.blobs[rel]), reason)];
      repinned' := repinned[rel := reason];
    }
  }

  method ApplyRepins(t: Tree, d: Document, targets: seq<Path>, reasons: seq<string>, tools: Tools)
    returns (derived: map<Path, Derived>, repinned: map<Path, string>, refusals: nat)
    requires |targets| == |reasons| && forall i, j :: 0 <= i < j < |targets| ==> targets[i] != targets[j]
    ensures Repins(t, d, derived, repinned, tools)
    ensures repinned == Granted(t, d, targets, reasons, tools, |targets|)
    ensures |repinned| + refusals == |targets|
  {
    derived, repinned := d.derived, map[];
    for k := 0 to |targets|
      invariant Repins(t, d, derived, repinned, tools)
      invariant repinned == Granted(t, d, targets, reasons, tools, k)
    {
      NotYetGranted(t, d, targets, reasons, tools, k, targets[k]);
      derived, repinned := RepinOne(t, d, derived, repinned, targets[k], reasons[k], tools);
    }
    refusals := |targets| - |repinned|;
  }

  lemma OneMorePin(t: Tree, d: Document, derived: map<Path, Derived>, repinned: map<Path, string>, rel: Path,
                   reason: string, tools: Tools)
    requires Repins(t, d, derived, repinned, tools) && rel !in repinned && MayRepin(t, d, rel, tools)
    ensures derived[rel] == d.derived[rel]
    ensures Repins(t, d, derived[rel := Repinned(d.derived[rel], tools.sha(t.blobs[rel]), reason)],
                   repinned[rel := reason], tools)
  {
  }

  /** The pins that differ from the staged bytes. */
  ghost function StalePins(t: Tree, d: Document, tools: Tools): set<Path> {
    set rel | rel in d.derived && d.derived[rel].Entry? && rel in t.blobs
      && d.derived[rel].pinned != Some(tools.sha(t.blobs[rel]))
  }

  predicate Distinct(s: seq<Path>) {
    forall i, j :: 0 <= i < j < |s| ==> s[i] != s[j]
  }

  /** The stale pins `--repin-all` discovers. */
  method Discover(t: Tree, d: Document, tools: Tools) returns (stale: seq<Path>)
    ensures (set rel | rel in stale) == StalePins(t, d, tools) && Distinct(stale)
  {
    stale := [];
    var todo := d.derived.Keys;
    while todo != {}
      invariant todo <= d.derived.Keys
      invariant forall rel :: rel in stale <==> rel !in todo && rel in StalePins(t, d, tools)
      invariant Distinct(stale)
      decreases |todo|
    {
      var rel :| rel in todo;
      if d.derived[rel].Entry? && rel in t.blobs && d.derived[rel].pinned != Some(tools.sha(t.blobs[rel])) {
        stale := stale + [rel];
      }
      todo := todo - {rel};
    }
  }

  /** Which pins a run is asked to move: the paths named, each once; or else, when all
      are asked for, the one stale pin if there is exactly one. */
  ghost predicate Wants(t: Tree, d: Document, r: Request, tools: Tools, targets: seq<Path>) {
    if r.repin != [] && Distinct(r.repin) then targets == r.repin
    else if r.repinAll && |StalePins(t, d, tools)| == 1 then |targets| == 1 && targets[0] in StalePins(t, d, tools)
    else targets == []
  }

  /** The objections to the list of pins as a whole. */
  ghost function ListFaults(t: Tree, d: Document, r: Request, tools: Tools): nat {
    (if Distinct(r.repin) then 0 else 1)
    + if r.repinAll && ((r.repin != [] && Distinct(r.repin)) || |StalePins(t, d, tools)| > 1) then 1 else 0
  }

  method Requested(t: Tree, d: Document, r: Request, tools: Tools) returns (targets: seq<Path>, refusals: nat)
    ensures Distinct(targets) && Wants(t, d, r, tools, targets)
    ensures refusals == ListFaults(t, d, r, tools)
  {
    targets, refusals := r.repin, 0;
    if !Distinct(r.repin) {
      targets, refusals := [], 1;
    }
    if r.repinAll {
      if targets != [] {
        refusals := refusals + 1;
      } else {
        targets := Discover(t, d, tools);
        MembersCount(targets);
        if |targets| > 1 {
          targets, refusals := [], refusals + 1;
        }
      }
    }
  }

  lemma {:induction false} MembersCount(s: seq<Path>)
    requires Distinct(s)
    ensures |set rel | rel in s| == |s|
  {
    if s == [] {
    } else {
      var front, last := s[..|s| - 1], s[|s| - 1];
      MembersCount(front);
      assert (set rel | rel in s) == (set rel | rel in front) + {last};
    }
  }

  /** Exactly the admissible declarations and re-pins are carried out, and every other
      request is counted as refused. */
  ghost predicate Carries(t: Tree, d: Document, r: Request, tools: Tools, a: Applied, targets: seq<Path>)
    requires |r.declare| == |r.descriptions|
  {
    && Follows(t, d, a, tools)
    && Described(t, d, r, tools, |r.declare|, a.document.files, a.declared)
    && Wants(t, d, r, tools, targets) && Distinct(targets)
    && a.repinned == Carried(t, d, r, tools, targets)
    && a.refusals == |r.declare| - |a.declared| + ListFaults(t, d, r, tools) + Refused(r, targets, |a.repinned|)
    && (a.declared == [] && a.repinned == map[] ==> a.document == d)
  }

  /** The part of `apply` behind the reading of its inputs. */
  method Apply(t: Tree, d: Document, r: Request, tools: Tools) returns (a: Applied, ghost targets: seq<Path>)
    requires |r.declare| == |r.descriptions|
    ensures Carries(t, d, r, tools, a, targets)
  {
    var files, declared, refusals := ApplyDeclarations(t, d, r, tools);
    var requested, faults := Requested(t, d, r, tools);
    targets := requested;
    var derived, repinned, refused := MovePins(t, d, r, requested, tools);
    a := Applied(Document(files, derived), declared, repinned, refusals + faults + refused);
  }

  /** The pins asked for, if every one has its own reason. */
  method MovePins(t: Tree, d: Document, r: Request, targets: seq<Path>, tools: Tools)
    returns (derived: map<Path, Derived>, repinned: map<Path, string>, refused: nat)
    requires Distinct(targets)
    ensures Repins(t, d, derived, repinned, tools)
    ensures repinned == Carried(t, d, r, tools, targets) && refused == Refused(r, targets, |repinned|)
    ensures repinned == map[] ==> derived == d.derived
  {
    derived, repinned, refused := d.derived, map[], 0;
    if |r.reasons| != |targets| {
      refused := if targets != [] then 1 else 0;
    } else {
      derived, repinned, refused := ApplyRepins(t, d, targets, r.reasons, tools);
    }
  }

  /** What `apply` comes to: refusals alone, or a new manifest. */
  datatype Outcome = Refuses(count: nat) | Done(applied: Applied)

  /** `apply` from the start: the number of problems with the index, and the manifest of
      the worktree, if it can be read and has both maps. */
  method ApplyRoot(t: Tree, problems: nat, authored: Option<Document>, r: Request, tools: Tools)
    returns (o: Outcome, ghost targets: seq<Path>)
    ensures o.Refuses? <==> |r.declare| != |r.descriptions| || problems > 0 || authored.None?
    ensures o.Refuses? ==> o.count == if |r.declare| == |r.descriptions| && problems > 0 then problems else 1
    ensures o.Done? ==> Carries(t, authored.value, r, tools, o.applied, targets)
  {
    targets := [];
    if |r.declare| != |r.descriptions| {
      o := Refuses(1);
      return;
    }
    if problems > 0 {
      o := Refuses(problems);
      return;
    }
    if authored.None? {
      o := Refuses(1);
      return;
    }
    var a;
    a, targets := Apply(t, authored.value, r, tools);
    o := Done(a);
  }

  /** The pins that move: none unless every one has its own reason. */
  function Carried(t: Tree, d: Document, r: Request, tools: Tools, targets: seq<Path>): map<Path, string> {
    if |r.reasons| == |targets| then Granted(t, d, targets, r.reasons, tools, |targets|) else map[]
  }

  function Refused(r: Request, targets: seq<Path>, moved: nat): int {
    if |r.reasons| == |targets| then |targets| - moved else if targets != [] then 1 else 0
  }

  /** Every request is carried out or counted: declarations one by one; a list that names a
      pin twice, or asks for all pins beside a list or where several are stale, once; and the
      pins one by one, unless their reasons do not pair up with them, which counts once. */
  lemma EveryRequestIsCounted(t: Tree, d: Document, r: Request, tools: Tools, a: Applied, targets: seq<Path>)
    requires |r.declare| == |r.descriptions| && Carries(t, d, r, tools, a, targets)
    ensures var twice := exists i, j :: 0 <= i < j < |r.repin| && r.repin[i] == r.repin[j];
            a.refusals == (|r.declare| - |a.declared|)
                          + (if twice then 1 else 0)
                          + (if r.repinAll && ((r.repin != [] && !twice) || |StalePins(t, d, tools)| > 1) then 1 else 0)
                          + (if |r.reasons| == |targets| then |targets| - |a.repinned|
                             else if targets == [] then 0 else 1)
    ensures |r.reasons| != |targets| ==> a.repinned == map[]
  {
  }

  // ---- Apply and check fit -------------------------------------------------

  /** What `apply` guarantees of the document it writes. */
  ghost predicate Follows(t: Tree, d: Document, a: Applied, tools: Tools) {
    Declares(d.files, a.document.files, a.declared, t, Accounted(t, d))
      && Repins(t, d, a.document.derived, a.repinned, tools)
  }

  /** The tree after the new document has been staged, and nothing else. */
  function Staged(t: Tree, bytes: Bytes): Tree {
    t.(blobs := t.blobs[AUTHORED := bytes])
  }

  /** Declared and re-pinned paths are settled, and no other path gets worse: nothing
      is undeclared that was not, a pin is stale only if it was, and the three ways of
      accounting for a file stay disjoint. */
  lemma ApplySatisfiesCheck(t: Tree, d: Document, a: Applied, bytes: Bytes, tools: Tools, rel: Path)
    requires Follows(t, d, a, tools) && forall b :: IsSha(tools.sha(b))
    ensures var t' := Staged(t, bytes);
            && (rel in a.declared ==> !Undeclared(t', a.document, rel))
            && (Undeclared(t', a.document, rel) ==> Undeclared(t, d, rel))
            && (rel != AUTHORED ==>
                  (Stale(t', a.document, rel, tools) <==> Stale(t, d, rel, tools) && rel !in a.repinned))
  {
    var t' := Staged(t, bytes);
    assert AUTHORED in INFRASTRUCTURE;
    assert Accounted(t, d) <= Accounted(t', a.document);
  }

  /** How a manifest is read from a file and written to it. */
  datatype Format = Format(read: Bytes -> Option<Document>, write: Document -> Bytes)

  ghost predicate ReadsBack(f: Format) {
    forall d :: f.read(f.write(d)) == Some(d)
  }

  /** The manifest in the worktree is the one that was edited. */
  ghost predicate Edits(t: Tree, d: Document, f: Format) {
    AUTHORED in t.worktree && f.read(t.worktree[AUTHORED]) == Some(d)
  }

  /** Two contents the hash tells apart, if they are different. */
  predicate ToldApart(sha: Bytes -> string, a: Bytes, b: Bytes) {
    sha(a) == sha(b) ==> a == b
  }

  /** Writing a re-pinned manifest changes its bytes. */
  lemma RepinChangesManifest(t: Tree, d: Document, a: Applied, f: Format, tools: Tools)
    requires Follows(t, d, a, tools) && ReadsBack(f) && Edits(t, d, f) && AUTHORED in a.repinned
    ensures f.write(a.document) != t.blobs[AUTHORED]
  {
    assert a.document.derived[AUTHORED].pinned == Some(tools.sha(t.blobs[AUTHORED]));
    assert a.document != d;
  }

  /** Re-pinning the manifest's own path never settles it: the pin is taken from the
      bytes before the edit, and the edit changes them.  Every other path is settled. */
  lemma RepinSettlesIff(t: Tree, d: Document, a: Applied, f: Format, tools: Tools, rel: Path)
    requires Follows(t, d, a, tools) && ReadsBack(f) && Edits(t, d, f) && rel in a.repinned
    requires forall b :: IsSha(tools.sha(b))
    requires AUTHORED in t.blobs ==> ToldApart(tools.sha, f.write(a.document), t.blobs[AUTHORED])
    ensures !Stale(Staged(t, f.write(a.document)), a.document, rel, tools) <==> rel != AUTHORED
  {
    if rel == AUTHORED {
      RepinChangesManifest(t, d, a, f, tools);
    } else {
      ApplySatisfiesCheck(t, d, a, f.write(a.document), tools, rel);
    }
  }

  /** Any change of the manifest makes a pin of its own stale that was fresh before. */
  lemma OwnPinAfterChange(t: Tree, d: Document, a: Applied, f: Format, tools: Tools)
    requires Follows(t, d, a, tools) && ReadsBack(f) && Edits(t, d, f) && a.document != d
    requires AUTHORED in t.blobs && t.worktree[AUTHORED] == t.blobs[AUTHORED]
    requires ToldApart(tools.sha, f.write(a.document), t.blobs[AUTHORED])
    requires AUTHORED in d.derived && d.derived[AUTHORED].Entry? && !Stale(t, d, AUTHORED, tools)
    ensures Stale(Staged(t, f.write(a.document)), a.document, AUTHORED, tools)
  {
    assert f.write(a.document) != t.blobs[AUTHORED];
    assert AUTHORED !in a.repinned;
  }

  /** What a change of the manifest leaves stale, path by path: its own pin, unless that
      names the new bytes by chance, and of the others those that were stale and did not move. */
  lemma StaleAfterChangeIff(t: Tree, d: Document, a: Applied, f: Format, tools: Tools, rel: Path)
    requires Follows(t, d, a, tools) && ReadsBack(f) && Edits(t, d, f) && a.document != d
    requires AUTHORED in t.blobs && t.worktree[AUTHORED] == t.blobs[AUTHORED]
    requires ToldApart(tools.sha, f.write(a.document), t.blobs[AUTHORED]) && forall b :: IsSha(tools.sha(b))
    ensures Stale(Staged(t, f.write(a.document)), a.document, rel, tools)
       <==> if rel == AUTHORED then
              && rel in d.derived && d.derived[rel].Entry?
              && (rel !in a.repinned ==> d.derived[rel].pinned != Some(tools.sha(f.write(a.document))))
            else Stale(t, d, rel, tools) && rel !in a.repinned
  {
    ApplySatisfiesCheck(t, d, a, f.write(a.document), tools, rel);
    assert f.write(a.document) != t.blobs[AUTHORED];
  }

  /** A manifest whose only entry is its own: a re-pin of it is carried out, and the pin
      is stale as soon as the result is staged. */
  lemma SelfPinExample(f: Format, tools: Tools, reason: string)
    requires ReadsBack(f) && forall b :: IsSha(tools.sha(b))
    ensures var d := Document([], map[AUTHORED := Entry(None, None, NoStamp)]);
            var t := Tree(map[AUTHORED := f.write(d)], map[AUTHORED := f.write(d)], {});
            var e := Repinned(d.derived[AUTHORED], tools.sha(f.write(d)), reason);
            var a := Applied(Document([], map[AUTHORED := e]), [], map[AUTHORED := reason], 0);
            && Follows(t, d, a, tools)
            && (ToldApart(tools.sha, f.write(a.document), f.write(d)) ==>
                  Stale(Staged(t, f.write(a.document)), a.document, AUTHORED, tools))
  {
    var d := Document([], map[AUTHORED := Entry(None, None, NoStamp)]);
    var t := Tree(map[AUTHORED := f.write(d)], map[AUTHORED := f.write(d)], {});
    var e := Repinned(d.derived[AUTHORED], tools.sha(f.write(d)), reason);
    var a := Applied(Document([], map[AUTHORED := e]), [], map[AUTHORED := reason], 0);
    assert Follows(t, d, a, tools);
    RepinChangesManifest(t, d, a, f, tools);
  }

  /** An entry the tool adds says something about its file. */
  lemma NewEntriesSaySomething(t: Tree, d: Document, r: Request, tools: Tools, files: seq<File>, declared: seq<Path>,
                               f: File)
    requires IgnoresMargins(tools) && |r.declare| == |r.descriptions|
    requires Described(t, d, r, tools, |r.declare|, files, declared) && f in files && f !in d.files
    ensures f.path in declared && f.description.Some? && !Vacant(f.description, tools)
    ensures exists k :: 0 <= k < |r.declare| && f == File(r.declare[k], Some(Strip(r.descriptions[k])))
  {
  }

  ghost predicate Disjoint(t: Tree, d: Document) {
    Paths(d.files) !! d.derived.Keys && Paths(d.files) !! t.ported && d.derived.Keys !! t.ported
  }

  lemma ApplyKeepsDisjoint(t: Tree, d: Document, a: Applied, tools: Tools)
    requires Follows(t, d, a, tools) && Disjoint(t, d)
    ensures Disjoint(t, a.document)
    ensures Sorted(d.files) ==> Sorted(a.document.files)
  {
  }

  /** A re-pinned entry, field by field: the pin is the hash of the staged bytes, the stamp
      records the reason given and the pin there was, and the reason keeps what it said
      and goes on, or ended already, with the qualification. */
  lemma RepinnedIsStamped(t: Tree, d: Document, a: Applied, tools: Tools, rel: Path)
    requires Follows(t, d, a, tools) && rel in a.repinned
    ensures var was, e, reason := d.derived[rel], a.document.derived[rel], a.repinned[rel];
            && was.Entry? && e.Entry? && rel in t.blobs
            && e.pinned == Some(tools.sha(t.blobs[rel]))
            && e.stamp == Stamp(Some(Strip(reason)), if was.pinned.Some? then was.pinned.value else "")
            && (IgnoresMargins(tools) && !Vacant(Some(reason), tools) ==> !Vacant(e.stamp.reason, tools))
    ensures var was, e, reason := d.derived[rel], a.document.derived[rel], a.repinned[rel];
            && e.reason.Some? && EndsWith(e.reason.value, Addition(reason))
            && Contains(e.reason.value, Strip(reason))
            && (was.reason.Some? ==> Strip(was.reason.value) <= e.reason.value)
            && |e.reason.value| <= |Addition(reason)| + if was.reason.Some? then |Strip(was.reason.value)| + 2 else 0
  {
    QualifiedReasonSays(d.derived[rel].reason, a.repinned[rel]);
  }

  /** A qualified reason begins with what the old one said, ends in the qualification, and
      holds nothing else but a gap. */
  lemma QualifiedReasonSays(existing: Field, reason: string)
    ensures var q := QualifiedReason(existing, reason);
            && EndsWith(q, Addition(reason)) && Contains(q, Strip(reason))
            && (existing.Some? ==> Strip(existing.value) <= q)
            && |q| <= |Addition(reason)| + if existing.Some? then |Strip(existing.value)| + 2 else 0
  {
    var q := QualifiedReason(existing, reason);
    ReasonIsQualifiedOnce(existing, reason);
    AdditionSaysReason(reason);
    QualifiedKeeps(if existing.Some? then Strip(existing.value) else "", Addition(reason));
    EndIsContained(q, Addition(reason), Strip(reason));
  }

  lemma EndIsContained(q: string, end: string, w: string)
    requires EndsWith(q, end) && Contains(end, w)
    ensures Contains(q, w)
  {
    assert OccursAt(q, end, |q| - |end|);
    ContainsTrans(q, end, w);
  }

  lemma AdditionSaysReason(reason: string)
    ensures Contains(Addition(reason), Strip(reason))
  {
    ContainedInChain("Re-pinned: ", Strip(reason), " (", METHOD, ")");
  }

  lemma ContainedInChain(a: string, w: string, b: string, c: string, d: string)
    ensures Contains(a + w + b + c + d, w)
  {
    assert OccursAt(a + w + b + c + d, w, |a|);
  }

  lemma QualifiedKeeps(base: string, addition: string)
    ensures var q := Qualified(base, addition); base <= q && |q| <= |base| + |addition| + (if base == "" then 0 else 2)
  {
  }

  /** Every other entry stays as it was, and no path comes or goes. */
  lemma OthersAreUntouched(t: Tree, d: Document, a: Applied, tools: Tools)
    requires Follows(t, d, a, tools)
    ensures a.document.derived.Keys == d.derived.Keys
    ensures forall rel :: rel in d.derived && rel !in a.repinned ==> a.document.derived[rel] == d.derived[rel]
  {
  }
}
