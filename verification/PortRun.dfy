/** `load_manifest` and `run`: from a working manifest to a published tree. */
module PortRun {
  import opened Text
  import opened FileTree
  import opened Placing
  import opened Layout
  import opened Publish
  import Edits

  // ---- Manifest paths ------------------------------------------------------

  function Cut(s: string, i: nat): (n: nat)
    requires i <= |s|
    ensures i <= n <= |s| && (n < |s| ==> s[n] == '/') && forall k :: i <= k < n ==> s[k] != '/'
    decreases |s| - i
  {
    if i == |s| || s[i] == '/' then i else Cut(s, i + 1)
  }

  /** The stretches between the slashes. */
  function Components(s: string): (ps: Path)
    ensures ps != []
    decreases |s|
  {
    var n := Cut(s, 0);
    if n == |s| then [s] else [s[..n]] + Components(s[n + 1..])
  }

  /** The path a manifest entry names; a single dot is the root. */
  function Parts(s: string): Path {
    if s == "." then [] else Components(s)
  }

  function Posix(p: Path): string {
    if p == [] then "." else if |p| == 1 then p[0] else p[0] + ("/" + Posix(p[1..]))
  }

  lemma {:induction false} ComponentsAreFaithful(s: string)
    ensures Posix(Components(s)) == s
    decreases |s|
  {
    var n := Cut(s, 0);
    if n >= |s| {
    } else {
      ComponentsAreFaithful(s[n + 1..]);
      assert s == s[..n] + ("/" + s[n + 1..]);
    }
  }

  lemma PartsAreFaithful(s: string)
    ensures Posix(Parts(s)) == s
  {
    ComponentsAreFaithful(s);
  }

  /** `_safe_manifest_path`: nonempty, relative, normalised, literal. */
  predicate SafePath(s: string) {
    && s != ""
    && (forall c :: c in s ==> c !in "\\\0*?[")
    && (s == "." || forall part :: part in Components(s) ==> part != "" && part != "." && part != "..")
  }

  /** What may stand between two slashes. */
  ghost predicate ProperPart(part: string) {
    && part != "" && part != "." && part != ".."
    && forall c :: c in part ==> c != '/' && c != '\\' && c != '\0' && c != '*' && c != '?' && c != '['
  }

  ghost predicate WritesParts(s: string) {
    exists ps: Path :: (forall part :: part in ps ==> ProperPart(part)) && s == Posix(ps)
  }

  /** The safe paths are the written forms of lists of proper parts. */
  lemma SafePathIff(s: string)
    ensures SafePath(s) <==> WritesParts(s)
  {
    PartsAreFaithful(s);
    if SafePath(s) && s != "." {
      ComponentChars(s);
      assert forall part :: part in Parts(s) ==> ProperPart(part);
    }
    if ps: Path :| (forall part :: part in ps ==> ProperPart(part)) && s == Posix(ps) {
      PosixChars(ps);
      if ps != [] { ComponentsOfPosix(ps); }
    }
  }

  lemma {:induction false} ComponentChars(s: string)
    ensures forall part, c :: part in Components(s) && c in part ==> c in s && c != '/'
    decreases |s|
  {
    var n := Cut(s, 0);
    if n >= |s| {
    } else {
      ComponentChars(s[n + 1..]);
      assert forall c :: c in s[n + 1..] ==> c in s;
      assert forall c :: c in s[..n] ==> c in s;
    }
  }

  lemma {:induction false} PosixChars(ps: Path)
    requires forall part :: part in ps ==> ProperPart(part)
    ensures Posix(ps) != "" && forall c :: c in Posix(ps) ==> c !in "\\\0*?["
  {
    if |ps| <= 1 {
      if ps != [] { assert ps[0] in ps; }
    } else {
      assert ps[0] in ps;
      PosixChars(ps[1..]);
    }
  }

  lemma {:induction false} ComponentsOfPosix(ps: Path)
    requires ps != [] && forall part :: part in ps ==> ProperPart(part)
    ensures Components(Posix(ps)) == ps
  {
    assert ps[0] in ps;
    if |ps| <= 1 {
      LastComponent(ps[0]);
    } else {
      ComponentsOfPosix(ps[1..]);
      NextComponent(ps[0], Posix(ps[1..]));
      assert ps == [ps[0]] + ps[1..];
    }
  }

  lemma LastComponent(part: string)
    requires ProperPart(part)
    ensures Components(part) == [part]
  {
    forall k | 0 <= k < |part| ensures part[k] != '/' { assert part[k] in part; }
    CutIs(part, |part|);
  }

  lemma NextComponent(part: string, rest: string)
    requires ProperPart(part)
    ensures Components(part + ("/" + rest)) == [part] + Components(rest)
  {
    var s, n := part + ("/" + rest), |part|;
    forall k | 0 <= k < n ensures s[k] != '/' { assert s[k] == part[k] && part[k] in part; }
    CutIs(s, n);
    assert s[..n] == part && s[n + 1..] == rest;
  }

  lemma CutIs(s: string, n: nat)
    requires n <= |s| && (n < |s| ==> s[n] == '/') && forall k :: 0 <= k < n ==> s[k] != '/'
    ensures Cut(s, 0) == n
  {
  }

  const MANIFEST := "tools/extract/manifest.json"
  const RECEIPT := "tools/extract/port_receipt.json"

  /** The edits are untyped in the file, so one may be no object at all. */
  datatype Entry = Entry(source: string, dest: string, edits: seq<Option<Edits.Edit>>)

  predicate EditsFit(edits: seq<Option<Edits.Edit>>) {
    forall i :: 0 <= i < |edits| ==>
      edits[i].Some? && Edits.ValidFind(edits[i].value) && Edits.Expected(edits[i].value).Some?
  }

  predicate EntryFits(e: Entry) {
    SafePath(e.source) && SafePath(e.dest) && e.dest != MANIFEST && e.dest != RECEIPT && EditsFit(e.edits)
  }

  /** What `load_manifest` accepts. */
  ghost predicate Loadable(entries: seq<Entry>) {
    && (forall k :: 0 <= k < |entries| ==> EntryFits(entries[k]))
    && forall i, j :: 0 <= i < j < |entries| ==> entries[i].dest != entries[j].dest
  }

  method LoadManifest(entries: seq<Entry>) returns (ok: bool)
    ensures ok <==> Loadable(entries)
  {
    var destinations: set<string> := {};
    for k := 0 to |entries|
      invariant destinations == set j | 0 <= j < k :: entries[j].dest
      invariant Loadable(entries[..k])
    {
      ok := LoadEntry(entries[k], destinations);
      if !ok {
        return;
      }
      destinations := destinations + {entries[k].dest};
    }
    assert entries[..|entries|] == entries;
    return true;
  }

  method LoadEntry(entry: Entry, destinations: set<string>) returns (ok: bool)
    ensures ok <==> EntryFits(entry) && entry.dest !in destinations
  {
    if !SafePath(entry.source) || !SafePath(entry.dest) || entry.dest == MANIFEST || entry.dest == RECEIPT {
      return false;
    }
    if entry.dest in destinations {
      return false;
    }
    ok := CheckEdits(entry.edits);
  }

  method CheckEdits(edits: seq<Option<Edits.Edit>>) returns (ok: bool)
    ensures ok <==> EditsFit(edits)
  {
    for k := 0 to |edits|
      invariant EditsFit(edits[..k])
    {
      if edits[k].None? || !Edits.ValidFind(edits[k].value) || Edits.Expected(edits[k].value).None? {
        return false;
      }
    }
    assert edits[..|edits|] == edits;
    return true;
  }

  function Declared(e: Entry): seq<Edits.Edit>
    requires EditsFit(e.edits)
  {
    seq(|e.edits|, i requires 0 <= i < |e.edits| => e.edits[i].value)
  }

  /** What a loaded manifest declares can only miss or match too often: no pass over any
      text reports one of its edits as malformed. */
  lemma LoadedEditsAreWellFormed(entries: seq<Entry>, k: nat, i: nat, fault: Edits.Fault,
                                 source: string, strip: string -> string)
    requires Loadable(entries) && k < |entries| && i < |entries[k].edits|
    requires var edits := Declared(entries[k]);
             Edits.Problem(i, fault) in Edits.First(source, edits).problems
               + Edits.Second(source, edits, strip).problems
    ensures fault == Edits.Missed || fault.Mismatch?
  {
    var edits := Declared(entries[k]);
    Edits.EveryEditHasOneFate(source, edits, strip, i);
  }

  // ---- The run -------------------------------------------------------------

  datatype Ported = Text(text: string, violations: nat) | Broken

  /** The source snapshot and the transformation of one file. */
  datatype Port = Port(blob: string -> Option<string>, transform: (Entry, string) -> Ported,
                       manifest: seq<Entry> -> string, receipt: seq<Entry> -> string)

  ghost predicate Clean(port: Port, e: Entry) {
    port.blob(e.source).Some?
    && var p := port.transform(e, port.blob(e.source).value); p.Text? && p.violations == 0
  }

  ghost predicate AllClean(port: Port, entries: seq<Entry>) {
    forall k :: 0 <= k < |entries| ==> Clean(port, entries[k])
  }

  /** The published text of a clean entry. */
  ghost function TextOf(port: Port, e: Entry): string {
    if Clean(port, e) then port.transform(e, port.blob(e.source).value).text else ""
  }

  ghost function Texts(port: Port, entries: seq<Entry>): (bs: seq<Bytes>)
    ensures |bs| == |entries| && forall k :: 0 <= k < |bs| ==> bs[k] == TextOf(port, entries[k])
  {
    seq(|entries|, k requires 0 <= k < |entries| => TextOf(port, entries[k]))
  }

  /** The staging area once everything has been transformed and rendered. */
  ghost function FullStage(port: Port, entries: seq<Entry>): map<Path, Node> {
    Lay(Rels(entries), Texts(port, entries) + [port.manifest(entries)] + [port.receipt(entries)])
  }

  function Dests(entries: seq<Entry>): (ps: seq<Path>)
    ensures |ps| == |entries| && forall k :: 0 <= k < |ps| ==> ps[k] == Parts(entries[k].dest)
  {
    seq(|entries|, k requires 0 <= k < |entries| => Parts(entries[k].dest))
  }

  function Rels(entries: seq<Entry>): seq<Path> {
    Dests(entries) + [Parts(MANIFEST)] + [Parts(RECEIPT)]
  }

  lemma PartsDiffer(a: string, b: string)
    requires a != b
    ensures Parts(a) != Parts(b)
  {
    PartsAreFaithful(a);
    PartsAreFaithful(b);
  }

  lemma DestsAreUnique(entries: seq<Entry>)
    requires forall i, j :: 0 <= i < j < |entries| ==> entries[i].dest != entries[j].dest
    ensures Unique(Dests(entries))
  {
    forall i, j | 0 <= i < j < |entries| ensures Dests(entries)[i] != Dests(entries)[j] {
      PartsDiffer(entries[i].dest, entries[j].dest);
    }
  }

  lemma DestsAvoid(entries: seq<Entry>, name: string)
    requires forall k :: 0 <= k < |entries| ==> entries[k].dest != name
    ensures forall k :: 0 <= k < |entries| ==> Dests(entries)[k] != Parts(name)
  {
    forall k | 0 <= k < |entries| ensures Dests(entries)[k] != Parts(name) { PartsDiffer(entries[k].dest, name); }
  }

  lemma WithTwoMore(entries: seq<Entry>, a: string, b: string)
    requires Unique(Dests(entries)) && a != b
    requires forall k :: 0 <= k < |entries| ==> entries[k].dest != a && entries[k].dest != b
    ensures var ps := Dests(entries) + [Parts(a)] + [Parts(b)];
            Unique(ps)
  {
    DestsAvoid(entries, a);
    DestsAvoid(entries, b);
    PartsDiffer(a, b);
    UniqueSnoc(Dests(entries), Parts(a));
    UniqueSnoc(Dests(entries) + [Parts(a)], Parts(b));
  }

  lemma RelsAreUnique(entries: seq<Entry>)
    requires Loadable(entries)
    ensures Unique(Rels(entries)) && Unique(Dests(entries))
    ensures (forall k :: 0 <= k < |entries| ==> Parts(entries[k].dest) != []) ==>
              Proper(Rels(entries)) && Proper(Dests(entries))
  {
    DestsAreUnique(entries);
    WithTwoMore(entries, MANIFEST, RECEIPT);
  }

  lemma UniqueSnoc(ps: seq<Path>, p: Path)
    requires Unique(ps) && forall k :: 0 <= k < |ps| ==> ps[k] != p
    ensures Unique(ps + [p])
  {
  }

  /** What `run` checks before it transforms anything. */
  predicate EntryPasses(nodes: map<Path, Node>, e: Entry, derived: set<string>, port: Port) {
    e.dest !in derived && port.blob(e.source).Some? && Joinable(nodes, Parts(e.dest))
  }

  ghost predicate Admissible(nodes: map<Path, Node>, entries: seq<Entry>, derived: set<string>, port: Port) {
    Loadable(entries) && AllPass(nodes, entries, derived, port, |entries|)
  }

  ghost predicate AllPass(nodes: map<Path, Node>, entries: seq<Entry>, derived: set<string>, port: Port, n: nat)
    requires n <= |entries|
  {
    forall k :: 0 <= k < n ==> EntryPasses(nodes, entries[k], derived, port)
  }

  ghost predicate WellFormedEdit(e: Edits.Edit) {
    e.find.Literal? && e.find.s != "" && !e.count.NotNumber? && (e.count.Number? ==> e.count.n > 0)
  }

  /** One entry, read off its fields: two safe paths, the destination neither of the two
      files the run writes itself nor a derived one, edits that name a text and a positive
      number, a source that is there, and no link and nothing but a file at its place. */
  ghost predicate Fitting(nodes: map<Path, Node>, e: Entry, derived: set<string>, port: Port) {
    && WritesParts(e.source) && WritesParts(e.dest)
    && e.dest != "tools/extract/manifest.json" && e.dest != "tools/extract/port_receipt.json" && e.dest !in derived
    && (forall i :: 0 <= i < |e.edits| ==> e.edits[i].Some? && WellFormedEdit(e.edits[i].value))
    && port.blob(e.source).Some?
    && (forall q :: q in nodes && q != [] && q <= Parts(e.dest) ==> nodes[q] != Link)
    && (Parts(e.dest) in nodes ==> nodes[Parts(e.dest)].File?)
  }

  /** Exactly such entries, with different destinations, get past the checks. */
  lemma AdmissibleIff(nodes: map<Path, Node>, entries: seq<Entry>, derived: set<string>, port: Port)
    ensures Admissible(nodes, entries, derived, port)
       <==> (forall k :: 0 <= k < |entries| ==> Fitting(nodes, entries[k], derived, port))
            && forall i, j :: 0 <= i < j < |entries| ==> entries[i].dest != entries[j].dest
  {
    forall k | 0 <= k < |entries|
      ensures EntryFits(entries[k]) && EntryPasses(nodes, entries[k], derived, port)
         <==> Fitting(nodes, entries[k], derived, port)
    {
      FittingIff(nodes, entries[k], derived, port);
    }
  }

  lemma FittingIff(nodes: map<Path, Node>, e: Entry, derived: set<string>, port: Port)
    ensures EntryFits(e) && EntryPasses(nodes, e, derived, port) <==> Fitting(nodes, e, derived, port)
  {
    SafePathIff(e.source);
    SafePathIff(e.dest);
    forall i | 0 <= i < |e.edits| && e.edits[i].Some?
      ensures Edits.ValidFind(e.edits[i].value) && Edits.Expected(e.edits[i].value).Some?
         <==> WellFormedEdit(e.edits[i].value)
    {}
    LinkFreeIff(nodes, Parts(e.dest));
    assert EditsFit(e.edits) <==>
           (forall i :: 0 <= i < |e.edits| ==> e.edits[i].Some? && WellFormedEdit(e.edits[i].value));
    assert Joinable(nodes, Parts(e.dest)) <==>
           (forall q :: q in nodes && q != [] && q <= Parts(e.dest) ==> nodes[q] != Link)
           && (Parts(e.dest) in nodes ==> nodes[Parts(e.dest)].File?);
  }

  lemma LinkFreeIff(nodes: map<Path, Node>, p: Path)
    ensures LinkFree(nodes, p) <==> forall q :: q in nodes && q != [] && q <= p ==> nodes[q] != Link
  {
    forall q | q != [] && q <= p ensures p[..|q|] == q {}
    forall k | 0 < k <= |p| ensures p[..k] != [] && p[..k] <= p {}
  }

  /** What the run is going to publish, and onto what. */
  ghost function Prepared(nodes: map<Path, Node>, port: Port, entries: seq<Entry>): Volume {
    Volume(nodes, FullStage(port, entries))
  }

  /** The entries are clean and can be staged. */
  ghost predicate Stageable(port: Port, entries: seq<Entry>) {
    AllClean(port, entries) && Nestless(Dests(entries))
  }

  /** Faults aside, the publication can be carried out. */
  ghost predicate Publishable(nodes: map<Path, Node>, port: Port, entries: seq<Entry>)
    requires Proper(Rels(entries))
  {
    Nestless(Rels(entries)) && Possible(Prepared(nodes, port, entries), Rels(entries))
  }

  ghost predicate Succeeds(nodes: map<Path, Node>, port: Port, entries: seq<Entry>, dryRun: bool)
    requires Proper(Rels(entries))
  {
    Stageable(port, entries) && (dryRun || Publishable(nodes, port, entries))
  }

  /** How far a run got: it never published anything, or the transaction ended, having
      failed at destination `at` unless all were placed. */
  datatype Reach = Checks | Transaction(outcome: Outcome, at: nat)

  /** What a run does to the tree: nothing, unless it got to publishing; and then, if a
      destination failed, whether what came before was taken back is decided by the
      backups of the destinations before it. */
  ghost predicate Ends(before: map<Path, Node>, after: map<Path, Node>, port: Port, entries: seq<Entry>, dryRun: bool,
                       code: int, reach: Reach)
    requires Proper(Rels(entries))
  {
    var v, rels := Prepared(before, port, entries), Rels(entries);
    && (code == 0 ==> Stageable(port, entries) && (dryRun <==> reach.Checks?))
    && match reach
       case Checks => after == before
       case Transaction(outcome, at) =>
         && !dryRun && Stageable(port, entries) && Nestless(rels)
         && (code == 0 <==> outcome == Published)
         && (outcome == Published ==> Publishable(before, port, entries) && after == PlaceAll(v, rels).nodes)
         && (outcome != Published ==> at < |rels| && (outcome == RolledBack <==> BackupsHold(v, rels[..at])))
         && (outcome == RolledBack ==> after == before)
  }

  ghost predicate OutsideBackups(entries: seq<Entry>) {
    forall k :: 0 <= k < |entries| ==> !(BACKUPS <= Parts(entries[k].dest))
  }

  /** The exit code of the tool: 0 means published, or clean in a dry run. */
  method Run(disk: Disk, entries: seq<Entry>, derived: set<string>, port: Port, dryRun: bool)
    returns (code: int, ghost reach: Reach)
    requires disk.Valid()
    modifies disk
    ensures disk.Valid() && (code == 0 || code == 1)
    ensures if Admissible(old(disk.nodes), entries, derived, port) then
              && Proper(Rels(entries)) && Ends(old(disk.nodes), disk.nodes, port, entries, dryRun, code, reach)
              && (disk.Faultless() ==> (code == 0 <==> Succeeds(old(disk.nodes), port, entries, dryRun)))
            else
              code == 1 && disk.nodes == old(disk.nodes)
    ensures code == 0 && !dryRun && OutsideBackups(entries) ==>
              Delivered(old(disk.nodes), disk.nodes, port, entries)
  {
    ghost var before := disk.nodes;
    if Admissible(disk.nodes, entries, derived, port) { AdmissibleIsProper(disk.nodes, entries, derived, port); }
    var ok := Admit(disk, entries, derived, port);
    code, reach := 1, Checks;
    if ok {
      code, reach := RunAdmitted(disk, entries, port, dryRun);
      if OutsideBackups(entries) {
        RunIsAllOrNothing(before, disk.nodes, port, entries, dryRun, code, reach);
      }
    }
  }

  method Admit(disk: Disk, entries: seq<Entry>, derived: set<string>, port: Port) returns (ok: bool)
    requires disk.Valid()
    modifies disk`clock
    ensures ok ==> Admissible(disk.nodes, entries, derived, port)
    ensures disk.Faultless() && Admissible(disk.nodes, entries, derived, port) ==> ok
  {
    ok := LoadManifest(entries);
    if ok {
      ok := CheckEntries(disk, entries, derived, port);
    }
  }

  method CheckEntries(disk: Disk, entries: seq<Entry>, derived: set<string>, port: Port) returns (ok: bool)
    requires Loadable(entries)
    modifies disk`clock
    ensures ok ==> Admissible(disk.nodes, entries, derived, port)
    ensures disk.Faultless() && Admissible(disk.nodes, entries, derived, port) ==> ok
  {
    ghost var nodes := disk.nodes;
    for k := 0 to |entries|
      invariant disk.nodes == nodes && AllPass(nodes, entries, derived, port, k)
    {
      ok := CheckEntry(disk, entries[k], derived, port);
      if !ok {
        return;
      }
    }
    ok := true;
  }

  method CheckEntry(disk: Disk, e: Entry, derived: set<string>, port: Port) returns (ok: bool)
    modifies disk`clock
    ensures ok ==> EntryPasses(disk.nodes, e, derived, port)
    ensures disk.Faultless() && EntryPasses(disk.nodes, e, derived, port) ==> ok
  {
    if e.dest in derived || port.blob(e.source).None? {
      return false;
    }
    ok := disk.SafeJoin(Parts(e.dest));
  }

  /** A destination the checks let pass is not the root. */
  lemma AdmissibleIsProper(nodes: map<Path, Node>, entries: seq<Entry>, derived: set<string>, port: Port)
    requires WellFormed(nodes) && Admissible(nodes, entries, derived, port)
    ensures Proper(Rels(entries)) && Proper(Dests(entries))
  {
    assert IsDir(nodes, []);
    RelsAreUnique(entries);
  }

  /** The part of `run` behind the checks: stage everything, then publish. */
  lemma ChecksEnd(nodes: map<Path, Node>, port: Port, entries: seq<Entry>, dryRun: bool)
    requires Proper(Rels(entries))
    ensures Ends(nodes, nodes, port, entries, dryRun, 1, Checks)
    ensures dryRun && Stageable(port, entries) ==> Ends(nodes, nodes, port, entries, dryRun, 0, Checks)
  {
  }

  method RunAdmitted(disk: Disk, entries: seq<Entry>, port: Port, dryRun: bool) returns (code: int, ghost reach: Reach)
    requires disk.Valid() && Loadable(entries) && Proper(Rels(entries)) && Proper(Dests(entries))
    requires forall k :: 0 <= k < |entries| ==> port.blob(entries[k].source).Some?
    modifies disk
    ensures disk.Valid() && (code == 0 || code == 1)
    ensures Ends(old(disk.nodes), disk.nodes, port, entries, dryRun, code, reach)
    ensures disk.Faultless() ==> (code == 0 <==> Succeeds(old(disk.nodes), port, entries, dryRun))
  {
    RelsAreUnique(entries);
    reach := Checks;
    ChecksEnd(disk.nodes, port, entries, dryRun);
    var staged, violations := StageEntries(disk, entries, port);
    if !staged || violations > 0 {
      code := 1;
      return;
    }
    if dryRun {
      code := 0;
      return;
    }
    staged := StageRest(disk, entries, port);
    if !staged {
      code := 1;
      return;
    }
    FullStageIsReady(disk.nodes, port, entries);
    ghost var reached;
    var outcome;
    outcome, reached := disk.PublishTransaction(Rels(entries));
    code, reach := if outcome == Published then 0 else 1, Transaction(outcome, reached);
  }

  /** Write one file into the staging area. */
  method WriteStage(disk: Disk, p: Path, text: string) returns (ok: bool)
    requires disk.Valid() && p != []
    modifies disk`stage, disk`clock
    ensures disk.Valid()
    ensures ok ==> Writable(old(disk.stage), p) && disk.stage == WithFile(old(disk.stage), p, text)
    ensures disk.Faultless() && Writable(old(disk.stage), p) ==> ok
  {
    assert p !in Ancestors(p);
    ok := disk.StageParents(p);
    if ok {
      ok := disk.StageFile(p, text);
    }
  }

  /** The manifest and the receipt. */
  method StageRest(disk: Disk, entries: seq<Entry>, port: Port) returns (ok: bool)
    requires disk.Valid() && Loadable(entries) && Proper(Rels(entries)) && Proper(Dests(entries))
             && Stageable(port, entries)
    requires disk.stage == Lay(Dests(entries), Texts(port, entries))
    modifies disk`stage, disk`clock
    ensures disk.Valid()
    ensures ok ==> Nestless(Rels(entries)) && disk.stage == FullStage(port, entries)
    ensures disk.Faultless() && Nestless(Rels(entries)) ==> ok
  {
    RelsAreUnique(entries);
    var one, text := Dests(entries) + [Parts(MANIFEST)], port.manifest(entries);
    RestIsLaid(Dests(entries), Texts(port, entries), Parts(MANIFEST), text, Parts(RECEIPT), port.receipt(entries));
    ok := WriteStage(disk, Parts(MANIFEST), text);
    if ok {
      ok := WriteStage(disk, Parts(RECEIPT), port.receipt(entries));
    }
  }

  lemma RestIsLaid(ps: seq<Path>, bs: seq<Bytes>, p: Path, b: Bytes, q: Path, c: Bytes)
    requires |ps| == |bs| && Layable(ps) && Unique(ps + [p] + [q]) && p != [] && q != []
    ensures WithFile(WithFile(Lay(ps, bs), p, b), q, c) == Lay(ps + [p] + [q], bs + [b] + [c])
    ensures Writable(Lay(ps, bs), p) && Writable(WithFile(Lay(ps, bs), p, b), q) <==> Nestless(ps + [p] + [q])
  {
    var one, all := ps + [p], ps + [p] + [q];
    forall i | 0 <= i < |one| ensures one[i] != q && (i < |ps| ==> ps[i] != p) {
      assert all[i] != all[|one|] && (i < |ps| ==> all[i] != all[|ps|]);
    }
    NextIsLaid(ps, bs, p, b);
    NestlessFront(one, q);
    if Nestless(one) {
      assert Layable(one);
      NextIsLaid(one, bs + [b], q, c);
    } else {
      LayUnrolled(one, bs + [b], q, c);
    }
  }

  lemma LayUnrolled(ps: seq<Path>, bs: seq<Bytes>, p: Path, b: Bytes)
    requires |ps| == |bs|
    ensures WithFile(Lay(ps, bs), p, b) == Lay(ps + [p], bs + [b])
  {
    var more, bytes := ps + [p], bs + [b];
    assert more[..|ps|] == ps && bytes[..|ps|] == bs;
  }

  lemma NextIsLaid(ps: seq<Path>, bs: seq<Bytes>, p: Path, bytes: Bytes)
    requires |ps| == |bs| && Layable(ps) && p != [] && p !in ps
    ensures WithFile(Lay(ps, bs), p, bytes) == Lay(ps + [p], bs + [bytes])
    ensures Writable(Lay(ps, bs), p) <==> Nestless(ps + [p])
  {
    LayUnrolled(ps, bs, p, bytes);
    CanLay(ps, bs, p);
  }

  lemma NestlessFront(ps: seq<Path>, p: Path)
    ensures Nestless(ps + [p]) ==> Nestless(ps)
  {
    var more := ps + [p];
    forall i | 0 <= i < |ps| ensures more[i] == ps[i] {}
  }

  lemma FullStageIsReady(nodes: map<Path, Node>, port: Port, entries: seq<Entry>)
    requires WellFormed(nodes) && Loadable(entries) && Proper(Rels(entries)) && Nestless(Rels(entries))
    ensures Ready(Prepared(nodes, port, entries), Rels(entries)) && LaidOut(FullStage(port, entries), Rels(entries))
  {
    var bs := Texts(port, entries) + [port.manifest(entries)] + [port.receipt(entries)];
    RelsAreUnique(entries);
    LaidIsReady(nodes, Rels(entries), bs);
    LayIsLaidOut(Rels(entries), bs);
  }

  /** Transform every entry into an empty staging area; a file with violations is
      counted, not staged. */
  method StageEntries(disk: Disk, entries: seq<Entry>, port: Port) returns (ok: bool, violations: nat)
    requires disk.Valid() && Unique(Dests(entries)) && Proper(Dests(entries))
    requires forall k :: 0 <= k < |entries| ==> port.blob(entries[k].source).Some?
    modifies disk`stage, disk`clock
    ensures disk.Valid()
    ensures ok && violations == 0 ==>
              Stageable(port, entries) && disk.stage == Lay(Dests(entries), Texts(port, entries))
    ensures disk.Faultless() && Stageable(port, entries) ==> ok && violations == 0
  {
    NothingStaged(entries, port);
    disk.stage := map[[] := Dir];
    ok, violations := true, 0;
    ghost var possible := disk.Faultless() && Stageable(port, entries);
    for k := 0 to |entries|
      invariant disk.Valid() && ok
      invariant violations == 0 ==> StagedSoFar(disk.stage, entries, port, k)
      invariant possible ==> disk.Faultless() && violations == 0
    {
      ok, violations := StageEntry(disk, entries, port, k, violations, possible);
      if !ok {
        return;
      }
    }
    if violations == 0 { AllStaged(disk.stage, entries, port); }
  }

  /** The first `k` entries are staged, and nothing else. */
  ghost predicate StagedSoFar(stage: map<Path, Node>, entries: seq<Entry>, port: Port, k: nat)
    requires k <= |entries|
  {
    StageOf(entries[..k], port) == Some(stage)
  }

  /** What staging all entries comes to, if they can be staged. */
  ghost function StageOf(entries: seq<Entry>, port: Port): Option<map<Path, Node>> {
    if Stageable(port, entries) then Some(Lay(Dests(entries), Texts(port, entries))) else None
  }

  lemma NothingStaged(entries: seq<Entry>, port: Port)
    ensures StagedSoFar(map[[] := Dir], entries, port, 0)
    ensures WellFormed(map[[] := Dir]) && NoLinks(map[[] := Dir])
  {
  }

  lemma AllStaged(stage: map<Path, Node>, entries: seq<Entry>, port: Port)
    requires StagedSoFar(stage, entries, port, |entries|)
    ensures Stageable(port, entries) && stage == Lay(Dests(entries), Texts(port, entries))
  {
    assert entries[..|entries|] == entries;
  }

  method StageEntry(disk: Disk, entries: seq<Entry>, port: Port, k: nat, violations: nat, ghost possible: bool)
    returns (ok: bool, violations': nat)
    requires disk.Valid() && Unique(Dests(entries)) && Proper(Dests(entries)) && k < |entries|
    requires port.blob(entries[k].source).Some?
    requires violations == 0 ==> StagedSoFar(disk.stage, entries, port, k)
    requires possible ==> disk.Faultless() && Stageable(port, entries)
    modifies disk`stage, disk`clock
    ensures disk.Valid()
    ensures ok && violations' == 0 ==> StagedSoFar(disk.stage, entries, port, k + 1)
    ensures possible && violations == 0 ==> ok && violations' == 0
  {
    var entry := entries[k];
    ghost var was := disk.stage;
    violations' := violations;
    if violations == 0 { NextEntry(entries, port, k); }
    match port.transform(entry, port.blob(entry.source).value)
    case Broken =>
      ok := false;
    case Text(text, found) =>
      ok := true;
      if found == 0 {
        ok := WriteStage(disk, Dests(entries)[k], text);
      } else {
        violations' := violations + found;
      }
  }

  lemma NextEntry(entries: seq<Entry>, port: Port, k: nat)
    requires Unique(Dests(entries)) && Proper(Dests(entries)) && k < |entries| && Stageable(port, entries[..k])
    ensures var p, stage := Dests(entries)[k], Lay(Dests(entries[..k]), Texts(port, entries[..k]));
            && (Clean(port, entries[k]) && Writable(stage, p) ==>
                  StagedSoFar(WithFile(stage, p, TextOf(port, entries[k])), entries, port, k + 1))
            && (Stageable(port, entries) ==> Clean(port, entries[k]) && Writable(stage, p))
  {
    var done, more, p := entries[..k], entries[..k + 1], Dests(entries)[k];
    Snoc(entries, port, k);
    var ps, bs := Dests(done), Texts(port, done);
    assert p !in ps && Layable(ps);
    NextIsLaid(ps, bs, p, TextOf(port, entries[k]));
    if Stageable(port, entries) {
      forall i, j | 0 <= i <= k && 0 <= j <= k ensures !((ps + [p])[i] < (ps + [p])[j]) {
        assert !(Dests(entries)[i] < Dests(entries)[j]);
      }
    }
  }

  lemma Snoc(entries: seq<Entry>, port: Port, k: nat)
    requires k < |entries|
    ensures var done, more := entries[..k], entries[..k + 1];
            && Dests(done) == Dests(entries)[..k] && Dests(more) == Dests(done) + [Dests(entries)[k]]
            && Texts(port, more) == Texts(port, done) + [TextOf(port, entries[k])]
            && (AllClean(port, more) <==> AllClean(port, done) && Clean(port, entries[k]))
  {
    var done, more := entries[..k], entries[..k + 1];
    assert more == done + [entries[k]];
    assert forall j :: 0 <= j < k ==> more[j] == done[j];
    assert more[k] == entries[k];
  }

  /** What is staged for every entry, for the manifest and for the receipt. */
  lemma StagedTexts(port: Port, entries: seq<Entry>, k: nat)
    requires Loadable(entries) && Proper(Rels(entries)) && Nestless(Rels(entries)) && k < |entries| + 2
    ensures Rels(entries)[k] == Parts(if k < |entries| then entries[k].dest
                                      else if k == |entries| then MANIFEST else RECEIPT)
    ensures Staged(FullStage(port, entries), Rels(entries)[k])
         == if k < |entries| then TextOf(port, entries[k])
            else if k == |entries| then port.manifest(entries) else port.receipt(entries)
  {
    RelsAreUnique(entries);
    LayBytes(Rels(entries), Texts(port, entries) + [port.manifest(entries)] + [port.receipt(entries)], k);
  }

  /** Every entry was transformed without a violation, and its text is at its destination. */
  ghost predicate EntryDelivered(after: map<Path, Node>, port: Port, e: Entry) {
    && port.blob(e.source).Some?
    && var p := port.transform(e, port.blob(e.source).value);
       p.Text? && p.violations == 0 && Content(after, Parts(e.dest)) == Some(p.text)
  }

  /** The texts of the entries, the manifest and the receipt are in their places, and no
      other file has come, gone or changed. */
  ghost predicate Delivered(before: map<Path, Node>, after: map<Path, Node>, port: Port, entries: seq<Entry>) {
    && (forall k :: 0 <= k < |entries| ==> EntryDelivered(after, port, entries[k]))
    && Content(after, Parts("tools/extract/manifest.json")) == Some(port.manifest(entries))
    && Content(after, Parts("tools/extract/port_receipt.json")) == Some(port.receipt(entries))
    && forall q :: q != Parts("tools/extract/manifest.json") && q != Parts("tools/extract/port_receipt.json")
                   && (forall k :: 0 <= k < |entries| ==> q != Parts(entries[k].dest)) ==>
         Content(after, q) == Content(before, q)
  }

  lemma PublicationDelivers(before: map<Path, Node>, port: Port, entries: seq<Entry>)
    requires Loadable(entries) && Proper(Rels(entries)) && Nestless(Rels(entries)) && AllClean(port, entries)
    ensures Delivered(before, Publication(Prepared(before, port, entries), Rels(entries)), port, entries)
  {
    var rels := Rels(entries);
    var after := Publication(Prepared(before, port, entries), rels);
    forall k | 0 <= k < |entries| + 2
      ensures Content(after, rels[k]) == Some(Staged(FullStage(port, entries), rels[k]))
    {
      assert rels[k] in rels;
    }
    forall k | 0 <= k < |entries| ensures EntryDelivered(after, port, entries[k]) {
      assert Clean(port, entries[k]);
      StagedTexts(port, entries, k);
    }
    StagedTexts(port, entries, |entries|);
    StagedTexts(port, entries, |entries| + 1);
    forall q | q !in rels ensures Content(after, q) == Content(before, q) {}
    RelsMembers(entries);
  }

  lemma RelsMembers(entries: seq<Entry>)
    ensures forall q :: q in Rels(entries) ==>
              (q == Parts(MANIFEST) || q == Parts(RECEIPT)
               || exists k :: 0 <= k < |entries| && q == Parts(entries[k].dest))
  {
    forall q | q in Dests(entries) ensures exists k :: 0 <= k < |entries| && q == Parts(entries[k].dest) {
      var k :| 0 <= k < |Dests(entries)| && Dests(entries)[k] == q;
    }
    InTwoMore(Dests(entries), Parts(MANIFEST), Parts(RECEIPT));
  }

  lemma InTwoMore(ps: seq<Path>, a: Path, b: Path)
    ensures forall q :: q in ps + [a] + [b] ==> q in ps || q == a || q == b
  {
  }

  /** What a run publishes is the transformed text of every entry, the manifest and the
      receipt, and every other path is left as it was, if and only if every destination
      whose staged bytes are replaced by a backup was to get the same. */
  lemma RunPublishesExactlyIff(nodes: map<Path, Node>, port: Port, entries: seq<Entry>)
    requires WellFormed(nodes) && Loadable(entries) && Proper(Rels(entries)) && Nestless(Rels(entries))
    ensures var v, rels := Prepared(nodes, port, entries), Rels(entries);
            PlaceAll(v, rels).nodes == Publication(v, rels)
            <==> forall i, j :: 0 <= i < |rels| && 0 <= j < |rels| && WrongBytes(nodes, rels, i, j) ==>
                   nodes[rels[i]].bytes == Staged(v.stage, rels[j])
    ensures AllClean(port, entries) ==>
              Delivered(nodes, Publication(Prepared(nodes, port, entries), Rels(entries)), port, entries)
  {
    FullStageIsReady(nodes, port, entries);
    BytesAreRightIff(Prepared(nodes, port, entries), Rels(entries));
    if AllClean(port, entries) { PublicationDelivers(nodes, port, entries); }
  }

  /** A run that could be published fits, and no destination blocks a backup. */
  lemma RunSucceedsIff(nodes: map<Path, Node>, port: Port, entries: seq<Entry>)
    requires WellFormed(nodes) && Loadable(entries) && Proper(Rels(entries))
    ensures var rels := Rels(entries);
            Publishable(nodes, port, entries)
            <==> Nestless(rels) && Fits(nodes, rels)
                 && forall i, j :: 0 <= i < |rels| && 0 <= j < |rels| ==> !Blocks(nodes, rels, i, j)
  {
    if Nestless(Rels(entries)) {
      FullStageIsReady(nodes, port, entries);
      PublicationWorksIff(Prepared(nodes, port, entries), Rels(entries));
    }
  }

  lemma RelsOutsideBackups(entries: seq<Entry>)
    requires Proper(Rels(entries)) && OutsideBackups(entries)
    ensures forall j :: 0 <= j < |Rels(entries)| ==> Rels(entries)[j][0] != BACKUPS[0]
  {
    forall j | 0 <= j < |Rels(entries)| ensures Rels(entries)[j][0] != BACKUPS[0] {
      if j >= |entries| {
        FirstPart(MANIFEST);
        FirstPart(RECEIPT);
      } else {
        assert !(BACKUPS <= Parts(entries[j].dest));
      }
    }
  }

  /** Where no destination is at or below `.backups`, a run that fails leaves the tree as
      it was, and one that succeeds publishes exactly what it should. */
  lemma RunIsAllOrNothing(before: map<Path, Node>, after: map<Path, Node>, port: Port, entries: seq<Entry>,
                          dryRun: bool, code: int, reach: Reach)
    requires WellFormed(before) && Loadable(entries) && Proper(Rels(entries)) && (code == 0 || code == 1)
    requires Ends(before, after, port, entries, dryRun, code, reach)
    requires OutsideBackups(entries)
    ensures after == if code == 0 && !dryRun then Publication(Prepared(before, port, entries), Rels(entries))
            else before
    ensures code == 0 && !dryRun ==> Delivered(before, after, port, entries)
    ensures code == 0 ==> forall k :: 0 <= k < |entries| ==>
              port.blob(entries[k].source).Some?
              && port.transform(entries[k], port.blob(entries[k].source).value).Text?
              && port.transform(entries[k], port.blob(entries[k].source).value).violations == 0
  {
    assert code == 0 ==> forall k :: 0 <= k < |entries| ==> Clean(port, entries[k]);
    if Nestless(Rels(entries)) {
      FullStageIsReady(before, port, entries);
      RelsOutsideBackups(entries);
      NoTroubleOutsideBackups(Prepared(before, port, entries), Rels(entries));
      if AllClean(port, entries) { PublicationDelivers(before, port, entries); }
    }
  }

  lemma FirstPart(s: string)
    requires s != "" && s[0] != '.'
    ensures Parts(s) != [] && Parts(s)[0] != BACKUPS[0]
  {
    assert Components(s)[0] == s[..Cut(s, 0)];
  }
}
