/** What publishing a list of staged files does to a tree, and when it goes wrong.

    The staging area is a directory tree of its own.  It holds the staged files, each
    under the path of its destination, and below `.backups` the old contents of the
    destinations that were replaced.  A destination may itself have a path below
    `.backups`, so the two can get in each other's way. */
module Placing {
  import opened Text
  import opened FileTree

  const BACKUPS: Path := [".backups"]

  /** The destination tree and the staging area. */
  datatype Volume = Volume(nodes: map<Path, Node>, stage: map<Path, Node>)

  /** The destination is there already. */
  predicate Existing(v: Volume, p: Path) {
    Content(v.nodes, p).Some?
  }

  /** Where `copy2` puts the old bytes of `p`: into a directory under the same name, if
      there is one at the place meant for the backup. */
  function BackupOf(stage: map<Path, Node>, p: Path): Path
    requires p != []
  {
    if IsDir(stage, BACKUPS + p) then BACKUPS + p + [p[|p| - 1]] else BACKUPS + p
  }

  function WithBackup(v: Volume, p: Path): map<Path, Node>
    requires p != []
  {
    if Existing(v, p) then WithFile(v.stage, BackupOf(v.stage, p), v.nodes[p].bytes) else v.stage
  }

  function Staged(stage: map<Path, Node>, p: Path): Bytes {
    if Content(stage, p).Some? then stage[p].bytes else ""
  }

  /** One destination, when nothing fails. */
  function Place(v: Volume, p: Path): Volume
    requires p != []
  {
    var stage := WithBackup(v, p);
    Volume(WithFile(v.nodes, p, Staged(stage, p)), stage - {p})
  }

  predicate Proper(ps: seq<Path>) {
    forall k :: 0 <= k < |ps| ==> ps[k] != []
  }

  function PlaceAll(v: Volume, ps: seq<Path>): Volume
    requires Proper(ps)
  {
    if ps == [] then v else Place(PlaceAll(v, ps[..|ps| - 1]), ps[|ps| - 1])
  }

  /** The tree the caller asked for: every destination holds its staged bytes, the
      directories above exist, and everything else is as before. */
  function Publication(v: Volume, ps: seq<Path>): map<Path, Node> {
    map p | p in v.nodes.Keys + AllAncestors(ps) + Members(ps) ::
      if p in ps then File(Staged(v.stage, p))
      else if p in v.nodes then v.nodes[p]
      else Dir
  }

  function AllAncestors(ps: seq<Path>): set<Path> {
    if ps == [] then {} else AllAncestors(ps[..|ps| - 1]) + Ancestors(ps[|ps| - 1])
  }

  /** Two trees with the files laid out for the transaction. */
  ghost predicate Ready(v: Volume, ps: seq<Path>) {
    && WellFormed(v.nodes) && WellFormed(v.stage) && Unique(ps) && Proper(ps)
    && forall k :: 0 <= k < |ps| ==> Content(v.stage, ps[k]).Some?
  }

  // ---- When it goes wrong --------------------------------------------------

  /** Every destination can be a file. */
  ghost predicate Fits(nodes: map<Path, Node>, ps: seq<Path>) {
    forall k :: 0 <= k < |ps| ==> FitsOne(nodes, ps[k])
  }

  /** The backup of destination `i` can be written when its turn comes: no directory is
      in its place, and a staged file above it has been published by then. */
  ghost predicate Unblocked(stage: map<Path, Node>, ps: seq<Path>, i: nat)
    requires i < |ps| && ps[i] != []
  {
    var b := BackupOf(stage, ps[i]);
    !IsDir(stage, b) && forall a :: a in Ancestors(b) && Content(stage, a).Some? ==> a in ps[..i]
  }

  /** A file can be written: there is no directory in its place and no file above it. */
  ghost predicate Writable(stage: map<Path, Node>, b: Path) {
    !IsDir(stage, b) && forall a :: a in Ancestors(b) ==> Content(stage, a).None?
  }

  /** Nothing but a fault can stop the publication. */
  ghost predicate Possible(v: Volume, ps: seq<Path>)
    requires Proper(ps)
  {
    Fits(v.nodes, ps) && forall i :: 0 <= i < |ps| && Existing(v, ps[i]) ==> Unblocked(v.stage, ps, i)
  }

  /** The backup of destination `i` is not where rollback looks for it: it went into a
      directory, or was published away as a later destination. */
  ghost predicate Lost(v: Volume, ps: seq<Path>, i: nat)
    requires i < |ps|
  {
    IsDir(v.stage, BACKUPS + ps[i]) || exists j :: i < j < |ps| && ps[j] == BACKUPS + ps[i]
  }

  ghost predicate BackupsHold(v: Volume, ps: seq<Path>) {
    forall i :: 0 <= i < |ps| && Existing(v, ps[i]) ==> !Lost(v, ps, i)
  }

  /** The backup of `p` is written over what is staged for `q`. */
  ghost predicate Overwrites(v: Volume, p: Path, q: Path)
    requires p != []
  {
    Existing(v, p) && BackupOf(v.stage, p) == q
  }

  ghost predicate SameBytes(v: Volume, ps: seq<Path>)
    requires Proper(ps)
  {
    forall i, j :: 0 <= i < j < |ps| && Overwrites(v, ps[i], ps[j]) ==> v.nodes[ps[i]].bytes == Staged(v.stage, ps[j])
  }

  // ---- One destination -----------------------------------------------------

  lemma BackupIsElsewhere(p: Path)
    ensures p != BACKUPS + p
  {
    assert |BACKUPS + p| == 1 + |p|;
  }

  /** What a step does to the files of the staging area. */
  lemma StepContent(was: Volume, r: Path, q: Path)
    requires r != []
    ensures Content(Place(was, r).stage, q)
         == if q == r then None
            else if Existing(was, r) && q == BackupOf(was.stage, r) then Some(was.nodes[r].bytes)
            else Content(was.stage, q)
  {
  }

  lemma StepDir(was: Volume, r: Path, q: Path)
    requires r != [] && Content(was.stage, r).Some? && q != []
    requires Existing(was, r) ==> !(q <= BackupOf(was.stage, r))
    ensures IsDir(Place(was, r).stage, q) <==> IsDir(was.stage, q)
  {
    if Existing(was, r) { AncestorsArePrefixes(BackupOf(was.stage, r), q); }
  }

  /** Backups of different files are neither above nor below one another. */
  lemma BackupsApart(before: map<Path, Node>, stage: map<Path, Node>, p: Path, r: Path)
    requires WellFormed(before) && Content(before, p).Some? && Content(before, r).Some? && p != r && r != []
    ensures !(BACKUPS + p <= BackupOf(stage, r)) && !(BACKUPS + p <= BACKUPS + r)
  {
    PrefixBehind(p, r);
    PrefixBehind(p, r + [r[|r| - 1]]);
    assert BACKUPS + (r + [r[|r| - 1]]) == BACKUPS + r + [r[|r| - 1]];
    PrefixOfLonger(p, r, r[|r| - 1]);
    FilesApart(before, p, r);
    FilesApart(before, r, p);
  }

  lemma PrefixBehind(p: Path, r: Path)
    ensures BACKUPS + p <= BACKUPS + r <==> p <= r
  {
    assert (BACKUPS + p)[1..] == p && (BACKUPS + r)[1..] == r;
  }

  lemma PrefixOfLonger(p: Path, r: Path, c: string)
    ensures p <= r + [c] ==> p <= r || r < p
  {
    if p <= r + [c] && |p| > |r| { assert p == r + [c]; }
  }

  lemma PlaceLast(v: Volume, ps: seq<Path>)
    requires ps != [] && Unique(ps) && Proper(ps)
    ensures var n := |ps| - 1;
            && PlaceAll(v, ps) == Place(PlaceAll(v, ps[..n]), ps[n])
            && ps == ps[..n] + [ps[n]]
            && ps[n] !in ps[..n] && Unique(ps[..n])
            && forall q :: q in ps <==> q in ps[..n] || q == ps[n]
  {
    var n := |ps| - 1;
    assert ps == ps[..n] + [ps[n]];
  }

  // ---- All of them ---------------------------------------------------------

  /** `now` adds exactly the files `ps` and the directories above them to `before`. */
  ghost predicate Adds(before: map<Path, Node>, now: map<Path, Node>, dirs: set<Path>, ps: seq<Path>) {
    && now.Keys == before.Keys + dirs + Members(ps)
    && forall q :: q in now && q !in ps ==> now[q] == if q in before then before[q] else Dir
  }

  /** The tree after some destinations, apart from their bytes. */
  lemma {:induction false} NodesAfter(v: Volume, ps: seq<Path>)
    requires Unique(ps) && Proper(ps)
    ensures Adds(v.nodes, PlaceAll(v, ps).nodes, AllAncestors(ps), ps)
  {
    if ps == [] {
    } else {
      var n := |ps| - 1;
      var was := PlaceAll(v, ps[..n]);
      PlaceLast(v, ps);
      NodesAfter(v, ps[..n]);
      NodesOfPlace(was, ps[n]);
      NodesGrow(v.nodes, was.nodes, Place(was, ps[n]).nodes, ps[..n], ps, ps[n]);
    }
  }

  lemma NodesGrow(before: map<Path, Node>, was: map<Path, Node>, now: map<Path, Node>, front: seq<Path>,
                  ps: seq<Path>, p: Path)
    requires Adds(before, was, AllAncestors(front), front) && Adds(was, now, Ancestors(p), [p]) && ps == front + [p]
    ensures Adds(before, now, AllAncestors(ps), ps)
  {
    assert ps[..|ps| - 1] == front;
    assert forall q :: q in ps <==> q in front || q == p;
  }

  lemma NodesOfPlace(v: Volume, p: Path)
    requires p != []
    ensures Adds(v.nodes, Place(v, p).nodes, Ancestors(p), [p])
  {
  }

  lemma StillExisting(v: Volume, ps: seq<Path>, r: Path)
    requires Unique(ps) && Proper(ps) && r !in ps
    ensures Content(PlaceAll(v, ps).nodes, r) == Content(v.nodes, r)
  {
    NodesAfter(v, ps);
  }

  lemma ReadyFront(v: Volume, ps: seq<Path>)
    requires ps != [] && Ready(v, ps)
    ensures Ready(v, ps[..|ps| - 1])
  {
  }

  /** A staged file stays one until its turn. */
  lemma {:induction false} FileStays(v: Volume, ps: seq<Path>, q: Path)
    requires Ready(v, ps) && Content(v.stage, q).Some? && q !in ps
    ensures Content(PlaceAll(v, ps).stage, q).Some?
  {
    if ps == [] {
    } else {
      var n := |ps| - 1;
      PlaceLast(v, ps);
      ReadyFront(v, ps);
      FileStays(v, ps[..n], q);
      StepContent(PlaceAll(v, ps[..n]), ps[n], q);
    }
  }

  /** Before the turn of an existing destination `p`, nothing new has come to the place
      of its backup, below it or above it; only what was published is gone. */
  lemma {:induction false} Untouched(v: Volume, ps: seq<Path>, p: Path, q: Path)
    requires Ready(v, ps) && Existing(v, p) && p !in ps && q != []
    requires BACKUPS + p <= q || q <= BACKUPS + p
    ensures Content(PlaceAll(v, ps).stage, q) == if q in ps then None else Content(v.stage, q)
    ensures BACKUPS + p <= q ==> (IsDir(PlaceAll(v, ps).stage, q) <==> IsDir(v.stage, q))
  {
    if ps == [] {
    } else {
      var n := |ps| - 1;
      var was, r := PlaceAll(v, ps[..n]), ps[n];
      PlaceLast(v, ps);
      ReadyFront(v, ps);
      Untouched(v, ps[..n], p, q);
      FileStays(v, ps[..n], r);
      StillExisting(v, ps[..n], r);
      UntouchedStep(v, was, r, p, q);
    }
  }

  lemma UntouchedStep(v: Volume, was: Volume, r: Path, p: Path, q: Path)
    requires WellFormed(v.nodes) && Existing(v, p) && Content(was.nodes, r) == Content(v.nodes, r) && p != r && r != []
    requires q != [] && (BACKUPS + p <= q || q <= BACKUPS + p) && Content(was.stage, r).Some?
    ensures Content(Place(was, r).stage, q) == if q == r then None else Content(was.stage, q)
    ensures BACKUPS + p <= q ==> (IsDir(Place(was, r).stage, q) <==> IsDir(was.stage, q))
  {
    StepContent(was, r, q);
    if Existing(was, r) { Elsewhere(v.nodes, was.stage, p, r, q); }
    if BACKUPS + p <= q && q != r { StepDir(was, r, q); }
  }

  lemma Elsewhere(before: map<Path, Node>, stage: map<Path, Node>, p: Path, r: Path, q: Path)
    requires WellFormed(before) && Content(before, p).Some? && Content(before, r).Some? && p != r && r != []
    requires BACKUPS + p <= q || q <= BACKUPS + p
    ensures q != BackupOf(stage, r) && (BACKUPS + p <= q ==> !(q <= BackupOf(stage, r)))
  {
    BackupsApart(before, stage, p, r);
    BackupsApart(before, stage, r, p);
    assert BACKUPS + r <= BackupOf(stage, r);
  }

  /** The place of a backup is the same at the destination's turn as at the start. */
  lemma BackupOfStays(v: Volume, ps: seq<Path>, p: Path)
    requires Ready(v, ps) && Existing(v, p) && p !in ps && p != []
    ensures BackupOf(PlaceAll(v, ps).stage, p) == BackupOf(v.stage, p)
    ensures IsDir(PlaceAll(v, ps).stage, BackupOf(v.stage, p)) <==> IsDir(v.stage, BackupOf(v.stage, p))
  {
    Untouched(v, ps, p, BACKUPS + p);
    Untouched(v, ps, p, BackupOf(v.stage, p));
  }

  /** The last step, seen from the start. */
  lemma LastStep(v: Volume, ps: seq<Path>, q: Path)
    requires Ready(v, ps) && ps != []
    ensures var n := |ps| - 1;
            Content(PlaceAll(v, ps).stage, q)
            == if q == ps[n] then None
               else if Overwrites(v, ps[n], q) then Some(v.nodes[ps[n]].bytes)
               else Content(PlaceAll(v, ps[..n]).stage, q)
  {
    var n := |ps| - 1;
    var was, r := PlaceAll(v, ps[..n]), ps[n];
    PlaceLast(v, ps);
    ReadyFront(v, ps);
    StepContent(was, r, q);
    StillExisting(v, ps[..n], r);
    if Existing(v, r) { BackupOfStays(v, ps[..n], r); }
  }

  /** What is staged for a destination that is still to come is what was there at the
      start, */
  lemma {:induction false} WaitingAsStaged(v: Volume, ps: seq<Path>, q: Path)
    requires Ready(v, ps) && q !in ps && forall i :: 0 <= i < |ps| ==> !Overwrites(v, ps[i], q)
    ensures Content(PlaceAll(v, ps).stage, q) == Content(v.stage, q)
  {
    if ps == [] {
    } else {
      ReadyFront(v, ps);
      WaitingAsStaged(v, ps[..|ps| - 1], q);
      LastStep(v, ps, q);
    }
  }

  /** or the old bytes of the one whose backup was written over it. */
  lemma {:induction false} WaitingOverwritten(v: Volume, ps: seq<Path>, q: Path, i: nat)
    requires Ready(v, ps) && q !in ps && i < |ps| && Overwrites(v, ps[i], q)
    ensures Content(PlaceAll(v, ps).stage, q) == Some(v.nodes[ps[i]].bytes)
  {
    var n := |ps| - 1;
    ReadyFront(v, ps);
    LastStep(v, ps, q);
    if i >= n {
    } else {
      WaitingOverwritten(v, ps[..n], q, i);
      OneOverwrites(v, ps[n], ps[i], q);
    }
  }

  lemma OneOverwrites(v: Volume, p: Path, r: Path, q: Path)
    requires WellFormed(v.nodes) && p != [] && r != [] && p != r && Overwrites(v, r, q)
    ensures !Overwrites(v, p, q)
  {
    if Existing(v, p) { BackupsApart(v.nodes, v.stage, p, r); }
  }

  /** The bytes of a destination are those that were staged for it at its turn. */
  lemma {:induction false} BytesOfTurn(v: Volume, ps: seq<Path>, j: nat)
    requires Ready(v, ps) && j < |ps|
    ensures Content(PlaceAll(v, ps).nodes, ps[j]) == Content(PlaceAll(v, ps[..j]).stage, ps[j])
  {
    var n := |ps| - 1;
    PlaceLast(v, ps);
    ReadyFront(v, ps);
    if j == n {
      FileStays(v, ps[..n], ps[n]);
      StagedAtTurn(PlaceAll(v, ps[..n]), ps[n]);
    } else {
      BytesOfTurn(v, ps[..n], j);
      FrontOfFront(ps, j, n);
      BytesStay(PlaceAll(v, ps[..n]), ps[n], ps[j]);
    }
  }

  lemma FrontOfFront(ps: seq<Path>, j: nat, n: nat)
    requires j <= n <= |ps|
    ensures ps[..n][..j] == ps[..j]
  {
  }

  lemma {:induction false} ReadyTo(v: Volume, ps: seq<Path>, k: nat)
    requires Ready(v, ps) && k <= |ps|
    ensures Ready(v, ps[..k])
  {
  }

  /** The bytes of destination `j` are those staged for it, unless the backup of an
      earlier destination was written over them. */
  lemma BytesAfter(v: Volume, ps: seq<Path>, j: nat)
    requires Ready(v, ps) && j < |ps|
    ensures var now := Content(PlaceAll(v, ps).nodes, ps[j]);
            && ((forall i :: 0 <= i < j ==> !Overwrites(v, ps[i], ps[j])) ==> now == Some(Staged(v.stage, ps[j])))
            && forall i :: 0 <= i < j && Overwrites(v, ps[i], ps[j]) ==> now == Some(v.nodes[ps[i]].bytes)
  {
    BytesOfTurn(v, ps, j);
    ReadyTo(v, ps, j);
    if i :| 0 <= i < j && Overwrites(v, ps[i], ps[j]) {
      forall i | 0 <= i < j && Overwrites(v, ps[i], ps[j])
        ensures Content(PlaceAll(v, ps[..j]).stage, ps[j]) == Some(v.nodes[ps[i]].bytes)
      {
        WaitingOverwritten(v, ps[..j], ps[j], i);
      }
    } else {
      WaitingAsStaged(v, ps[..j], ps[j]);
    }
  }

  /** A destination's own backup is not written over what is staged for it. */
  lemma StagedAtTurn(was: Volume, p: Path)
    requires p != [] && Content(was.stage, p).Some?
    ensures Content(Place(was, p).nodes, p) == Content(was.stage, p)
  {
    BackupIsElsewhere(p);
    assert |BackupOf(was.stage, p)| > |p|;
  }

  lemma BytesStay(was: Volume, p: Path, q: Path)
    requires p != [] && p != q
    ensures Content(Place(was, p).nodes, q) == Content(was.nodes, q)
  {
  }

  /** The published tree is the one asked for if and only if no backup was written over
      what was staged for a later destination, or the bytes were the same. */
  lemma PublishesExactlyIff(v: Volume, ps: seq<Path>)
    requires Ready(v, ps)
    ensures PlaceAll(v, ps).nodes == Publication(v, ps) <==> SameBytes(v, ps)
  {
    var w, goal := PlaceAll(v, ps).nodes, Publication(v, ps);
    NodesAfter(v, ps);
    forall j | 0 <= j < |ps|
      ensures w[ps[j]] == goal[ps[j]]
         <==> forall i :: 0 <= i < j && Overwrites(v, ps[i], ps[j]) ==> v.nodes[ps[i]].bytes == Staged(v.stage, ps[j])
    {
      BytesAfter(v, ps, j);
    }
    SameOnAll(w, goal, ps);
  }

  lemma SameOnAll(a: map<Path, Node>, b: map<Path, Node>, ps: seq<Path>)
    requires a.Keys == b.Keys && (forall p :: p in ps ==> p in a)
    requires forall p :: p in a && p !in ps ==> a[p] == b[p]
    ensures a == b <==> forall j :: 0 <= j < |ps| ==> a[ps[j]] == b[ps[j]]
  {
    if forall j :: 0 <= j < |ps| ==> a[ps[j]] == b[ps[j]] {
      assert forall p :: p in a ==> a[p] == b[p];
    }
  }

  /** The backup of an existing destination is where rollback looks for it, with the old
      bytes, if and only if it is not lost. */
  lemma {:induction false} BackupAfter(v: Volume, ps: seq<Path>, i: nat)
    requires Ready(v, ps) && i < |ps| && Existing(v, ps[i])
    ensures Content(PlaceAll(v, ps).stage, BACKUPS + ps[i])
         == if Lost(v, ps, i) then None else Some(v.nodes[ps[i]].bytes)
  {
    LostLater(v, ps, i);
    if i == |ps| - 1 {
      OwnBackup(v, ps);
    } else {
      ReadyFront(v, ps);
      BackupAfter(v, ps[..|ps| - 1], i);
      OtherBackup(v, ps, ps[i]);
    }
  }

  lemma OwnBackup(v: Volume, ps: seq<Path>)
    requires Ready(v, ps) && ps != [] && Existing(v, ps[|ps| - 1])
    ensures var p := ps[|ps| - 1];
            Content(PlaceAll(v, ps).stage, BACKUPS + p)
            == if IsDir(v.stage, BACKUPS + p) then None else Some(v.nodes[p].bytes)
  {
    var n := |ps| - 1;
    var p := ps[n];
    LastStep(v, ps, BACKUPS + p);
    BackupIsElsewhere(p);
    PlaceLast(v, ps);
    ReadyFront(v, ps);
    if IsDir(v.stage, BACKUPS + p) { NoBackupYet(v, ps[..n], p); }
  }

  lemma OtherBackup(v: Volume, ps: seq<Path>, p: Path)
    requires Ready(v, ps) && ps != [] && Existing(v, p) && p != ps[|ps| - 1]
    ensures var n := |ps| - 1;
            Content(PlaceAll(v, ps).stage, BACKUPS + p)
            == if ps[n] == BACKUPS + p then None else Content(PlaceAll(v, ps[..n]).stage, BACKUPS + p)
  {
    var r := ps[|ps| - 1];
    LastStep(v, ps, BACKUPS + p);
    if Existing(v, r) { BackupsApart(v.nodes, v.stage, p, r); }
  }

  lemma NoBackupYet(v: Volume, ps: seq<Path>, p: Path)
    requires Ready(v, ps) && Existing(v, p) && p !in ps && p != [] && IsDir(v.stage, BACKUPS + p)
    ensures Content(PlaceAll(v, ps).stage, BACKUPS + p) == None
  {
    Untouched(v, ps, p, BACKUPS + p);
  }

  lemma LostLater(v: Volume, ps: seq<Path>, i: nat)
    requires i < |ps|
    ensures var n := |ps| - 1;
            Lost(v, ps, i) <==> if i == n then IsDir(v.stage, BACKUPS + ps[i])
                                else Lost(v, ps[..n], i) || ps[n] == BACKUPS + ps[i]
  {
  }

  // ---- Whether a step can succeed ------------------------------------------

  /** At its turn, a destination fits if it did at the start. */
  lemma FitsAtTurn(v: Volume, ps: seq<Path>, p: Path)
    requires Ready(v, ps) && p !in ps && Content(v.stage, p).Some?
    ensures FitsOne(PlaceAll(v, ps).nodes, p) <==> FitsOne(v.nodes, p)
  {
    var w := PlaceAll(v, ps);
    NodesAfter(v, ps);
    forall q | q == p || q in Ancestors(p)
      ensures q !in ps && (q in w.nodes && q !in v.nodes ==> w.nodes[q] == Dir)
              && (q in v.nodes ==> w.nodes[q] == v.nodes[q])
    {
      AncestorsArePrefixes(p, q);
      if q in ps { FilesApart(v.stage, q, p); }
    }
    if p in AllAncestors(ps) { AboveStaged(v, ps, p); }
  }

  /** No staged file is above another. */
  lemma {:induction false} AboveStaged(v: Volume, ps: seq<Path>, p: Path)
    requires Ready(v, ps) && Content(v.stage, p).Some?
    ensures p !in AllAncestors(ps)
  {
    if ps == [] {
    } else {
      var n := |ps| - 1;
      ReadyFront(v, ps);
      AboveStaged(v, ps[..n], p);
      AncestorsArePrefixes(ps[n], p);
      FilesApart(v.stage, p, ps[n]);
    }
  }

  /** The backup can be written at the destination's turn if and only if nothing the
      caller staged blocks it then. */
  lemma UnblockedAtTurn(v: Volume, ps: seq<Path>, i: nat)
    requires Ready(v, ps) && i < |ps| && Existing(v, ps[i])
    ensures var was := PlaceAll(v, ps[..i]);
            Writable(was.stage, BackupOf(was.stage, ps[i])) <==> Unblocked(v.stage, ps, i)
  {
    var done, p := ps[..i], ps[i];
    var b := BackupOf(v.stage, p);
    ReadyTo(v, ps, i);
    BackupOfStays(v, done, p);
    forall a | a in Ancestors(b)
      ensures Content(PlaceAll(v, done).stage, a).None? <==> (Content(v.stage, a).Some? ==> a in done)
    {
      AncestorsArePrefixes(b, a);
      AboveBackup(v.stage, p, a);
      Untouched(v, done, p, a);
    }
  }

  lemma AboveBackup(stage: map<Path, Node>, p: Path, a: Path)
    requires p != [] && a < BackupOf(stage, p)
    ensures a <= BACKUPS + p
  {
    if a < BACKUPS + p + [p[|p| - 1]] && |a| == 1 + |p| {
      assert (BACKUPS + p + [p[|p| - 1]])[..|a|] == BACKUPS + p;
    }
  }
}
