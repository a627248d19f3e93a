/** The staging area as a run lays it out, and what its destinations tell about how the
    publication will end. */
module Layout {
  import opened Text
  import opened FileTree
  import opened Placing

  /** An empty directory in which the files are written one after the other. */
  function Lay(ps: seq<Path>, bs: seq<Bytes>): map<Path, Node>
    requires |ps| == |bs|
  {
    if ps == [] then map[[] := Dir] else
    var n := |ps| - 1;
    WithFile(Lay(ps[..n], bs[..n]), ps[n], bs[n])
  }

  /** No destination is above another. */
  ghost predicate Nestless(ps: seq<Path>) {
    forall i, j :: 0 <= i < |ps| && 0 <= j < |ps| ==> !(ps[i] < ps[j])
  }

  ghost predicate Layable(ps: seq<Path>) {
    Unique(ps) && Proper(ps) && Nestless(ps)
  }

  lemma {:induction false} InAllAncestors(ps: seq<Path>, q: Path)
    ensures q in AllAncestors(ps) <==> q != [] && exists j :: 0 <= j < |ps| && q < ps[j]
  {
    if ps == [] {
    } else {
      var n := |ps| - 1;
      InAllAncestors(ps[..n], q);
      AncestorsArePrefixes(ps[n], q);
      if j :| 0 <= j < |ps| && q < ps[j] && j < n { assert ps[..n][j] == ps[j]; }
    }
  }

  lemma LayableFront(ps: seq<Path>)
    requires ps != [] && Layable(ps)
    ensures Layable(ps[..|ps| - 1])
  {
  }

  /** One more file adds the directories above it. */
  lemma FileShape(stage: map<Path, Node>, p: Path, bytes: Bytes)
    requires NoLinks(stage) && !IsDir(stage, p) && forall a :: a in Ancestors(p) ==> Content(stage, a).None?
    ensures var now := WithFile(stage, p, bytes);
            && NoLinks(now)
            && (forall q :: Content(now, q) == if q == p then Some(bytes) else Content(stage, q))
            && (forall q :: IsDir(now, q) <==> IsDir(stage, q) || q in Ancestors(p))
  {
    assert p !in Ancestors(p);
    forall a | a in Ancestors(p) && a in stage ensures stage[a] == Dir { assert Content(stage, a).None?; }
  }

  /** The files laid out are those asked for; every other node is a directory above one. */
  lemma {:induction false} LayShape(ps: seq<Path>, bs: seq<Bytes>)
    requires |ps| == |bs| && Layable(ps)
    ensures NoLinks(Lay(ps, bs))
    ensures forall q :: Content(Lay(ps, bs), q).Some? <==> q in ps
    ensures forall q :: IsDir(Lay(ps, bs), q) <==> q == [] || q in AllAncestors(ps)
  {
    if ps == [] {
    } else {
      var n := |ps| - 1;
      LayableFront(ps);
      LayShape(ps[..n], bs[..n]);
      assert ps == ps[..n] + [ps[n]];
      InAllAncestors(ps[..n], ps[n]);
      forall q | q in Ancestors(ps[n]) ensures q !in ps[..n] { AncestorsArePrefixes(ps[n], q); }
      FileShape(Lay(ps[..n], bs[..n]), ps[n], bs[n]);
    }
  }

  lemma {:induction false} LayIsTree(ps: seq<Path>, bs: seq<Bytes>)
    requires |ps| == |bs| && Layable(ps)
    ensures WellFormed(Lay(ps, bs))
  {
    if ps == [] {
    } else {
      var n := |ps| - 1;
      LayableFront(ps);
      LayIsTree(ps[..n], bs[..n]);
      assert ps == ps[..n] + [ps[n]];
      LaidOnTop(ps[..n], bs[..n], ps[n], bs[n]);
    }
  }

  lemma LaidOnTop(ps: seq<Path>, bs: seq<Bytes>, p: Path, bytes: Bytes)
    requires |ps| == |bs| && Layable(ps) && WellFormed(Lay(ps, bs))
    requires p != [] && p !in ps && Nestless(ps + [p])
    ensures WellFormed(WithFile(Lay(ps, bs), p, bytes))
  {
    LayShape(ps, bs);
    CanLay(ps, bs, p);
    WithFileIsWellFormed(Lay(ps, bs), p, bytes);
  }

  /** One more file can be written if and only if it is neither above nor below another. */
  lemma CanLay(ps: seq<Path>, bs: seq<Bytes>, p: Path)
    requires |ps| == |bs| && Layable(ps) && p != [] && p !in ps
    ensures Writable(Lay(ps, bs), p) <==> Nestless(ps + [p])
  {
    var more := ps + [p];
    LayShape(ps, bs);
    InAllAncestors(ps, p);
    forall a ensures a in Ancestors(p) <==> a != [] && a < p { AncestorsArePrefixes(p, a); }
    forall i | 0 <= i < |ps| ensures more[i] == ps[i] && ps[i] in ps {}
    assert more[|ps|] == p;
    if Writable(Lay(ps, bs), p) {
      forall i, j | 0 <= i < |more| && 0 <= j < |more| ensures !(more[i] < more[j]) {
        if i < |ps| && j == |ps| { assert ps[i] in Ancestors(p) <==> ps[i] < p; }
      }
    }
  }

  lemma {:induction false} LayBytes(ps: seq<Path>, bs: seq<Bytes>, k: nat)
    requires |ps| == |bs| && Layable(ps) && k < |ps|
    ensures Content(Lay(ps, bs), ps[k]) == Some(bs[k])
  {
    var n := |ps| - 1;
    if k >= n {
    } else {
      LayableFront(ps);
      LayBytes(ps[..n], bs[..n], k);
    }
  }

  lemma LaidIsReady(nodes: map<Path, Node>, ps: seq<Path>, bs: seq<Bytes>)
    requires |ps| == |bs| && Layable(ps) && WellFormed(nodes)
    ensures Ready(Volume(nodes, Lay(ps, bs)), ps)
  {
    LayIsTree(ps, bs);
    LayShape(ps, bs);
  }

  // ---- The three kinds of trouble ------------------------------------------

  /** The path of the backup when a directory stands in its place. */
  function Inside(p: Path): Path
    requires p != []
  {
    BACKUPS + p + [p[|p| - 1]]
  }

  /** Staged bytes of `j` are replaced by the old ones of `i`. */
  ghost predicate WrongBytes(nodes: map<Path, Node>, ps: seq<Path>, i: nat, j: nat)
    requires i < |ps| && j < |ps| && ps[i] != []
  {
    Content(nodes, ps[i]).Some? && i < j && (ps[j] == BACKUPS + ps[i] || ps[j] == Inside(ps[i]))
  }

  /** Destination `j` costs `i` its backup, in a run of which `k` destinations are placed. */
  ghost predicate TakesBackup(nodes: map<Path, Node>, ps: seq<Path>, k: nat, i: nat, j: nat)
    requires i < k <= |ps| && j < |ps|
  {
    Content(nodes, ps[i]).Some? && (BACKUPS + ps[i] < ps[j] || (i < j < k && ps[j] == BACKUPS + ps[i]))
  }

  /** Destination `j` makes the backup of `i` impossible. */
  ghost predicate Blocks(nodes: map<Path, Node>, ps: seq<Path>, i: nat, j: nat)
    requires i < |ps| && j < |ps| && ps[i] != []
  {
    Content(nodes, ps[i]).Some? && (Inside(ps[i]) < ps[j] || (i <= j && ps[j] < BACKUPS + ps[i]))
  }

  /** All the trouble depends on is which files are there. */
  ghost predicate LaidOut(stage: map<Path, Node>, ps: seq<Path>) {
    && Layable(ps)
    && (forall q :: Content(stage, q).Some? <==> q in ps)
    && forall q :: q != [] ==> (IsDir(stage, q) <==> Above(ps, q))
  }

  ghost predicate Above(ps: seq<Path>, q: Path) {
    exists j :: 0 <= j < |ps| && q < ps[j]
  }

  lemma LayIsLaidOut(ps: seq<Path>, bs: seq<Bytes>)
    requires |ps| == |bs| && Layable(ps)
    ensures LaidOut(Lay(ps, bs), ps)
  {
    LayShape(ps, bs);
    forall q | q != [] ensures IsDir(Lay(ps, bs), q) <==> Above(ps, q) { InAllAncestors(ps, q); }
  }

  /** The published bytes are the staged ones if and only if every destination whose
      staged bytes are replaced was to get the same. */
  lemma BytesAreRightIff(v: Volume, ps: seq<Path>)
    requires Ready(v, ps) && LaidOut(v.stage, ps)
    ensures PlaceAll(v, ps).nodes == Publication(v, ps)
       <==> forall i, j :: 0 <= i < |ps| && 0 <= j < |ps| && WrongBytes(v.nodes, ps, i, j) ==>
              v.nodes[ps[i]].bytes == Staged(v.stage, ps[j])
  {
    PublishesExactlyIff(v, ps);
    SameBytesIff(v, ps);
  }

  lemma SameBytesIff(v: Volume, ps: seq<Path>)
    requires LaidOut(v.stage, ps)
    ensures SameBytes(v, ps)
       <==> forall i, j :: 0 <= i < |ps| && 0 <= j < |ps| && WrongBytes(v.nodes, ps, i, j) ==>
              v.nodes[ps[i]].bytes == Staged(v.stage, ps[j])
  {
    forall i, j | 0 <= i < j < |ps| ensures Overwrites(v, ps[i], ps[j]) <==> WrongBytes(v.nodes, ps, i, j) {
      OverwritesIff(v, ps, i, j);
    }
  }

  lemma OverwritesIff(v: Volume, ps: seq<Path>, i: nat, j: nat)
    requires LaidOut(v.stage, ps) && i < j < |ps|
    ensures Overwrites(v, ps[i], ps[j]) <==> WrongBytes(v.nodes, ps, i, j)
  {
    assert ps[j] in ps;
    assert BACKUPS + ps[i] < Inside(ps[i]);
  }

  /** After `k` destinations a rollback can succeed if and only if no destination takes
      the backup of one of them. */
  lemma RollbackWorksIff(v: Volume, ps: seq<Path>, k: nat)
    requires LaidOut(v.stage, ps) && k <= |ps|
    ensures BackupsHold(v, ps[..k]) <==> forall i, j :: 0 <= i < k && 0 <= j < |ps| ==>
            !TakesBackup(v.nodes, ps, k, i, j)
  {
    var done := ps[..k];
    forall i | 0 <= i < k
      ensures done[i] == ps[i]
      ensures Existing(v, done[i]) && Lost(v, done, i)
         <==> exists j :: 0 <= j < |ps| && TakesBackup(v.nodes, ps, k, i, j)
    {
      LostIff(v, ps, k, i);
    }
  }

  lemma LostIff(v: Volume, ps: seq<Path>, k: nat, i: nat)
    requires LaidOut(v.stage, ps) && i < k <= |ps|
    ensures Existing(v, ps[i]) && Lost(v, ps[..k], i)
       <==> exists j :: 0 <= j < |ps| && TakesBackup(v.nodes, ps, k, i, j)
  {
    var done := ps[..k];
    if Existing(v, ps[i]) && Lost(v, done, i) {
      if IsDir(v.stage, BACKUPS + done[i]) {
        var j :| 0 <= j < |ps| && BACKUPS + ps[i] < ps[j];
        assert TakesBackup(v.nodes, ps, k, i, j);
      } else {
        var j :| i < j < |done| && done[j] == BACKUPS + done[i];
        assert TakesBackup(v.nodes, ps, k, i, j);
      }
    }
    if j :| 0 <= j < |ps| && TakesBackup(v.nodes, ps, k, i, j) {
      if !(BACKUPS + ps[i] < ps[j]) { assert done[j] == BACKUPS + done[i]; }
    }
  }

  /** Faults aside, the publication succeeds if and only if every destination fits and
      none blocks the backup of another. */
  lemma PublicationWorksIff(v: Volume, ps: seq<Path>)
    requires LaidOut(v.stage, ps)
    ensures Possible(v, ps)
       <==> Fits(v.nodes, ps) && forall i, j :: 0 <= i < |ps| && 0 <= j < |ps| ==> !Blocks(v.nodes, ps, i, j)
  {
    forall i | 0 <= i < |ps| && Existing(v, ps[i])
      ensures Unblocked(v.stage, ps, i) <==> forall j :: 0 <= j < |ps| ==> !Blocks(v.nodes, ps, i, j)
    {
      UnblockedIff(v, ps, i);
    }
  }

  lemma UnblockedIff(v: Volume, ps: seq<Path>, i: nat)
    requires LaidOut(v.stage, ps) && i < |ps| && Existing(v, ps[i])
    ensures Unblocked(v.stage, ps, i) <==> forall j :: 0 <= j < |ps| ==> !Blocks(v.nodes, ps, i, j)
  {
    var place := BACKUPS + ps[i];
    if IsDir(v.stage, place) {
      var j :| 0 <= j < |ps| && place < ps[j];
      InsideUnblockedIff(v.stage, ps, i, j);
      forall h | 0 <= h < |ps| ensures Blocks(v.nodes, ps, i, h) <==> Inside(ps[i]) < ps[h] {}
    } else {
      FilesAbove(v.stage, ps, place, i);
      assert place < Inside(ps[i]);
      forall j | 0 <= j < |ps| ensures Blocks(v.nodes, ps, i, j) <==> i <= j && ps[j] < place {
        assert !(place < ps[j]);
      }
      assert BackupOf(v.stage, ps[i]) == place;
    }
  }

  lemma InsideUnblockedIff(stage: map<Path, Node>, ps: seq<Path>, i: nat, j: nat)
    requires LaidOut(stage, ps) && i < |ps| && j < |ps| && BACKUPS + ps[i] < ps[j]
    ensures Unblocked(stage, ps, i) <==> !Above(ps, Inside(ps[i]))
    ensures forall h :: 0 <= h < |ps| ==> !(ps[h] < BACKUPS + ps[i])
  {
    var p := ps[i];
    assert IsDir(stage, BACKUPS + p);
    forall a | a in Ancestors(Inside(p)) ensures Content(stage, a).None? {
      AncestorsArePrefixes(Inside(p), a);
      AboveBackup(stage, p, a);
      assert a < ps[j];
    }
    forall h | 0 <= h < |ps| ensures !(ps[h] < BACKUPS + p) { assert !(ps[h] < ps[j]); }
  }

  /** The files above a path are destinations; those before `i` are gone at its turn. */
  lemma FilesAbove(stage: map<Path, Node>, ps: seq<Path>, place: Path, i: nat)
    requires LaidOut(stage, ps) && i < |ps|
    ensures (forall a :: a in Ancestors(place) && Content(stage, a).Some? ==> a in ps[..i])
       <==> forall j :: i <= j < |ps| ==> !(ps[j] < place)
  {
    forall a ensures a in Ancestors(place) <==> a != [] && a < place { AncestorsArePrefixes(place, a); }
    if forall a :: a in Ancestors(place) && Content(stage, a).Some? ==> a in ps[..i] {
      forall j | i <= j < |ps| ensures !(ps[j] < place) {
        assert ps[j] in ps && ps[j] !in ps[..i];
      }
    }
    if forall j :: i <= j < |ps| ==> !(ps[j] < place) {
      forall a | a in Ancestors(place) && Content(stage, a).Some? ensures a in ps[..i] {
        var j :| 0 <= j < |ps| && ps[j] == a;
        assert ps[..i][j] == a;
      }
    }
  }

  /** Where no destination is at or below `.backups`, there is no trouble of any kind. */
  lemma NoTroubleOutsideBackups(v: Volume, ps: seq<Path>)
    requires Ready(v, ps) && LaidOut(v.stage, ps) && forall j :: 0 <= j < |ps| ==> ps[j][0] != BACKUPS[0]
    ensures PlaceAll(v, ps).nodes == Publication(v, ps)
    ensures forall k :: 0 <= k <= |ps| ==> BackupsHold(v, ps[..k])
    ensures Possible(v, ps) <==> Fits(v.nodes, ps)
  {
    forall i, j | 0 <= i < |ps| && 0 <= j < |ps|
      ensures !WrongBytes(v.nodes, ps, i, j) && !Blocks(v.nodes, ps, i, j)
      ensures forall k :: i < k <= |ps| ==> !TakesBackup(v.nodes, ps, k, i, j)
    {
      ApartFromBackups(ps[i], ps[j]);
    }
    BytesAreRightIff(v, ps);
    PublicationWorksIff(v, ps);
    forall k | 0 <= k <= |ps| ensures BackupsHold(v, ps[..k]) { RollbackWorksIff(v, ps, k); }
  }

  lemma ApartFromBackups(p: Path, q: Path)
    requires p != [] && q != [] && q[0] != BACKUPS[0]
    ensures !(BACKUPS + p <= q) && !(Inside(p) <= q) && !(q < BACKUPS + p)
  {
  }

  // ---- The smallest inputs -------------------------------------------------

  /** A tree that holds one file, `x`. */
  function OnlyX(was: Bytes): map<Path, Node> {
    map[[] := Dir, ["x"] := File(was)]
  }

  /** `x` and a destination below `.backups`, staged. */
  function TwoStaged(was: Bytes, other: Path, a: Bytes, b: Bytes): Volume {
    Volume(OnlyX(was), Lay([["x"], other], [a, b]))
  }

  lemma TwoAreReady(was: Bytes, other: Path, a: Bytes, b: Bytes)
    requires other != [] && other[0] == BACKUPS[0]
    ensures var v, ps := TwoStaged(was, other, a, b), [["x"], other];
            Ready(v, ps) && LaidOut(v.stage, ps) && Fits(v.nodes, ps) && Staged(v.stage, other) == b
  {
    var ps, bs := [["x"], other], [a, b];
    LaidIsReady(OnlyX(was), ps, bs);
    LayIsLaidOut(ps, bs);
    LayBytes(ps, bs, 1);
    FitsBesideX(was, ["x"]);
    FitsBesideX(was, other);
  }

  lemma FitsBesideX(was: Bytes, p: Path)
    requires p != [] && (p == ["x"] || p[0] == BACKUPS[0])
    ensures FitsOne(OnlyX(was), p)
  {
    forall q | q in Ancestors(p) ensures q !in OnlyX(was) { AncestorsArePrefixes(p, q); }
  }

  lemma TwoArePossible(was: Bytes, other: Path, a: Bytes, b: Bytes)
    requires other != [] && other[0] == BACKUPS[0] && !(Inside(["x"]) < other) && !(other < BACKUPS + ["x"])
    ensures Possible(TwoStaged(was, other, a, b), [["x"], other])
  {
    var v, ps := TwoStaged(was, other, a, b), [["x"], other];
    TwoAreReady(was, other, a, b);
    PublicationWorksIff(v, ps);
    assert Content(OnlyX(was), other).None?;
    assert !(["x"] < BACKUPS + ["x"]) && !(Inside(["x"]) < ["x"]);
    forall i, j | 0 <= i < 2 && 0 <= j < 2 ensures !Blocks(v.nodes, ps, i, j) {}
  }

  /** Beside an existing `x`, the destination `.backups/x/x` gets the old bytes of `x`,
      although nothing fails. */
  lemma WrongBytesExample(was: Bytes, a: Bytes, b: Bytes)
    requires was != b
    ensures var v, ps := TwoStaged(was, [".backups", "x", "x"], a, b), [["x"], [".backups", "x", "x"]];
            Ready(v, ps) && Possible(v, ps) && PlaceAll(v, ps).nodes != Publication(v, ps)
  {
    var other := [".backups", "x", "x"];
    var v, ps := TwoStaged(was, other, a, b), [["x"], other];
    TwoAreReady(was, other, a, b);
    TwoArePossible(was, other, a, b);
    InsideX();
    OldBytesDiffer(v, ps, was, b);
  }

  lemma InsideX()
    ensures Inside(["x"]) == [".backups", "x", "x"]
  {
  }

  lemma OldBytesDiffer(v: Volume, ps: seq<Path>, was: Bytes, bytes: Bytes)
    requires Ready(v, ps) && LaidOut(v.stage, ps) && |ps| == 2 && ps[1] == Inside(ps[0]) && was != bytes
    requires Content(v.nodes, ps[0]) == Some(was) && Staged(v.stage, ps[1]) == bytes
    ensures PlaceAll(v, ps).nodes != Publication(v, ps)
  {
    BytesAreRightIff(v, ps);
    assert WrongBytes(v.nodes, ps, 0, 1);
  }

  /** Beside an existing `x`, the destination `.backups/x/y` makes every failure after
      `x` impossible to undo. */
  lemma LostBackupExample(was: Bytes, a: Bytes, b: Bytes)
    ensures var v, ps := TwoStaged(was, [".backups", "x", "y"], a, b), [["x"], [".backups", "x", "y"]];
            Ready(v, ps) && Possible(v, ps) && !BackupsHold(v, ps[..1])
  {
    var other := [".backups", "x", "y"];
    var v, ps := TwoStaged(was, other, a, b), [["x"], other];
    TwoAreReady(was, other, a, b);
    TwoArePossible(was, other, a, b);
    RollbackWorksIff(v, ps, 1);
    assert BACKUPS + ["x"] == other[..2] && TakesBackup(v.nodes, ps, 1, 0, 1);
  }

  /** Beside an existing `x`, the destination `.backups` stops every publication. */
  lemma ForcedFailureExample(was: Bytes, a: Bytes, b: Bytes)
    ensures var v, ps := TwoStaged(was, [".backups"], a, b), [["x"], [".backups"]];
            Ready(v, ps) && Fits(v.nodes, ps) && !Possible(v, ps)
  {
    var other := [".backups"];
    var v, ps := TwoStaged(was, other, a, b), [["x"], other];
    TwoAreReady(was, other, a, b);
    PublicationWorksIff(v, ps);
    assert Blocks(v.nodes, ps, 0, 1);
  }
}
