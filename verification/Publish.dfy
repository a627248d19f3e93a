/** `_publish_transaction`: move staged files into the destination tree, or leave
    the tree exactly as it was.

    Any primitive operation of the forward part may fail at any time; which ones do
    is an arbitrary schedule `fails`, indexed by a clock.  The operations of the
    rollback do not fail of themselves: they fail only when the files they need are
    not there. */
module Publish {
  import opened Text
  import opened FileTree
  import opened Placing

  datatype Outcome = Published | RolledBack | RollbackIncomplete

  /** A destination that was replaced, and where its old bytes were put, if it was there. */
  datatype Record = Record(target: Path, backup: Option<Path>)

  ghost predicate SameContents(a: map<Path, Node>, b: map<Path, Node>) {
    forall q :: Content(a, q) == Content(b, q)
  }

  /** The files a failed attempt at `p` leaves in the staging area: what they were, but
      for the backup that was being written. */
  ghost predicate Disturbed(was: Volume, stage: map<Path, Node>, p: Path)
    requires p != []
  {
    forall q :: (Existing(was, p) ==> q != BackupOf(was.stage, p)) ==> Content(stage, q) == Content(was.stage, q)
  }

  // ---- What rollback relies on ---------------------------------------------

  function Targets(log: seq<Record>): (ts: seq<Path>)
    ensures |ts| == |log| && forall i :: 0 <= i < |log| ==> ts[i] == log[i].target
  {
    seq(|log|, i requires 0 <= i < |log| => log[i].target)
  }

  /** `nodes` is `before` with `targets` holding files and `created` added as
      directories. */
  ghost predicate Covers(before: map<Path, Node>, nodes: map<Path, Node>, targets: seq<Path>, created: seq<Path>) {
    && (forall p :: p in nodes <==> p in before || p in targets || p in created)
    && (forall p :: p in nodes ==>
          if p in targets then nodes[p].File?
          else if p in created then nodes[p] == Dir
          else nodes[p] == before[p])
    && (forall p :: p in targets ==> p !in created)
  }

  /** New directories, each created after the one above it. */
  ghost predicate FreshDirs(before: map<Path, Node>, created: seq<Path>) {
    && (forall k :: 0 <= k < |created| ==> created[k] !in before && created[k] != [])
    && Unique(created)
    && forall i, j :: 0 <= i < j < |created| ==> Parent(created[i]) != created[j]
  }

  /** Every replaced file has its old bytes in the staging area. */
  ghost predicate BackedUp(before: map<Path, Node>, stage: map<Path, Node>, log: seq<Record>) {
    forall k :: 0 <= k < |log| ==>
      match log[k].backup
      case None => log[k].target !in before
      case Some(b) => b == BACKUPS + log[k].target && Content(before, log[k].target).Some?
                      && Content(stage, b) == Content(before, log[k].target)
  }

  /** The log says of each destination whether it replaced a file. */
  ghost predicate Logged(before: map<Path, Node>, log: seq<Record>) {
    forall k :: 0 <= k < |log| ==> log[k].backup == if log[k].target in before then Some(BACKUPS + log[k].target)
      else None
  }

  /** Every backup the log names is a file of the staging area. */
  ghost predicate AllKept(stage: map<Path, Node>, log: seq<Record>) {
    KeptFrom(stage, log, 0)
  }

  ghost predicate KeptFrom(stage: map<Path, Node>, log: seq<Record>, k: nat) {
    forall i :: k <= i < |log| && log[i].backup.Some? ==> Content(stage, log[i].backup.value).Some?
  }

  ghost predicate Recoverable(before: map<Path, Node>, nodes: map<Path, Node>, log: seq<Record>, created: seq<Path>) {
    && Covers(before, nodes, Targets(log), created)
    && FreshDirs(before, created)
    && Unique(Targets(log))
    && forall k :: 0 <= k < |log| ==> log[k].target != []
  }

  ghost predicate Undoable(before: map<Path, Node>, now: Volume, log: seq<Record>, created: seq<Path>) {
    Recoverable(before, now.nodes, log, created) && BackedUp(before, now.stage, log)
  }

  /** The first `k` destinations of the log are files. */
  ghost predicate Standing(nodes: map<Path, Node>, log: seq<Record>, k: nat)
    requires k <= |log|
  {
    forall i :: 0 <= i < k ==> Content(nodes, log[i].target).Some?
  }

  /** All but the first `k` records have been undone, beginning at `start`. */
  ghost predicate Restored(before: map<Path, Node>, start: Volume, now: Volume, log: seq<Record>, created: seq<Path>,
                           k: nat, complete: bool)
    requires k <= |log|
  {
    && (Undoable(before, start, log, created) ==> complete && Undoable(before, now, log[..k], created))
    && (forall q :: Content(now.stage, q).Some? ==> Content(start.stage, q).Some?)
    && (complete ==> KeptFrom(start.stage, log, k))
    && Standing(now.nodes, log, k)
  }

  /** What the handler may count on, whatever became of the backups. */
  ghost predicate Loggable(before: map<Path, Node>, log: seq<Record>) {
    Unique(Targets(log)) && Logged(before, log) && forall k :: 0 <= k < |log| ==> log[k].target != []
  }

  lemma NewDirIsHarmless(stage: map<Path, Node>, q: Path)
    requires WellFormed(stage) && NoLinks(stage) && q != [] && q !in stage && IsDir(stage, Parent(q))
    ensures WellFormed(stage[q := Dir]) && NoLinks(stage[q := Dir]) && SameContents(stage, stage[q := Dir])
  {
  }

  lemma NewFileIsHarmless(stage: map<Path, Node>, b: Path, bytes: Bytes)
    requires WellFormed(stage) && NoLinks(stage) && b != [] && IsDir(stage, Parent(b)) && !IsDir(stage, b)
    ensures WellFormed(stage[b := File(bytes)]) && NoLinks(stage[b := File(bytes)])
    ensures forall q :: q != b ==> Content(stage[b := File(bytes)], q) == Content(stage, q)
  {
  }

  lemma FrontGrows(dirs: seq<Path>, k: nat)
    requires k < |dirs|
    ensures dirs[..k + 1] == dirs[..k] + [dirs[k]]
  {
  }

  lemma OneMoreDir(before: map<Path, Node>, was: map<Path, Node>, now: map<Path, Node>, made: seq<Path>, d: Path)
    requires was == WithDirs(before, Members(made)) && d !in was && now == was[d := Dir]
    ensures now == WithDirs(before, Members(made + [d]))
  {
    MoreDirs(before, made, d);
  }

  class Disk {
    var nodes: map<Path, Node>
    var stage: map<Path, Node>
    var clock: nat
    const fails: nat -> bool

    ghost predicate Valid()
      reads this
    {
      WellFormed(nodes) && WellFormed(stage) && NoLinks(stage)
    }

    ghost function Now(): Volume
      reads this
    {
      Volume(nodes, stage)
    }

    ghost predicate Faultless()
      reads this
    {
      forall n: nat :: !fails(n)
    }

    constructor (nodes: map<Path, Node>, stage: map<Path, Node>, fails: nat -> bool)
      requires WellFormed(nodes) && WellFormed(stage) && NoLinks(stage)
      ensures Valid() && this.nodes == nodes && this.stage == stage && this.fails == fails
    {
      this.nodes, this.stage, this.clock, this.fails := nodes, stage, 0, fails;
    }

    method Tick() returns (ok: bool)
      modifies this`clock
      ensures Faultless() ==> ok
    {
      ok := !fails(clock);
      clock := clock + 1;
    }

    method SafeJoin(p: Path) returns (ok: bool)
      modifies this`clock
      ensures ok ==> Joinable(nodes, p)
      ensures Faultless() && Joinable(nodes, p) ==> ok
    {
      ok := Tick();
      ok := ok && Joinable(nodes, p);
    }

    method Mkdir(p: Path) returns (ok: bool)
      requires Valid() && p != []
      modifies this`clock, this`nodes
      ensures Valid()
      ensures nodes == if ok then old(nodes)[p := Dir] else old(nodes)
      ensures ok ==> p !in old(nodes)
      ensures Faultless() && p !in old(nodes) && IsDir(old(nodes), Parent(p)) ==> ok
    {
      ok := Tick();
      ok := ok && p !in nodes && IsDir(nodes, Parent(p));
      if ok {
        nodes := nodes[p := Dir];
      }
    }

    /** `b.parent.mkdir(parents=True, exist_ok=True)` in the staging area: every directory
        above `b`, unless a file is in the way. */
    method StageParents(b: Path) returns (ok: bool)
      requires Valid() && b != []
      modifies this`clock, this`stage
      ensures Valid() && SameContents(old(stage), stage)
      ensures ok ==> NoFileAbove(old(stage), b) && IsDir(stage, Parent(b))
      ensures ok ==> stage == WithDirs(old(stage), Ancestors(b))
      ensures Faultless() && NoFileAbove(old(stage), b) ==> ok
    {
      ghost var before := stage;
      ok := true;
      assert WithDirs(before, AncestorsTo(b, 1)) == before;
      for k := 1 to |b|
        invariant Valid() && stage == WithDirs(before, AncestorsTo(b, k)) && IsDir(stage, b[..k - 1])
        invariant ok && SameContents(before, stage)
        invariant forall a :: a in AncestorsTo(b, k) ==> Content(before, a).None?
      {
        NextAncestor(before, b, k);
        assert Parent(b[..k]) == b[..k - 1];
        ok := StageDir(b[..k]);
        if !ok {
          return;
        }
      }
      assert AncestorsTo(b, |b|) == Ancestors(b) && b[..|b| - 1] == Parent(b);
    }

    method StageDir(q: Path) returns (ok: bool)
      requires Valid() && q != [] && IsDir(stage, Parent(q))
      modifies this`clock, this`stage
      ensures Valid() && SameContents(old(stage), stage)
      ensures ok ==> IsDir(stage, q) && stage == (if q in old(stage) then old(stage) else old(stage)[q := Dir])
      ensures ok ==> Content(old(stage), q).None?
      ensures !ok ==> stage == old(stage)
      ensures Faultless() && Content(old(stage), q).None? ==> ok
    {
      if q in stage {
        return stage[q] == Dir;
      }
      ok := Tick();
      if ok {
        NewDirIsHarmless(stage, q);
        stage := stage[q := Dir];
      }
    }

    /** Write a file of the staging area.  An attempt that fails may leave anything in its
        place. */
    method StageFile(b: Path, bytes: Bytes) returns (ok: bool)
      requires Valid() && b != [] && IsDir(stage, Parent(b))
      modifies this`clock, this`stage
      ensures Valid()
      ensures ok ==> !IsDir(old(stage), b) && stage == old(stage)[b := File(bytes)]
      ensures forall q :: q != b ==> Content(stage, q) == Content(old(stage), q)
      ensures Faultless() && !IsDir(old(stage), b) ==> ok
    {
      if IsDir(stage, b) {
        return false;
      }
      ok := Tick();
      var begun: bool, torn: Bytes := *, *;
      if ok || begun {
        NewFileIsHarmless(stage, b, if ok then bytes else torn);
        stage := stage[b := File(if ok then bytes else torn)];
      }
    }

    /** Keep the bytes of `p`: `mkdir`, then `copy2`, which writes into a directory when
        there is one in the place of the backup. */
    method Backup(p: Path) returns (ok: bool)
      requires Valid() && p != [] && Existing(Now(), p)
      modifies this`clock, this`stage
      ensures Valid()
      ensures ok ==> Writable(old(stage), BackupOf(old(stage), p)) && stage == WithBackup(old(Now()), p)
      ensures Disturbed(old(Now()), stage, p)
      ensures Faultless() && Writable(old(stage), BackupOf(old(stage), p)) ==> ok
    {
      ghost var was := Now();
      BackupParents(stage, p);
      ok := StageParents(BACKUPS + p);
      if !ok {
        return;
      }
      var b := BackupOf(stage, p);
      BackupPlace(was.stage, stage, p);
      ok := StageFile(b, nodes[p].bytes);
    }

    /** `os.replace` of a file from the staging area: all or nothing. */
    method Move(from: Path, p: Path) returns (ok: bool)
      requires Valid() && p != [] && (IsDir(stage, from) ==> Content(nodes, p).Some?)
      modifies this`nodes, this`stage
      ensures Valid()
      ensures ok <==> Content(old(stage), from).Some? && IsDir(old(nodes), Parent(p)) && !IsDir(old(nodes), p)
      ensures nodes == if ok then old(nodes)[p := old(stage)[from]] else old(nodes)
      ensures stage == if ok then old(stage) - {from} else old(stage)
    {
      ok := from in stage && stage[from].File? && IsDir(nodes, Parent(p)) && !IsDir(nodes, p);
      if ok {
        FilePut(nodes, p, stage[from].bytes);
        FileGone(stage, from);
        nodes := nodes[p := stage[from]];
        stage := stage - {from};
      }
    }

    method Replace(p: Path) returns (ok: bool)
      requires Valid() && p != [] && Content(stage, p).Some?
      modifies this`clock, this`nodes, this`stage
      ensures Valid()
      ensures ok ==> IsDir(old(nodes), Parent(p))
      ensures ok ==> nodes == old(nodes)[p := old(stage)[p]] && stage == old(stage) - {p}
      ensures !ok ==> nodes == old(nodes) && stage == old(stage)
      ensures Faultless() && IsDir(old(nodes), Parent(p)) && !IsDir(old(nodes), p) ==> ok
    {
      ok := Tick();
      if ok {
        ok := Move(p, p);
      }
    }

    /** `unlink(missing_ok=True)` */
    method Unlink(p: Path) returns (ok: bool)
      requires Valid()
      modifies this`nodes
      ensures Valid()
      ensures ok <==> !IsDir(old(nodes), p)
      ensures nodes == if ok then old(nodes) - {p} else old(nodes)
    {
      ok := !IsDir(nodes, p);
      if ok {
        nodes := nodes - {p};
      }
    }

    method Rmdir(p: Path)
      requires Valid() && p != []
      modifies this`nodes
      ensures Valid()
      ensures nodes == if EmptyDir(old(nodes), p) then old(nodes) - {p} else old(nodes)
    {
      if EmptyDir(nodes, p) {
        nodes := nodes - {p};
      }
    }

    /** The directories missing above `p`, outermost first. */
    method MissingParents(p: Path) returns (missing: seq<Path>, ghost base: nat)
      requires Valid() && p != []
      ensures base < |p| && missing == Chain(p, base)
      ensures p[..base] in nodes
      ensures forall k :: base < k < |p| ==> p[..k] !in nodes
    {
      missing := [];
      var cursor := Parent(p);
      while cursor != [] && cursor !in nodes
        invariant |cursor| < |p| && cursor == p[..|cursor|]
        invariant missing == Chain(p, |cursor|)
        invariant forall k :: |cursor| < k < |p| ==> p[..k] !in nodes
      {
        ChainStep(p, |cursor|);
        missing := [cursor] + missing;
        assert Parent(cursor) == p[..|cursor| - 1];
        cursor := Parent(cursor);
      }
      base := |cursor|;
    }

    /** Create directories in order: all of them, or those before the first that
        cannot be made. */
    method MakeDirs(dirs: seq<Path>) returns (ok: bool, made: seq<Path>)
      requires Valid() && forall k :: 0 <= k < |dirs| ==> dirs[k] != []
      modifies this`clock, this`nodes
      ensures Valid() && made <= dirs && (ok ==> made == dirs)
      ensures nodes == WithDirs(old(nodes), Members(made))
      ensures Faultless() && Makeable(old(nodes), dirs) ==> ok
    {
      made := [];
      ghost var before := nodes;
      assert nodes == WithDirs(before, Members(made));
      for k := 0 to |dirs|
        invariant Valid() && made == dirs[..k]
        invariant nodes == WithDirs(before, Members(made))
      {
        ghost var was := nodes;
        FrontGrows(dirs, k);
        ok := Mkdir(dirs[k]);
        if !ok {
          return;
        }
        OneMoreDir(before, was, nodes, made, dirs[k]);
        made := made + [dirs[k]];
      }
      ok := true;
    }

    /** Create the directories that are missing above `p`, outermost first. */
    method MakeParents(p: Path) returns (ok: bool, made: seq<Path>)
      requires Valid() && p != []
      modifies this`clock, this`nodes
      ensures Valid() && NewChain(old(nodes), made, p)
      ensures nodes == WithDirs(old(nodes), Members(made))
      ensures ok ==> nodes == WithDirs(old(nodes), Ancestors(p)) && Parent(p) in nodes
      ensures Faultless() && FitsOne(old(nodes), p) ==> ok
    {
      var missing, base := MissingParents(p);
      ChainIsStairs(nodes, p, base);
      if FitsOne(nodes, p) { StairsAreMakeable(nodes, Chain(p, base)); }
      ghost var before := nodes;
      ok, made := MakeDirs(missing);
      if ok { ChainIsAncestors(before, p, base); }
    }

    /** Put back one destination. */
    method RestoreOne(r: Record) returns (ok: bool)
      requires Valid() && r.target != [] && Content(nodes, r.target).Some?
      modifies this`nodes, this`stage
      ensures Valid() && Restores(r, old(Now()), Now(), ok)
    {
      if r.backup.None? {
        ok := Unlink(r.target);
      } else {
        ok := Move(r.backup.value, r.target);
      }
    }

    /** Put back what the log says, newest first. */
    method RestoreAll(log: seq<Record>, ghost created: seq<Path>, ghost before: map<Path, Node>)
        returns (complete: bool)
      requires Valid() && Loggable(before, log) && Recoverable(before, nodes, log, created)
      modifies this`nodes, this`stage
      ensures Valid()
      ensures old(Undoable(before, Now(), log, created)) ==> complete && Recoverable(before, nodes, [], created)
      ensures complete ==> old(AllKept(stage, log))
    {
      complete := true;
      ghost var start := Now();
      var k := |log|;
      assert log[..k] == log;
      TargetsStand(before, nodes, log, created);
      while k > 0
        invariant 0 <= k <= |log| && Valid() && Restored(before, start, Now(), log, created, k, complete)
      {
        k := k - 1;
        complete := RestoreNext(log, k, created, before, start, complete);
      }
      assert log[..0] == [];
    }

    /** The body of the loop. */
    method RestoreNext(log: seq<Record>, k: nat, ghost created: seq<Path>, ghost before: map<Path, Node>,
                       ghost start: Volume,
                       complete: bool) returns (complete': bool)
      requires Valid() && k < |log| && Loggable(before, log)
      requires Restored(before, start, Now(), log, created, k + 1, complete)
      modifies this`nodes, this`stage
      ensures Valid() && Restored(before, start, Now(), log, created, k, complete')
    {
      ghost var was := Now();
      var ok := RestoreOne(log[k]);
      complete' := complete && ok;
      RestoredOneMore(before, start, was, Now(), log, created, k, complete, ok);
    }

    /** Remove the directories that were made, newest first. */
    method RemoveAll(created: seq<Path>, ghost before: map<Path, Node>)
      requires Valid() && WellFormed(before) && forall k :: 0 <= k < |created| ==> created[k] != []
      modifies this`nodes
      ensures Valid()
      ensures Covers(before, old(nodes), [], created) && FreshDirs(before, created) ==> nodes == before
    {
      ghost var sound := Covers(before, nodes, [], created) && FreshDirs(before, created);
      var k := |created|;
      assert created[..k] == created;
      while k > 0
        invariant 0 <= k <= |created| && Valid()
        invariant sound ==> Covers(before, nodes, [], created[..k]) && FreshDirs(before, created[..k])
      {
        k := k - 1;
        ghost var was := nodes;
        FrontGrows(created, k);
        Rmdir(created[k]);
        if sound { OneRemoved(before, was, nodes, created[..k], created[k]); }
      }
      assert created[..0] == [];
      if sound { NothingLeft(before, nodes); }
    }

    /** The handler of the transaction: put back what the log says, then remove the
        directories that were made. */
    method Undo(log: seq<Record>, created: seq<Path>, ghost before: map<Path, Node>) returns (complete: bool)
      requires Valid() && WellFormed(before) && Loggable(before, log) && Recoverable(before, nodes, log, created)
      modifies this`nodes, this`stage
      ensures Valid()
      ensures old(Undoable(before, Now(), log, created)) ==> complete && nodes == before
      ensures complete ==> old(AllKept(stage, log))
    {
      complete := RestoreAll(log, created, before);
      assert Targets([]) == [];
      RemoveAll(created, before);
    }

    /** Keep the old bytes, if there are any, and replace. */
    method Overwrite(p: Path) returns (ok: bool, backup: Option<Path>)
      requires Valid() && p != [] && Joinable(nodes, p) && Content(stage, p).Some?
      modifies this
      ensures Valid()
      ensures ok ==> Overwritten(old(Now()), Now(), p, backup)
      ensures !ok ==> nodes == old(nodes) && Disturbed(old(Now()), stage, p)
      ensures Faultless() && IsDir(old(nodes), Parent(p)) && Spared(old(Now()), p) ==> ok
    {
      ghost var was := Now();
      backup := None;
      if p in nodes {
        backup := Some(BACKUPS + p);
        ok := Backup(p);
        if !ok {
          return;
        }
        OwnFileStays(was, p);
      }
      ok := Replace(p);
    }

    /** One destination: check the path, make the directories above it, keep the old
        bytes, replace. */
    method PublishOne(p: Path) returns (ok: bool, made: seq<Path>, backup: Option<Path>)
      requires Valid() && p != [] && Content(stage, p).Some?
      modifies this
      ensures Valid() && NewChain(old(nodes), made, p)
      ensures ok ==> Placed(old(Now()), Now(), made, p, backup)
      ensures !ok ==> nodes == WithDirs(old(nodes), Members(made)) && Disturbed(old(Now()), stage, p)
      ensures Faultless() && FitsOne(old(nodes), p) && Spared(old(Now()), p) ==> ok
    {
      ghost var v := Now();
      made, backup := [], None;
      assert nodes == WithDirs(nodes, Members([]));
      assert FitsOne(nodes, p) ==> Joinable(nodes, p) by { if FitsOne(nodes, p) { FitsIsJoinable(nodes, p); } }
      ok := SafeJoin(p);
      if !ok {
        return;
      }
      ok, made := MakeParents(p);
      if !ok {
        return;
      }
      StillJoinable(v, Now(), p);
      ghost var here := Now();
      ok, backup := Overwrite(p);
      if ok { OverwrittenIsPlaced(v, here, Now(), made, p, backup); }
    }

    /** Publish what is staged for `rels`, or take back everything.  When destination
        `reached` fails, taking back succeeds if and only if the backups of those before
        it are where they should be; without faults the publication succeeds if and only
        if it is possible at all. */
    method PublishTransaction(rels: seq<Path>) returns (outcome: Outcome, ghost reached: nat)
      requires Valid() && Ready(Now(), rels)
      modifies this
      ensures Valid()
      ensures outcome == Published ==> Now() == PlaceAll(old(Now()), rels) && Possible(old(Now()), rels)
      ensures outcome != Published ==>
                reached < |rels| && (outcome == RolledBack <==> BackupsHold(old(Now()), rels[..reached]))
      ensures outcome == RolledBack ==> nodes == old(nodes)
      ensures Faultless() && Possible(old(Now()), rels) ==> outcome == Published
    {
      var published: seq<Record> := [];
      var createdDirs: seq<Path> := [];
      ghost var v := Now();
      Initially(v, rels);
      ghost var possible := Faultless() && Possible(v, rels);
      for k := 0 to |rels|
        invariant Valid() && Progress(v, Now(), rels, k, published, createdDirs)
        invariant possible ==> Faultless() && Possible(v, rels)
      {
        var ok, complete;
        ok, complete, published, createdDirs := PublishNext(rels, k, published, createdDirs, v, possible);
        if !ok {
          outcome, reached := if complete then RolledBack else RollbackIncomplete, k;
          return;
        }
      }
      assert rels[..|rels|] == rels;
      outcome, reached := Published, |rels|;
    }

    /** The body of the loop, and the handler when it fails. */
    method PublishNext(rels: seq<Path>, k: nat, published: seq<Record>, createdDirs: seq<Path>, ghost v: Volume,
                       ghost possible: bool)
      returns (ok: bool, complete: bool, published': seq<Record>, createdDirs': seq<Path>)
      requires Valid() && Ready(v, rels) && k < |rels|
      requires Progress(v, Now(), rels, k, published, createdDirs)
      requires possible ==> Faultless() && Possible(v, rels)
      modifies this
      ensures Valid()
      ensures ok ==> Progress(v, Now(), rels, k + 1, published', createdDirs')
      ensures !ok ==> (complete <==> BackupsHold(v, rels[..k])) && (complete ==> nodes == v.nodes)
      ensures possible ==> ok
    {
      var rel := rels[k];
      ghost var was := Now();
      AtTurn(v, rels, k);
      var made, backup;
      ok, made, backup := PublishOne(rel);
      createdDirs' := createdDirs + made;
      complete, published' := true, published;
      if !ok {
        Interrupted(v, was, Now(), rels, k, published, createdDirs, made);
        complete := Undo(published, createdDirs', v.nodes);
        return;
      }
      Advanced(v, was, Now(), rels, k, published, createdDirs, made, backup);
      published' := published + [Record(rel, backup)];
    }
  }

  // ---- One step ------------------------------------------------------------

  ghost predicate NoFileAbove(stage: map<Path, Node>, b: Path) {
    forall a :: a in Ancestors(b) ==> Content(stage, a).None?
  }

  /** Nothing is in the way of the backup of `p`, if it needs one. */
  ghost predicate Spared(was: Volume, p: Path)
    requires p != []
  {
    Existing(was, p) ==> Writable(was.stage, BackupOf(was.stage, p))
  }

  ghost predicate Overwritten(was: Volume, now: Volume, p: Path, backup: Option<Path>)
    requires p != []
  {
    && IsDir(was.nodes, Parent(p)) && Spared(was, p)
    && backup == (if p in was.nodes then Some(BACKUPS + p) else None)
    && now.stage == WithBackup(was, p) - {p}
    && now.nodes == was.nodes[p := File(Staged(WithBackup(was, p), p))]
  }

  /** What one successful step did. */
  ghost predicate Placed(was: Volume, now: Volume, made: seq<Path>, p: Path, backup: Option<Path>)
    requires p != []
  {
    && now == Place(was, p) && FitsOne(was.nodes, p) && Spared(was, p)
    && backup == (if p in was.nodes then Some(BACKUPS + p) else None)
    && WithDirs(was.nodes, Members(made)) == WithDirs(was.nodes, Ancestors(p))
  }

  /** No file is above the place for a backup unless it is above the backup. */
  lemma BackupParents(stage: map<Path, Node>, p: Path)
    requires p != [] && WellFormed(stage)
    ensures Writable(stage, BackupOf(stage, p)) ==> NoFileAbove(stage, BACKUPS + p)
  {
    var b := BackupOf(stage, p);
    if b != BACKUPS + p {
      forall a | a in Ancestors(BACKUPS + p) ensures a in Ancestors(b) {
        AncestorsArePrefixes(BACKUPS + p, a);
        AncestorsArePrefixes(b, a);
      }
    }
  }

  /** With the directories made, the backup goes where it would have gone before. */
  lemma BackupPlace(was: map<Path, Node>, now: map<Path, Node>, p: Path)
    requires p != [] && WellFormed(was) && NoLinks(was)
    requires NoFileAbove(was, BACKUPS + p) && now == WithDirs(was, Ancestors(BACKUPS + p))
             && IsDir(now, Parent(BACKUPS + p))
    ensures var b := BackupOf(was, p);
            && BackupOf(now, p) == b && IsDir(now, Parent(b))
            && (IsDir(now, b) <==> IsDir(was, b)) && NoFileAbove(was, b)
            && forall bytes :: now[b := File(bytes)] == WithFile(was, b, bytes)
  {
    var place := BACKUPS + p;
    assert place !in Ancestors(place);
    if IsDir(was, place) { BackupInside(was, now, p); }
  }

  lemma BackupInside(was: map<Path, Node>, now: map<Path, Node>, p: Path)
    requires p != [] && WellFormed(was) && IsDir(was, BACKUPS + p) && now == WithDirs(was, Ancestors(BACKUPS + p))
    ensures now == was && WithDirs(was, Ancestors(BackupOf(was, p))) == was && NoFileAbove(was, BackupOf(was, p))
    ensures Parent(BackupOf(was, p)) == BACKUPS + p
  {
    var place, b := BACKUPS + p, BackupOf(was, p);
    forall a | a in Ancestors(b) || a in Ancestors(place) ensures IsDir(was, a) {
      AncestorsArePrefixes(b, a);
      AncestorsArePrefixes(place, a);
      AboveBackup(was, p, a);
      if a != place {
        AboveIsDir(was, place, |a|);
        assert place[..|a|] == a;
      }
    }
  }

  lemma OwnFileStays(was: Volume, p: Path)
    requires p != [] && Content(was.stage, p).Some?
    ensures Content(WithBackup(was, p), p) == Content(was.stage, p)
  {
    assert |BackupOf(was.stage, p)| > |p|;
  }

  lemma StillJoinable(v: Volume, now: Volume, p: Path)
    requires p != [] && Joinable(v.nodes, p) && now == Volume(WithDirs(v.nodes, Ancestors(p)), v.stage)
    requires Parent(p) in now.nodes
    ensures Joinable(now.nodes, p)
    ensures p in now.nodes <==> p in v.nodes
    ensures Content(now.nodes, p) == Content(v.nodes, p)
    ensures FitsOne(v.nodes, p) ==> IsDir(now.nodes, Parent(p)) || Parent(p) == []
  {
    assert p !in Ancestors(p);
    assert |p| > 1 ==> Parent(p) in Ancestors(p);
  }

  lemma OverwrittenIsPlaced(v: Volume, here: Volume, now: Volume, made: seq<Path>, p: Path, backup: Option<Path>)
    requires p != [] && Joinable(v.nodes, p) && WellFormed(here.nodes)
    requires here == Volume(WithDirs(v.nodes, Ancestors(p)), v.stage)
    requires WithDirs(v.nodes, Members(made)) == here.nodes
    requires Overwritten(here, now, p, backup)
    ensures Placed(v, now, made, p, backup)
  {
    assert p !in Ancestors(p);
    forall a | a in Ancestors(p) && a in v.nodes ensures v.nodes[a] == Dir {
      AncestorsArePrefixes(p, a);
      if a != Parent(p) {
        AboveIsDir(here.nodes, Parent(p), |a|);
        assert Parent(p)[..|a|] == a;
      } else {
        assert IsDir(here.nodes, a);
      }
    }
  }

  // ---- The run of the transaction ------------------------------------------

  /** After `k` destinations. */
  ghost predicate Progress(v: Volume, now: Volume, rels: seq<Path>, k: nat, log: seq<Record>, created: seq<Path>)
    requires Proper(rels)
  {
    && k <= |rels|
    && now == PlaceAll(v, rels[..k])
    && Targets(log) == rels[..k]
    && Recoverable(v.nodes, now.nodes, log, created)
    && Logged(v.nodes, log)
    && Possible(v, rels[..k])
  }

  lemma Initially(v: Volume, rels: seq<Path>)
    requires Proper(rels)
    ensures Progress(v, v, rels, 0, [], [])
  {
    assert rels[..0] == [];
  }

  /** A destination can be placed at its turn if and only if it could from the start. */
  lemma AtTurn(v: Volume, rels: seq<Path>, k: nat)
    requires Ready(v, rels) && k < |rels|
    ensures var was, p := PlaceAll(v, rels[..k]), rels[k];
            && Content(was.stage, p).Some? && Content(was.nodes, p) == Content(v.nodes, p)
            && (FitsOne(was.nodes, p) <==> FitsOne(v.nodes, p))
            && (Spared(was, p) <==> (Existing(v, p) ==> Unblocked(v.stage, rels, k)))
  {
    var p := rels[k];
    ReadyTo(v, rels, k);
    assert p !in rels[..k];
    FileStays(v, rels[..k], p);
    StillExisting(v, rels[..k], p);
    FitsAtTurn(v, rels[..k], p);
    if Existing(v, p) { UnblockedAtTurn(v, rels, k); }
  }

  lemma PossibleSnoc(v: Volume, rels: seq<Path>, k: nat)
    requires Proper(rels) && k < |rels|
    ensures Possible(v, rels[..k + 1])
       <==> Possible(v, rels[..k]) && FitsOne(v.nodes, rels[k])
            && (Existing(v, rels[k]) ==> Unblocked(v.stage, rels, k))
  {
    var more := rels[..k + 1];
    forall i | 0 <= i <= k ensures more[i] == rels[i] && more[..i] == rels[..i] {}
    forall i | 0 <= i < k ensures rels[..k][i] == rels[i] && rels[..k][..i] == rels[..i] {}
  }

  lemma Advanced(v: Volume, was: Volume, now: Volume, rels: seq<Path>, k: nat, log: seq<Record>, created: seq<Path>,
                 made: seq<Path>, backup: Option<Path>)
    requires Ready(v, rels) && k < |rels| && WellFormed(was.nodes)
    requires Progress(v, was, rels, k, log, created)
    requires NewChain(was.nodes, made, rels[k]) && Placed(was, now, made, rels[k], backup)
    ensures Progress(v, now, rels, k + 1, log + [Record(rels[k], backup)], created + made)
  {
    var p := rels[k];
    AtTurn(v, rels, k);
    PossibleSnoc(v, rels, k);
    AdvancedList(v, was, rels, k, log, backup);
    MoreCreated(v.nodes, was.nodes, log, created, made, p);
    MorePublished(v.nodes, was.nodes, log, created, made, p, backup, Staged(WithBackup(was, p), p));
    StillLogged(v, was, rels, k, log, backup);
  }

  lemma StillLogged(v: Volume, was: Volume, rels: seq<Path>, k: nat, log: seq<Record>, backup: Option<Path>)
    requires Ready(v, rels) && k < |rels| && was == PlaceAll(v, rels[..k]) && Logged(v.nodes, log)
    requires FitsOne(was.nodes, rels[k]) && backup == (if rels[k] in was.nodes then Some(BACKUPS + rels[k]) else None)
    ensures Logged(v.nodes, log + [Record(rels[k], backup)])
  {
    AtTurn(v, rels, k);
    ReadyTo(v, rels, k);
    NodesAfter(v, rels[..k]);
  }

  lemma AdvancedList(v: Volume, was: Volume, rels: seq<Path>, k: nat, log: seq<Record>, backup: Option<Path>)
    requires k < |rels| && Unique(rels) && Proper(rels) && Targets(log) == rels[..k] && was == PlaceAll(v, rels[..k])
    ensures PlaceAll(v, rels[..k + 1]) == Place(was, rels[k])
    ensures Targets(log + [Record(rels[k], backup)]) == rels[..k + 1] && rels[k] !in Targets(log)
  {
    assert rels[..k + 1][..k] == rels[..k];
    assert Targets(log + [Record(rels[k], backup)]) == Targets(log) + [rels[k]];
  }

  lemma Interrupted(v: Volume, was: Volume, now: Volume, rels: seq<Path>, k: nat, log: seq<Record>, created: seq<Path>,
                    made: seq<Path>)
    requires Ready(v, rels) && k < |rels| && WellFormed(was.nodes)
    requires Progress(v, was, rels, k, log, created)
    requires NewChain(was.nodes, made, rels[k]) && now.nodes == WithDirs(was.nodes, Members(made))
    requires Disturbed(was, now.stage, rels[k])
    ensures Recoverable(v.nodes, now.nodes, log, created + made) && Loggable(v.nodes, log)
    ensures BackupsHold(v, rels[..k]) ==> BackedUp(v.nodes, now.stage, log)
    ensures AllKept(now.stage, log) ==> BackupsHold(v, rels[..k])
  {
    MoreCreated(v.nodes, was.nodes, log, created, made, rels[k]);
    forall i | 0 <= i < k
      ensures log[i].target == rels[i] && (rels[i] in v.nodes ==> Existing(v, rels[i]))
      ensures Existing(v, rels[i]) ==>
                Content(now.stage, BACKUPS + rels[i]) == if Lost(v, rels[..k], i) then None
                  else Content(v.nodes, rels[i])
    {
      assert Targets(log)[i] == rels[i] && rels[..k][i] == rels[i];
      if Existing(v, rels[i]) { BackupWhenInterrupted(v, was, now, rels, k, i); }
    }
  }

  /** What became of the backup of destination `i` when destination `k` fails. */
  lemma BackupWhenInterrupted(v: Volume, was: Volume, now: Volume, rels: seq<Path>, k: nat, i: nat)
    requires Ready(v, rels) && i < k < |rels| && was == PlaceAll(v, rels[..k]) && Existing(v, rels[i])
    requires Disturbed(was, now.stage, rels[k])
    ensures Content(now.stage, BACKUPS + rels[i]) == if Lost(v, rels[..k], i) then None else Content(v.nodes, rels[i])
  {
    ReadyTo(v, rels, k);
    AtTurn(v, rels, k);
    assert rels[..k][i] == rels[i];
    BackupAfter(v, rels[..k], i);
    if Existing(v, rels[k]) { BackupsApart(v.nodes, was.stage, rels[i], rels[k]); }
  }

  lemma MoreCreated(before: map<Path, Node>, was: map<Path, Node>, log: seq<Record>, created: seq<Path>,
                    made: seq<Path>, p: Path)
    requires WellFormed(was) && Recoverable(before, was, log, created) && NewChain(was, made, p)
    ensures Recoverable(before, WithDirs(was, Members(made)), log, created + made)
  {
    var all := created + made;
    forall i, j | 0 <= i < j < |all| ensures all[i] != all[j] && Parent(all[i]) != all[j] {
      if j >= |created| {
        assert all[j] !in was;
        if i < |created| { assert created[i] in created; }
      }
    }
    assert forall q :: q in all <==> q in created || q in made;
  }

  lemma MorePublished(before: map<Path, Node>, was: map<Path, Node>, log: seq<Record>, created: seq<Path>,
                      made: seq<Path>, p: Path, backup: Option<Path>, bytes: Bytes)
    requires p != [] && p !in Targets(log) && NewChain(was, made, p)
    requires p in was ==> was[p].File?
    requires Recoverable(before, WithDirs(was, Members(made)), log, created + made)
    ensures Recoverable(before, WithDirs(was, Members(made))[p := File(bytes)], log + [Record(p, backup)],
                        created + made)
  {
    var more := log + [Record(p, backup)];
    assert Targets(more) == Targets(log) + [p];
    assert p !in made by { assert p !in Ancestors(p); }
    assert p !in created + made;
  }

  // ---- Undoing -------------------------------------------------------------

  /** What undoing one record does. */
  ghost predicate Restores(r: Record, was: Volume, now: Volume, ok: bool)
    requires r.target != []
  {
    (!ok ==> now == was) &&
    match r.backup
    case None =>
      (ok <==> !IsDir(was.nodes, r.target)) && (ok ==> now.nodes == was.nodes - {r.target}) && now.stage == was.stage
    case Some(b) =>
      && (ok <==> Content(was.stage, b).Some? && IsDir(was.nodes, Parent(r.target)) && !IsDir(was.nodes, r.target))
      && (ok ==> now.nodes == was.nodes[r.target := was.stage[b]] && now.stage == was.stage - {b})
  }

  lemma TargetsFront(log: seq<Record>)
    requires log != []
    ensures var n := |log| - 1;
            Targets(log[..n]) == Targets(log)[..n] && Targets(log) == Targets(log[..n]) + [log[n].target]
  {
  }

  /** Undoing a record gives its target back what it was. */
  lemma RestoresOld(before: map<Path, Node>, was: Volume, now: Volume, log: seq<Record>, ok: bool)
    requires log != [] && BackedUp(before, was.stage, log)
    requires var t := log[|log| - 1].target;
             t != [] && t in was.nodes && was.nodes[t].File? && IsDir(was.nodes, Parent(t))
    requires Restores(log[|log| - 1], was, now, ok)
    ensures var t := log[|log| - 1].target;
            ok && now.nodes == if t in before then was.nodes[t := before[t]] else was.nodes - {t}
    ensures var r := log[|log| - 1];
            now.stage == if r.backup.Some? then was.stage - {r.backup.value} else was.stage
  {
    assert log[|log| - 1].backup.None? || log[|log| - 1].backup.Some?;
  }

  /** Undoing the last record leaves the shorter log recoverable. */
  lemma OneRestored(before: map<Path, Node>, was: Volume, now: Volume, log: seq<Record>, created: seq<Path>, ok: bool)
    requires log != [] && WellFormed(was.nodes)
    requires forall k :: 0 <= k < |log| ==> log[k].target != []
    requires Recoverable(before, was.nodes, log, created) && BackedUp(before, was.stage, log)
    requires Restores(log[|log| - 1], was, now, ok)
    ensures ok && Recoverable(before, now.nodes, log[..|log| - 1], created)
            && BackedUp(before, now.stage, log[..|log| - 1])
  {
    var n := |log| - 1;
    TargetsFront(log);
    TargetIsFile(before, was.nodes, log, created);
    RestoresOld(before, was, now, log, ok);
    Uncovered(before, was.nodes, now.nodes, Targets(log[..n]), log[n].target, created);
    BackupsStay(before, was.stage, now.stage, log);
  }

  lemma RestoredOneMore(before: map<Path, Node>, start: Volume, was: Volume, now: Volume, log: seq<Record>,
                        created: seq<Path>,
                        k: nat, complete: bool, ok: bool)
    requires WellFormed(was.nodes) && k < |log| && Loggable(before, log)
    requires Restored(before, start, was, log, created, k + 1, complete)
    requires Restores(log[k], was, now, ok)
    ensures Restored(before, start, now, log, created, k, complete && ok)
  {
    var here := log[..k + 1];
    assert here[k] == log[k] && log[..k] == here[..k];
    if Undoable(before, start, log, created) { OneRestored(before, was, now, here, created, ok); }
    OthersStand(was, now, log, k, ok);
    NoBackupAppears(log[k], was, now, ok);
    if complete && ok { OneMoreKept(start, was, now, log, k); }
  }

  lemma OthersStand(was: Volume, now: Volume, log: seq<Record>, k: nat, ok: bool)
    requires k < |log| && Unique(Targets(log)) && log[k].target != []
    requires Standing(was.nodes, log, k + 1) && Restores(log[k], was, now, ok)
    ensures Standing(now.nodes, log, k)
  {
    forall i | 0 <= i < k ensures Content(now.nodes, log[i].target) == Content(was.nodes, log[i].target) {
      assert Targets(log)[i] != Targets(log)[k];
    }
  }

  lemma NoBackupAppears(r: Record, was: Volume, now: Volume, ok: bool)
    requires r.target != [] && Restores(r, was, now, ok)
    ensures forall q :: Content(now.stage, q).Some? ==> Content(was.stage, q).Some?
  {
  }

  /** A backup that could be moved back was there from the start. */
  lemma OneMoreKept(start: Volume, was: Volume, now: Volume, log: seq<Record>, k: nat)
    requires k < |log| && log[k].target != [] && Restores(log[k], was, now, true)
    requires KeptFrom(start.stage, log, k + 1)
    requires forall q :: Content(was.stage, q).Some? ==> Content(start.stage, q).Some?
    ensures KeptFrom(start.stage, log, k)
  {
  }

  lemma TargetsStand(before: map<Path, Node>, nodes: map<Path, Node>, log: seq<Record>, created: seq<Path>)
    requires Recoverable(before, nodes, log, created)
    ensures Standing(nodes, log, |log|)
  {
    forall i | 0 <= i < |log| ensures Content(nodes, log[i].target).Some? {
      assert Targets(log)[i] in Targets(log);
    }
  }

  lemma TargetIsFile(before: map<Path, Node>, nodes: map<Path, Node>, log: seq<Record>, created: seq<Path>)
    requires log != [] && WellFormed(nodes) && Recoverable(before, nodes, log, created)
    ensures var t := log[|log| - 1].target;
            t in nodes && nodes[t].File? && t !in Targets(log[..|log| - 1]) && t != [] && IsDir(nodes, Parent(t))
  {
    var n := |log| - 1;
    TargetsFront(log);
    assert Targets(log)[n] in Targets(log);
    assert Targets(log[..n]) == Targets(log)[..n];
  }

  lemma Uncovered(before: map<Path, Node>, was: map<Path, Node>, now: map<Path, Node>, ts: seq<Path>, t: Path,
                  created: seq<Path>)
    requires Covers(before, was, ts + [t], created) && t !in ts
    requires now == if t in before then was[t := before[t]] else was - {t}
    ensures Covers(before, now, ts, created)
  {
    assert forall p :: p in ts + [t] <==> p in ts || p == t;
  }

  lemma BackupsStay(before: map<Path, Node>, was: map<Path, Node>, now: map<Path, Node>, log: seq<Record>)
    requires log != [] && Unique(Targets(log)) && BackedUp(before, was, log)
    requires var r := log[|log| - 1]; now == if r.backup.Some? then was - {r.backup.value} else was
    ensures BackedUp(before, now, log[..|log| - 1])
  {
    var n := |log| - 1;
    forall k | 0 <= k < n ensures log[k].backup.Some? && log[n].backup.Some? ==> log[k].backup != log[n].backup {
      assert Targets(log)[k] != Targets(log)[n];
      BackupsDiffer(log[k].target, log[n].target);
    }
  }

  lemma BackupsDiffer(a: Path, b: Path)
    requires a != b
    ensures BACKUPS + a != BACKUPS + b
  {
    assert (BACKUPS + a)[1..] == a && (BACKUPS + b)[1..] == b;
  }

  /** The directory made last is empty when its turn comes. */
  lemma LastDirIsEmpty(before: map<Path, Node>, was: map<Path, Node>, created: seq<Path>)
    requires WellFormed(before)
    requires created != [] && Covers(before, was, [], created) && FreshDirs(before, created)
    ensures EmptyDir(was, created[|created| - 1])
  {
    var n := |created| - 1;
    var d := created[n];
    assert d in created;
    forall q | q in was && q != [] ensures Parent(q) != d {
      if q in before {
        assert Parent(q) in before;
      } else {
        var i :| 0 <= i < |created| && created[i] == q;
        if i == n { assert |Parent(q)| < |d|; }
      }
    }
  }

  lemma DirUncovered(before: map<Path, Node>, was: map<Path, Node>, front: seq<Path>, d: Path)
    requires Covers(before, was, [], front + [d]) && d !in before && d !in front
    ensures Covers(before, was - {d}, [], front)
  {
    assert forall p :: p in front + [d] <==> p in front || p == d;
  }

  lemma FreshFront(before: map<Path, Node>, front: seq<Path>, d: Path)
    requires FreshDirs(before, front + [d])
    ensures FreshDirs(before, front) && d !in before && d !in front
  {
    var all := front + [d];
    assert forall i :: 0 <= i < |front| ==> all[i] == front[i];
    assert all[|front|] == d;
  }

  lemma OneRemoved(before: map<Path, Node>, was: map<Path, Node>, now: map<Path, Node>, front: seq<Path>, d: Path)
    requires WellFormed(before)
    requires Covers(before, was, [], front + [d]) && FreshDirs(before, front + [d])
    requires now == if EmptyDir(was, d) then was - {d} else was
    ensures Covers(before, now, [], front) && FreshDirs(before, front)
  {
    LastDirIsEmpty(before, was, front + [d]);
    FreshFront(before, front, d);
    DirUncovered(before, was, front, d);
  }

  lemma NothingLeft(before: map<Path, Node>, nodes: map<Path, Node>)
    requires Covers(before, nodes, [], [])
    ensures nodes == before
  {
    assert nodes.Keys == before.Keys;
  }
}
