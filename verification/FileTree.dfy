/** File trees as maps from paths to nodes. */
module FileTree {
  import opened Text

  /** Components below the root of a tree; `[]` is the root. */
  type Path = seq<string>
  type Bytes = string

  datatype Node = File(bytes: Bytes) | Dir | Link

  function Parent(p: Path): Path
    requires p != []
  {
    p[..|p| - 1]
  }

  predicate IsDir(nodes: map<Path, Node>, p: Path) {
    p in nodes && nodes[p] == Dir
  }

  predicate EmptyDir(nodes: map<Path, Node>, p: Path) {
    IsDir(nodes, p) && forall q :: q in nodes && q != [] ==> Parent(q) != p
  }

  /** The bytes at a path, if there is a file. */
  function Content(nodes: map<Path, Node>, p: Path): Option<Bytes> {
    if p in nodes && nodes[p].File? then Some(nodes[p].bytes) else None
  }

  ghost predicate WellFormed(nodes: map<Path, Node>) {
    IsDir(nodes, []) && forall p :: p in nodes && p != [] ==> IsDir(nodes, Parent(p))
  }

  ghost predicate NoLinks(nodes: map<Path, Node>) {
    forall q :: q in nodes ==> nodes[q] != Link
  }

  predicate LinkFree(nodes: map<Path, Node>, p: Path) {
    forall k :: 0 < k <= |p| ==> p[..k] !in nodes || nodes[p[..k]] != Link
  }

  /** What `_safe_join` asks of a destination. */
  predicate Joinable(nodes: map<Path, Node>, p: Path) {
    LinkFree(nodes, p) && (p in nodes ==> nodes[p].File?)
  }

  ghost predicate Unique(ps: seq<Path>) {
    forall i, j :: 0 <= i < j < |ps| ==> ps[i] != ps[j]
  }

  /** Proper, nonempty prefixes. */
  function Ancestors(p: Path): set<Path> {
    set k | 0 < k < |p| :: p[..k]
  }

  function Members(ps: seq<Path>): set<Path> {
    set q | q in ps
  }

  function WithDirs(nodes: map<Path, Node>, dirs: set<Path>): map<Path, Node> {
    map p | p in nodes.Keys + dirs :: if p in nodes then nodes[p] else Dir
  }

  /** A file in its place, with the directories above it. */
  function WithFile(nodes: map<Path, Node>, p: Path, bytes: Bytes): map<Path, Node> {
    WithDirs(nodes, Ancestors(p))[p := File(bytes)]
  }

  ghost predicate DirsAbove(nodes: map<Path, Node>, p: Path) {
    forall a :: a in Ancestors(p) && a in nodes ==> nodes[a] == Dir
  }

  /** `p` can be a file: it is no directory or link, and no file is above it. */
  ghost predicate FitsOne(nodes: map<Path, Node>, p: Path) {
    (p in nodes ==> nodes[p].File?) && DirsAbove(nodes, p)
  }

  // ---- Laws ----------------------------------------------------------------

  lemma AncestorsArePrefixes(p: Path, a: Path)
    ensures a in Ancestors(p) <==> a != [] && a < p
  {
    if a != [] && a < p { assert p[..|a|] == a; }
  }

  /** Everything above a node is a directory. */
  lemma {:induction false} AboveIsDir(nodes: map<Path, Node>, p: Path, k: nat)
    requires WellFormed(nodes) && p in nodes && k < |p|
    ensures IsDir(nodes, p[..k])
    decreases |p| - k
  {
    if k == |p| - 1 {
      assert Parent(p) == p[..k];
    } else {
      AboveIsDir(nodes, p, k + 1);
      assert Parent(p[..k + 1]) == p[..k];
    }
  }

  /** No file is above another node. */
  lemma FilesApart(nodes: map<Path, Node>, p: Path, q: Path)
    requires WellFormed(nodes) && Content(nodes, p).Some? && q in nodes
    ensures !(p < q)
  {
    if p < q {
      assert q[..|p|] == p;
      AboveIsDir(nodes, q, |p|);
    }
  }

  lemma WithFileIsWellFormed(nodes: map<Path, Node>, p: Path, bytes: Bytes)
    requires WellFormed(nodes) && p != [] && FitsOne(nodes, p)
    ensures WellFormed(WithFile(nodes, p, bytes))
  {
    var now := WithFile(nodes, p, bytes);
    forall q | q in now && q != [] ensures IsDir(now, Parent(q)) {
      AncestorsArePrefixes(p, q);
      AncestorsArePrefixes(p, Parent(q));
      if q in nodes {
        assert IsDir(nodes, Parent(q));
      }
    }
  }

  lemma FilePut(nodes: map<Path, Node>, p: Path, bytes: Bytes)
    requires WellFormed(nodes) && p != [] && IsDir(nodes, Parent(p)) && !IsDir(nodes, p)
    ensures WellFormed(nodes[p := File(bytes)])
  {
  }

  lemma FileGone(nodes: map<Path, Node>, p: Path)
    requires WellFormed(nodes) && Content(nodes, p).Some?
    ensures WellFormed(nodes - {p})
  {
  }

  lemma FitsIsJoinable(nodes: map<Path, Node>, p: Path)
    requires FitsOne(nodes, p) && p != []
    ensures Joinable(nodes, p)
  {
    forall k | 0 < k <= |p| ensures p[..k] !in nodes || nodes[p[..k]] != Link {
      if k == |p| { assert p[..k] == p; } else { assert p[..k] in Ancestors(p); }
    }
  }

  lemma MoreDirs(nodes: map<Path, Node>, dirs: seq<Path>, d: Path)
    requires d !in nodes
    ensures WithDirs(nodes, Members(dirs))[d := Dir] == WithDirs(nodes, Members(dirs + [d]))
  {
    var more := dirs + [d];
    assert Members(more) == Members(dirs) + {d} by {
      assert more[|dirs|] == d;
      assert forall q :: q in dirs ==> q in more;
    }
  }

  // ---- Missing directories -------------------------------------------------

  /** The proper prefixes of `p` longer than `base`, shortest first. */
  function Chain(p: Path, base: nat): (c: seq<Path>)
    requires base < |p|
    ensures |c| == |p| - 1 - base && forall k :: 0 <= k < |c| ==> c[k] == p[..base + 1 + k]
  {
    seq(|p| - 1 - base, k requires 0 <= k < |p| - 1 - base => p[..base + 1 + k])
  }

  lemma ChainStep(p: Path, base: nat)
    requires 0 < base < |p|
    ensures Chain(p, base - 1) == [p[..base]] + Chain(p, base)
  {
  }

  /** New directories on the way to `p`, outermost first. */
  ghost predicate NewChain(nodes: map<Path, Node>, made: seq<Path>, p: Path) {
    && (forall k :: 0 <= k < |made| ==> made[k] !in nodes && made[k] in Ancestors(p))
    && forall i, j :: 0 <= i < j < |made| ==> |made[i]| < |made[j]|
  }

  /** Directories that can be made one after the other. */
  ghost predicate Stairs(nodes: map<Path, Node>, dirs: seq<Path>) {
    forall k :: 0 <= k < |dirs| ==>
      dirs[k] != [] && dirs[k] !in nodes && dirs[k] !in dirs[..k]
      && if k == 0 then IsDir(nodes, Parent(dirs[k])) else Parent(dirs[k]) == dirs[k - 1]
  }

  lemma StairsGoOn(nodes: map<Path, Node>, dirs: seq<Path>, k: nat)
    requires Stairs(nodes, dirs) && k < |dirs|
    ensures var here := WithDirs(nodes, Members(dirs[..k])); dirs[k] !in here && IsDir(here, Parent(dirs[k]))
  {
    var before := dirs[..k];
    assert dirs[k] != [] && dirs[k] !in nodes && dirs[k] !in before;
    if k > 0 {
      assert before[k - 1] == dirs[k - 1];
      assert dirs[k - 1] in Members(before) && dirs[k - 1] !in nodes;
      assert Parent(dirs[k]) == dirs[k - 1];
    } else {
      assert before == [] && IsDir(nodes, Parent(dirs[k]));
    }
  }

  /** Each directory can be made when those before it have been. */
  ghost predicate Makeable(nodes: map<Path, Node>, dirs: seq<Path>) {
    forall k :: 0 <= k < |dirs| ==>
      var here := WithDirs(nodes, Members(dirs[..k]));
      dirs[k] != [] && dirs[k] !in here && IsDir(here, Parent(dirs[k]))
  }

  lemma StairsAreMakeable(nodes: map<Path, Node>, dirs: seq<Path>)
    requires Stairs(nodes, dirs)
    ensures Makeable(nodes, dirs)
  {
    forall k | 0 <= k < |dirs|
      ensures var here := WithDirs(nodes, Members(dirs[..k])); dirs[k] !in here && IsDir(here, Parent(dirs[k]))
    {
      StairsGoOn(nodes, dirs, k);
    }
  }

  lemma ChainIsStairs(nodes: map<Path, Node>, p: Path, base: nat)
    requires WellFormed(nodes) && base < |p| && p[..base] in nodes
    requires forall k :: base < k < |p| ==> p[..k] !in nodes
    ensures NewChain(nodes, Chain(p, base), p)
    ensures FitsOne(nodes, p) ==> Stairs(nodes, Chain(p, base))
  {
    var c := Chain(p, base);
    forall k | 0 <= k < |c| ensures c[k] !in c[..k] && c[k] in Ancestors(p) && Parent(c[k]) == p[..base + k] {
      assert forall i :: 0 <= i < k ==> |c[..k][i]| < |c[k]|;
    }
    if base > 0 { assert p[..base] in Ancestors(p); }
  }

  lemma ChainIsAncestors(nodes: map<Path, Node>, p: Path, base: nat)
    requires WellFormed(nodes) && base < |p| && p[..base] in nodes
    ensures WithDirs(nodes, Members(Chain(p, base))) == WithDirs(nodes, Ancestors(p))
    ensures Parent(p) in WithDirs(nodes, Ancestors(p))
  {
    var c := Chain(p, base);
    forall a | a in Ancestors(p) ensures a in nodes || a in c {
      var k :| 0 < k < |p| && p[..k] == a;
      if k > base {
        assert c[k - base - 1] == a;
      } else if k < base {
        AboveIsDir(nodes, p[..base], k);
        assert p[..base][..k] == a;
      }
    }
    forall a | a in c ensures a in Ancestors(p) {
    }
    assert |p| > 1 ==> Parent(p) in Ancestors(p);
  }

  /** The ancestors shorter than `k`. */
  function AncestorsTo(p: Path, k: nat): set<Path>
    requires k <= |p|
  {
    set i | 0 < i < k :: p[..i]
  }

  lemma NextAncestor(nodes: map<Path, Node>, p: Path, k: nat)
    requires 0 < k < |p|
    ensures var here := WithDirs(nodes, AncestorsTo(p, k));
            WithDirs(nodes, AncestorsTo(p, k + 1)) == if p[..k] in here then here else here[p[..k] := Dir]
    ensures p[..k] in WithDirs(nodes, AncestorsTo(p, k)) <==> p[..k] in nodes
    ensures AncestorsTo(p, k + 1) == AncestorsTo(p, k) + {p[..k]}
  {
    assert AncestorsTo(p, k + 1) == AncestorsTo(p, k) + {p[..k]};
    forall i | 0 < i < k ensures p[..i] != p[..k] { assert |p[..i]| == i; }
  }
}
