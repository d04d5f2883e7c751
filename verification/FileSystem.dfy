/** An in-memory file system whose methods are the system calls the agent issues. Every call that
    changes the disk may also fail with EIO, at any moment and without explanation; symbolic links
    and other processes are not part of it. */
module FileSystem {
  import opened Text
  import opened Paths

  newtype Byte = b: int | 0 <= b < 256
  type Bytes = seq<Byte>

  datatype Option<+T> = None | Some(value: T)

  datatype Meta = Meta(uid: nat, gid: nat, mode: nat)

  datatype Node = Dir(meta: Meta) | File(meta: Meta, data: Bytes)

  datatype Errno = OK | ENOENT | EEXIST | ENOTDIR | EISDIR | ENOTEMPTY | EINVAL | EIO

  /** A whole disk: the node stored at each absolute path. */
  type Tree = map<Path, Node>

  const ROOT := Meta(0, 0, 0)

  /** The root is a directory and every other node's parent is a directory. */
  ghost predicate WellFormed(t: Tree) {
    && [] in t && t[[]].Dir?
    && forall p :: p in t && p != [] ==> Parent(p) in t && t[Parent(p)].Dir?
  }

  predicate IsDir(t: Tree, p: Path) {
    p in t && t[p].Dir?
  }

  lemma {:induction false} AncestorsAreDirs(t: Tree, p: Path, q: Path)
    requires WellFormed(t) && p in t && q < p
    ensures IsDir(t, q)
    decreases |p|
  {
    if q != Parent(p) {
      AncestorsAreDirs(t, Parent(p), q);
    }
  }

  lemma PrefixOfParent(q: Path, p: Path)
    requires p != []
    ensures q <= p <==> q == p || q <= Parent(p)
  {
  }

  lemma PrefixIsEqualOrStrict(q: Path, p: Path)
    ensures q <= p ==> q == p || q < p
  {
    if q <= p && |q| == |p| {
      assert q == p[..|p|] == p;
    }
  }

  /** What os.MkdirAll leaves behind when no call fails for outside reasons; None when a file is in
      the way. */
  function WithDirs(t: Tree, p: Path, meta: Meta): Option<Tree>
    decreases |p|
  {
    if p in t then (if t[p].Dir? then Some(t) else None)
    else if p == [] then None
    else
      match WithDirs(t, Parent(p), meta)
      case None => None
      case Some(t') => Some(t'[p := Dir(meta)])
  }

  /** No file stands at p or above it. */
  ghost predicate NoFileOnTheWay(t: Tree, p: Path) {
    forall q :: q <= p && q in t ==> t[q].Dir?
  }

  lemma {:induction false} WithDirsSucceeds(t: Tree, p: Path, meta: Meta)
    requires WellFormed(t)
    ensures WithDirs(t, p, meta).Some? <==> NoFileOnTheWay(t, p)
    decreases |p|
  {
    if p in t {
      forall q | q <= p && q in t ensures q == p || IsDir(t, q) {
        if q != p {
          AncestorsAreDirs(t, p, q);
        }
      }
    } else {
      WithDirsSucceeds(t, Parent(p), meta);
      forall q | q in t ensures q <= p <==> q <= Parent(p) {
        PrefixOfParent(q, p);
      }
    }
  }

  /** t' is t with the missing directories down to p added, and nothing else changed. */
  ghost predicate AddsDirs(t: Tree, t': Tree, p: Path, meta: Meta) {
    && (forall q :: q in t ==> q in t' && t'[q] == t[q])
    && (forall q :: q in t' && q !in t ==> q <= p && t'[q] == Dir(meta))
    && (forall k | 0 <= k <= |p| :: p[..k] in t')
  }

  lemma {:induction false} WithDirsExact(t: Tree, p: Path, meta: Meta)
    requires WellFormed(t) && WithDirs(t, p, meta).Some?
    ensures var t' := WithDirs(t, p, meta).value;
            WellFormed(t') && IsDir(t', p) && AddsDirs(t, t', p, meta)
    decreases |p|
  {
    if p in t {
      forall k | 0 <= k <= |p| ensures p[..k] in t {
        if k < |p| {
          AncestorsAreDirs(t, p, p[..k]);
        } else {
          assert p[..k] == p;
        }
      }
    } else {
      WithDirsExact(t, Parent(p), meta);
      var t1, t' := WithDirs(t, Parent(p), meta).value, WithDirs(t, p, meta).value;
      assert t' == t1[p := Dir(meta)];
      forall k | 0 <= k <= |p| ensures p[..k] in t' {
        if k < |p| {
          assert p[..k] == Parent(p)[..k];
        } else {
          assert p[..k] == p;
        }
      }
    }
  }

  /** Old nodes are kept, and anything new is a directory at or above p. */
  ghost predicate OnlyAddsDirs(t: Tree, t': Tree, p: Path) {
    && (forall q :: q in t ==> q in t' && t'[q] == t[q])
    && (forall q :: q in t' && q !in t ==> q <= p && t'[q].Dir?)
  }

  /** OnlyAddsDirs, at every moment recorded in hs from index n on. */
  ghost predicate AllOnlyAddDirs(t: Tree, hs: seq<Tree>, n: nat, p: Path) {
    forall i | n <= i < |hs| :: OnlyAddsDirs(t, hs[i], p)
  }

  lemma OnlyAddsDirsTransitive(t: Tree, t1: Tree, t2: Tree, q: Path, p: Path)
    requires OnlyAddsDirs(t, t1, p) && OnlyAddsDirs(t1, t2, q) && q <= p
    ensures OnlyAddsDirs(t, t2, p)
  {
  }

  lemma AllOnlyAddDirsSnoc(t: Tree, hs: seq<Tree>, n: nat, p: Path, t': Tree)
    requires AllOnlyAddDirs(t, hs, n, p) && OnlyAddsDirs(t, t', p)
    ensures AllOnlyAddDirs(t, hs + [t'], n, p)
  {
  }

  lemma AllOnlyAddDirsExtends(t: Tree, hs: seq<Tree>, n: nat, t1: Tree, hs1: seq<Tree>, q: Path, p: Path)
    requires n <= |hs| && AllOnlyAddDirs(t, hs, n, p) && OnlyAddsDirs(t, t1, p)
    requires hs <= hs1 && AllOnlyAddDirs(t1, hs1, |hs|, q) && q <= p
    ensures AllOnlyAddDirs(t, hs1, n, p)
  {
    forall i | n <= i < |hs1| ensures OnlyAddsDirs(t, hs1[i], p) {
      if i < |hs| {
        assert hs1[i] == hs[i];
      } else {
        OnlyAddsDirsTransitive(t, t1, hs1[i], q, p);
      }
    }
  }

  /** In a tree extended with the directories down to p, every path at or above p is a directory. */
  lemma PrefixesAdded(t: Tree, t': Tree, p: Path, meta: Meta, q: Path)
    requires AddsDirs(t, t', p, meta) && NoFileOnTheWay(t, p) && q <= p
    ensures IsDir(t', q)
  {
    assert q == p[..|q|];
  }

  /** The tree without p and everything below it. */
  function Without(t: Tree, p: Path): Tree {
    map q | q in t && !(p <= q) :: t[q]
  }

  function Relocate(r: Path, a: Path, b: Path): Path {
    if a <= r then b + r[|a|..] else r
  }

  /** The tree after rename(a, b): the subtree at a now stands at b. */
  function Renamed(t: Tree, a: Path, b: Path): Tree {
    map q | q in (set r | r in t :: Relocate(r, a, b)) ::
      if b <= q && a + q[|b|..] in t then t[a + q[|b|..]]
      else if q in t then t[q] else Dir(ROOT)
  }

  /** When rename(a, b) is allowed, for a target that is not a directory (Go's os.Rename refuses a
      directory target). */
  predicate RenameAllowed(t: Tree, a: Path, b: Path) {
    && a in t && a != [] && b != []
    && IsDir(t, Parent(b))
    && (b in t ==> t[b].File? && t[a].File?)
    && (t[a].Dir? ==> !(a <= b))
  }

  lemma RelocateBack(a: Path, b: Path, q: Path)
    requires b <= q
    ensures Relocate(a + q[|b|..], a, b) == q
  {
    assert (a + q[|b|..])[|a|..] == q[|b|..];
  }

  lemma RelocateFrom(t: Tree, a: Path, b: Path, r: Path)
    requires WellFormed(t) && RenameAllowed(t, a, b) && r in t
    ensures a <= r ==> var q := Relocate(r, a, b); b <= q && a + q[|b|..] == r
    ensures !(a <= r) && b <= r ==> r == b
  {
    NothingBelowFile(t, b);
    PrefixIsEqualOrStrict(b, r);
    if a <= r {
      assert Relocate(r, a, b)[|b|..] == r[|a|..];
    }
  }

  /** rename moves exactly the subtree: below b stands what stood below a, nothing is left at a, and
      every other path is as before. */
  lemma RenamedAt(t: Tree, a: Path, b: Path, q: Path)
    requires WellFormed(t) && RenameAllowed(t, a, b)
    ensures var t' := Renamed(t, a, b);
            if b <= q then (q in t' <==> a + q[|b|..] in t) && (q in t' ==> t'[q] == t[a + q[|b|..]])
            else (q in t' <==> q in t && !(a <= q)) && (q in t' ==> t'[q] == t[q])
  {
    var t' := Renamed(t, a, b);
    if b <= q {
      RelocateBack(a, b, q);
      if q in t' {
        var r :| r in t && Relocate(r, a, b) == q;
        RelocateFrom(t, a, b, r);
        assert q == b ==> a + q[|b|..] == a;
      }
    } else {
      if q in t && !(a <= q) {
        assert Relocate(q, a, b) == q;
      }
      if q in t' {
        var r :| r in t && Relocate(r, a, b) == q;
        RelocateFrom(t, a, b, r);
      }
    }
  }

  /** A rename of one path below d to another changes nothing at d and nothing outside it. */
  lemma RenamedContained(t: Tree, a: Path, b: Path, d: Path)
    requires WellFormed(t) && RenameAllowed(t, a, b) && d < a && d < b
    ensures Contained(t, Renamed(t, a, b), d)
    ensures d in t ==> d in Renamed(t, a, b) && Renamed(t, a, b)[d] == t[d]
  {
    forall q | !(d <= q) || q == d
      ensures (q in Renamed(t, a, b) <==> q in t) && (q in t ==> Renamed(t, a, b)[q] == t[q])
    {
      RenamedAt(t, a, b, q);
      assert !(a <= q) && !(b <= q);
    }
  }

  /** Below a path that is not a directory there is nothing. */
  lemma NothingBelowFile(t: Tree, b: Path)
    requires WellFormed(t) && !IsDir(t, b)
    ensures forall q :: b < q ==> q !in t
  {
    forall q | b < q && q in t ensures false {
      AncestorsAreDirs(t, q, b);
    }
  }

  /** The parents of the moved nodes. */
  lemma MovedParent(t: Tree, a: Path, b: Path, p: Path)
    requires WellFormed(t) && RenameAllowed(t, a, b)
    requires b < p && a + p[|b|..] in t
    ensures b <= Parent(p) && IsDir(t, a + Parent(p)[|b|..])
  {
    var r := a + p[|b|..];
    assert Parent(r) == a + Parent(p)[|b|..];
    assert r != [] && IsDir(t, Parent(r));
  }

  /** The directory that receives the moved node is not inside the moved subtree. */
  lemma TargetParentStays(t: Tree, a: Path, b: Path)
    requires WellFormed(t) && RenameAllowed(t, a, b)
    ensures !(a <= Parent(b)) && !(b <= Parent(b))
  {
    PrefixOfParent(a, b);
    PrefixIsEqualOrStrict(a, Parent(b));
    if !IsDir(t, a) {
      NothingBelowFile(t, a);
    }
  }

  lemma RenamedWellFormed(t: Tree, a: Path, b: Path)
    requires WellFormed(t) && RenameAllowed(t, a, b)
    ensures WellFormed(Renamed(t, a, b))
  {
    var t' := Renamed(t, a, b);
    RenamedAt(t, a, b, []);
    forall p | p in t' && p != [] ensures IsDir(t', Parent(p)) {
      RenamedAt(t, a, b, p);
      RenamedAt(t, a, b, Parent(p));
      PrefixIsEqualOrStrict(b, p);
      if b < p {
        MovedParent(t, a, b, p);
      } else if p == b {
        TargetParentStays(t, a, b);
      } else {
        assert IsDir(t, Parent(p));
        PrefixOfParent(a, p);
        PrefixOfParent(b, p);
      }
    }
  }

  lemma WithoutWellFormed(t: Tree, p: Path)
    requires WellFormed(t) && p != []
    ensures WellFormed(Without(t, p))
  {
    forall q | q in Without(t, p) && q != [] ensures IsDir(Without(t, p), Parent(q)) {
      assert !(p <= Parent(q));
    }
  }

  /** Only nodes at or below p go away, and nothing else changes. */
  ghost predicate Shrinks(t: Tree, t': Tree, p: Path) {
    && (forall q :: q in t' ==> q in t && t'[q] == t[q])
    && (forall q :: q in t && !(p <= q) ==> q in t')
  }

  ghost predicate AllShrink(t: Tree, hs: seq<Tree>, n: nat, p: Path) {
    forall i | n <= i < |hs| :: Shrinks(t, hs[i], p)
  }

  lemma ShrinksMore(t: Tree, t1: Tree, hs: seq<Tree>, n: nat, p: Path, q: Path)
    requires Shrinks(t, t1, p) && AllShrink(t, hs, n, p) && p <= q
    ensures Shrinks(t, Without(t1, q), p) && AllShrink(t, hs + [Without(t1, q)], n, p) && AllShrink(t, hs + [t1], n, p)
  {
  }

  /** What is left of the nodes at or below p once one of them, with nothing below it, is gone. */
  lemma LeafRemoved(t: Tree, p: Path, q: Path)
    requires q in t && p <= q && forall r | r in t :: !(q < r)
    ensures Below(Without(t, q), p) == Below(t, p) - {q}
  {
    forall r | r in t && q <= r ensures r == q {
      PrefixIsEqualOrStrict(q, r);
    }
  }

  function Below(t: Tree, p: Path): set<Path> {
    set q | q in t && p <= q
  }

  lemma {:induction false} Deepest(paths: set<Path>) returns (q: Path)
    requires paths != {}
    ensures q in paths && forall r | r in paths :: |r| <= |q|
    decreases |paths|
  {
    q :| q in paths;
    if paths != {q} {
      var q' := Deepest(paths - {q});
      if |q'| > |q| {
        q := q';
      }
    }
  }

  /** Wherever there is something at or below p, there is something with nothing below it. */
  lemma SomeLeaf(t: Tree, p: Path)
    requires Below(t, p) != {}
    ensures exists q :: q in Below(t, p) && forall r | r in t :: !(q < r)
  {
    var q := Deepest(Below(t, p));
    assert forall r | r in t && q < r :: r in Below(t, p);
  }

  lemma AllGone(t: Tree, t': Tree, p: Path)
    requires Shrinks(t, t', p) && Below(t', p) == {}
    ensures t' == Without(t, p)
  {
    forall q | q in t' ensures !(p <= q) {
      assert q !in Below(t', p);
    }
  }

  /** Nothing outside d changes, except that missing directories above d may appear. */
  ghost predicate Contained(t: Tree, t': Tree, d: Path) {
    && (forall p :: p in t && !(d <= p) ==> p in t' && t'[p] == t[p])
    && (forall p :: p in t' && p !in t && !(d <= p) ==> p < d && t'[p].Dir?)
  }

  lemma ContainedTransitive(t0: Tree, t1: Tree, t2: Tree, d: Path)
    requires Contained(t0, t1, d) && Contained(t1, t2, d)
    ensures Contained(t0, t2, d)
  {
  }

  /** Contained, at every moment recorded in hs from index n on. */
  ghost predicate AllContained(t: Tree, hs: seq<Tree>, n: nat, d: Path) {
    forall i | n <= i < |hs| :: Contained(t, hs[i], d)
  }

  lemma AllContainedExtends(t: Tree, hs: seq<Tree>, n: nat, t1: Tree, hs1: seq<Tree>, d: Path)
    requires n <= |hs| && AllContained(t, hs, n, d) && Contained(t, t1, d)
    requires hs <= hs1 && AllContained(t1, hs1, |hs|, d)
    ensures AllContained(t, hs1, n, d)
  {
    forall i | n <= i < |hs1| ensures Contained(t, hs1[i], d) {
      if i < |hs| {
        assert hs1[i] == hs[i];
      } else {
        ContainedTransitive(t, t1, hs1[i], d);
      }
    }
  }

  lemma OnlyAddsDirsContained(t: Tree, t': Tree, p: Path, d: Path)
    requires OnlyAddsDirs(t, t', p) && (d <= p || p <= d)
    ensures Contained(t, t', d)
  {
    forall q | q in t' && q !in t && !(d <= q) ensures q < d {
      PrefixIsEqualOrStrict(q, d);
    }
  }

  lemma ChangesOnly(t: Tree, t': Tree, p: Path, d: Path)
    requires d <= p
    requires forall q :: q != p ==> (q in t <==> q in t') && (q in t ==> t'[q] == t[q])
    ensures Contained(t, t', d)
  {
  }

  /** The names directly below p. */
  function Children(t: Tree, p: Path): set<string> {
    set q | q in t && |q| == |p| + 1 && p <= q :: q[|p|]
  }

  lemma ChildrenExact(t: Tree, p: Path)
    ensures forall n :: n in Children(t, p) <==> p + [n] in t
  {
    forall n ensures n in Children(t, p) <==> p + [n] in t {
      if p + [n] in t {
        assert p <= p + [n] && (p + [n])[|p|] == n;
      }
      if n in Children(t, p) {
        var q :| q in t && |q| == |p| + 1 && p <= q && q[|p|] == n;
        assert q == p + [n];
      }
    }
  }

  /** What os.CreateTemp draws: a random 32-bit number. */
  type Draw = n: int | 0 <= n < 0x1_0000_0000

  /** The name it makes of the number. */
  function TempPath(dir: Path, prefix: string, draw: Draw): Path {
    dir + [prefix + Decimal(draw)]
  }

  /** The names under which os.CreateTemp can create its file. */
  ghost predicate TempName(t: Tree, dir: Path, prefix: string, p: Path) {
    IsDir(t, dir) && p !in t && exists draw: Draw :: p == TempPath(dir, prefix, draw)
  }

  const EMPTY_TEMP := File(Meta(0, 0, 384), [])

  /** A well-formed tree: what may ever be recorded of a disk. */
  type Recorded = t: Tree | WellFormed(t) ghost witness map[[] := Dir(ROOT)]

  /** At every moment from index n on the tree was well formed: no node before its parent. */
  ghost predicate AllWellFormed(hs: seq<Tree>, n: nat) {
    forall i | n <= i < |hs| :: WellFormed(hs[i])
  }

  /** A call that fails with EIO has failed for outside reasons. */
  function Fault(err: Errno): nat {
    if err == EIO then 1 else 0
  }

  class Disk {
    var tree: Tree
    /** The tree after each system call so far, well formed every time. */
    ghost var history: seq<Recorded>
    /** How many calls have failed for outside reasons. */
    ghost var faults: nat
    /** How many removals have failed, for whatever reason. */
    ghost var failedRemovals: nat

    ghost predicate Valid()
      reads this
    {
      WellFormed(tree)
    }

    constructor (t: Tree)
      requires WellFormed(t)
      ensures Valid() && tree == t && history == [] && faults == 0 && failedRemovals == 0
    {
      tree, history, faults, failedRemovals := t, [], 0, 0;
    }

    /** mkdir(2). */
    method Mkdir(p: Path, mode: nat) returns (err: Errno)
      requires Valid()
      modifies `tree, `history, `faults
      ensures Valid() && history == old(history) + [tree]
      ensures faults == old(faults) + Fault(err)
      ensures err == OK ==> p != [] && p !in old(tree) && IsDir(old(tree), Parent(p))
                            && tree == old(tree)[p := Dir(Meta(0, 0, mode))]
      ensures err != OK ==> tree == old(tree)
      ensures err == EEXIST ==> p in old(tree)
      ensures err !in {OK, EIO} ==> p == [] || p in old(tree) || !IsDir(old(tree), Parent(p))
    {
      err := EIO;
      if p in tree {
        err := EEXIST;
      } else if p == [] || Parent(p) !in tree {
        err := ENOENT;
      } else if tree[Parent(p)].File? {
        err := ENOTDIR;
      } else if * {
        tree := tree[p := Dir(Meta(0, 0, mode))];
        err := OK;
      }
      history, faults := history + [tree], faults + Fault(err);
    }

    /** chown(2) and chmod(2): replace a node's owner and mode. */
    method SetMeta(p: Path, meta: Meta) returns (err: Errno)
      requires Valid()
      modifies `tree, `history, `faults
      ensures Valid() && history == old(history) + [tree]
      ensures faults == old(faults) + Fault(err)
      ensures err == OK ==> p in old(tree) && tree == old(tree)[p := old(tree)[p].(meta := meta)]
      ensures err != OK ==> tree == old(tree)
      ensures err !in {OK, EIO} ==> p !in old(tree)
    {
      err := EIO;
      if p !in tree {
        err := ENOENT;
      } else if * {
        tree := tree[p := tree[p].(meta := meta)];
        err := OK;
      }
      history, faults := history + [tree], faults + Fault(err);
    }

    method Chown(p: Path, uid: nat, gid: nat) returns (err: Errno)
      requires Valid()
      modifies `tree, `history, `faults
      ensures Valid() && history == old(history) + [tree]
      ensures faults == old(faults) + Fault(err)
      ensures err == OK ==> p in old(tree)
                            && tree == old(tree)[p := old(tree)[p].(meta := Meta(uid, gid, old(tree)[p].meta.mode))]
      ensures err != OK ==> tree == old(tree)
      ensures err !in {OK, EIO} ==> p !in old(tree)
    {
      err := SetMeta(p, if p in tree then Meta(uid, gid, tree[p].meta.mode) else ROOT);
    }

    method Chmod(p: Path, mode: nat) returns (err: Errno)
      requires Valid()
      modifies `tree, `history, `faults
      ensures Valid() && history == old(history) + [tree]
      ensures faults == old(faults) + Fault(err)
      ensures err == OK ==> p in old(tree)
                            && tree == old(tree)[p := old(tree)[p].(meta := old(tree)[p].meta.(mode := mode))]
      ensures err != OK ==> tree == old(tree)
      ensures err !in {OK, EIO} ==> p !in old(tree)
    {
      err := SetMeta(p, if p in tree then tree[p].meta.(mode := mode) else ROOT);
    }

    /** open(2) with O_CREATE, O_WRONLY and O_TRUNC. */
    method OpenTruncate(p: Path, mode: nat) returns (err: Errno)
      requires Valid()
      modifies `tree, `history, `faults
      ensures Valid() && history == old(history) + [tree]
      ensures faults == old(faults) + Fault(err)
      ensures err == OK ==> !IsDir(old(tree), p) && p != [] && IsDir(old(tree), Parent(p))
                            && tree == old(tree)[p := File(if p in old(tree) then old(tree)[p].meta else Meta(0, 0,
                               mode), [])]
      ensures err != OK ==> tree == old(tree)
      ensures err !in {OK, EIO} ==> IsDir(old(tree), p) || p == [] || !IsDir(old(tree), Parent(p))
    {
      err := EIO;
      if IsDir(tree, p) {
        err := EISDIR;
      } else if p == [] || Parent(p) !in tree {
        err := ENOENT;
      } else if tree[Parent(p)].File? {
        err := ENOTDIR;
      } else if * {
        NothingBelowFile(tree, p);
        tree := tree[p := File(if p in tree then tree[p].meta else Meta(0, 0, mode), [])];
        err := OK;
      }
      history, faults := history + [tree], faults + Fault(err);
    }

    /** os.CreateTemp: a new file, owned by root with mode 0600. draw is the last of the random numbers
        it tries: one whose name is free, if it finds one. */
    method CreateTemp(dir: Path, prefix: string, draw: Draw) returns (err: Errno, p: Path)
      requires Valid()
      modifies `tree, `history, `faults
      ensures Valid() && history == old(history) + [tree]
      ensures faults == old(faults) + Fault(err)
      ensures p == TempPath(dir, prefix, draw)
      ensures err == OK ==> TempName(old(tree), dir, prefix, p) && tree == old(tree)[p := EMPTY_TEMP]
      ensures err != OK ==> tree == old(tree)
      ensures err !in {OK, EIO} ==> !IsDir(old(tree), dir) || p in old(tree)
    {
      p := TempPath(dir, prefix, draw);
      assert Parent(p) == dir;
      err := EIO;
      if !IsDir(tree, dir) {
        err := ENOTDIR;
      } else if p in tree {
        err := EEXIST;
      } else if * {
        NothingBelowFile(tree, p);
        tree := tree[p := EMPTY_TEMP];
        err := OK;
      }
      history, faults := history + [tree], faults + Fault(err);
    }

    /** close(2), which may report a late write error. */
    method Close() returns (err: Errno)
      modifies `faults
      ensures err in {OK, EIO} && faults == old(faults) + Fault(err)
    {
      err := OK;
      if * {
        err := EIO;
      }
      faults := faults + Fault(err);
    }

    /** Write the whole of data to the empty file at p; a failing write leaves some prefix of it. */
    method Write(p: Path, data: Bytes) returns (err: Errno)
      requires Valid() && p in tree && tree[p].File?
      modifies `tree, `history, `faults
      ensures Valid() && history == old(history) + [tree]
      ensures faults == old(faults) + Fault(err)
      ensures err in {OK, EIO}
      ensures p in tree && tree == old(tree)[p := tree[p]]
      ensures tree[p].File? && tree[p].meta == old(tree)[p].meta && tree[p].data <= data
      ensures err == OK ==> tree[p].data == data
    {
      NothingBelowFile(tree, p);
      var n: int := *;
      err := OK;
      var part := data;
      if 0 <= n < |data| {
        err, part := EIO, data[..n];
      }
      tree := tree[p := tree[p].(data := part)];
      history, faults := history + [tree], faults + Fault(err);
    }

    /** os.Rename, which refuses a directory as the target before it calls rename(2). */
    method Rename(a: Path, b: Path) returns (err: Errno)
      requires Valid()
      modifies `tree, `history, `faults
      ensures Valid() && history == old(history) + [tree]
      ensures faults == old(faults) + Fault(err)
      ensures err == OK ==> RenameAllowed(old(tree), a, b) && tree == Renamed(old(tree), a, b)
      ensures err != OK ==> tree == old(tree)
      ensures err !in {OK, EIO} ==> !RenameAllowed(old(tree), a, b)
    {
      err := EIO;
      if a !in tree || a == [] || b == [] {
        err := ENOENT;
      } else if IsDir(tree, b) {
        err := EEXIST;
      } else if !IsDir(tree, Parent(b)) || (b in tree && tree[a].Dir?) {
        err := ENOTDIR;
      } else if tree[a].Dir? && a <= b {
        err := EINVAL;
      } else if * {
        RenamedWellFormed(tree, a, b);
        tree := Renamed(tree, a, b);
        err := OK;
      }
      history, faults := history + [tree], faults + Fault(err);
    }

    /** os.Remove: unlink a file or an empty directory. */
    method Remove(p: Path) returns (err: Errno)
      requires Valid()
      modifies `tree, `history, `faults, `failedRemovals
      ensures Valid() && history == old(history) + [tree]
      ensures failedRemovals == old(failedRemovals) + (if err == OK then 0 else 1)
      ensures faults == old(faults) + Fault(err)
      ensures err == OK ==> p in old(tree) && p != [] && (forall q :: p < q ==> q !in old(tree))
                            && tree == Without(old(tree), p)
      ensures err != OK ==> tree == old(tree)
      ensures err !in {OK, EIO} ==> p !in old(tree) || p == [] || exists q :: p < q && q in old(tree)
    {
      err := EIO;
      if p !in tree || p == [] {
        err := ENOENT;
      } else if exists q :: q in tree && p < q {
        err := ENOTEMPTY;
      } else if * {
        WithoutWellFormed(tree, p);
        tree := Without(tree, p);
        err := OK;
      }
      history, faults := history + [tree], faults + Fault(err);
      failedRemovals := failedRemovals + (if err == OK then 0 else 1);
    }

    /** os.RemoveAll: one removal after another, each of something with nothing below it, until everything
        at or below p is gone or a removal fails. */
    method RemoveAll(p: Path) returns (err: Errno)
      requires Valid() && p != []
      modifies `tree, `history, `faults, `failedRemovals
      ensures Valid() && old(history) <= history
      ensures failedRemovals == old(failedRemovals) + (if err == OK then 0 else 1)
      ensures faults == old(faults) + Fault(err)
      ensures err in {OK, EIO}
      ensures err == OK ==> tree == Without(old(tree), p)
      ensures Shrinks(old(tree), tree, p) && AllShrink(old(tree), history, |old(history)|, p)
    {
      err := OK;
      var todo := Below(tree, p);
      while todo != {} && err == OK
        invariant Valid() && todo == Below(tree, p) && old(history) <= history
        invariant err in {OK, EIO} && faults == old(faults) + Fault(err)
        invariant failedRemovals == old(failedRemovals) + (if err == OK then 0 else 1)
        invariant Shrinks(old(tree), tree, p) && AllShrink(old(tree), history, |old(history)|, p)
        decreases |todo|, err == OK
      {
        SomeLeaf(tree, p);
        var q :| q in todo && forall r <- tree.Keys :: !(q < r);
        ShrinksMore(old(tree), tree, history, |old(history)|, p, q);
        LeafRemoved(tree, p, q);
        err := Remove(q);
        if err == OK {
          todo := todo - {q};
        }
      }
      if err == OK {
        AllGone(old(tree), tree, p);
      }
    }

    /** The names in a directory. */
    method ReadDir(p: Path) returns (err: Errno, names: set<string>)
      requires Valid()
      modifies `faults
      ensures faults == old(faults) + Fault(err)
      ensures err !in {OK, EIO} ==> !IsDir(tree, p)
      ensures err == OK ==> IsDir(tree, p) && forall n :: n in names <==> p + [n] in tree
    {
      err, names := EIO, {};
      if p !in tree {
        err := ENOENT;
      } else if tree[p].File? {
        err := ENOTDIR;
      } else if * {
        names := Children(tree, p);
        err := OK;
        ChildrenExact(tree, p);
      }
      faults := faults + Fault(err);
    }

    /** os.MkdirAll: stop at a directory, refuse a file, otherwise make the parent first. */
    method MkdirAll(p: Path, mode: nat) returns (err: Errno)
      requires Valid()
      modifies `tree, `history, `faults
      ensures Valid() && old(history) <= history
      ensures faults == old(faults) + Fault(err)
      ensures err == OK ==> WithDirs(old(tree), p, Meta(0, 0, mode)) == Some(tree)
      ensures err !in {OK, EIO} ==> WithDirs(old(tree), p, Meta(0, 0, mode)) == None
      ensures AllWellFormed(history, |old(history)|)
      ensures OnlyAddsDirs(old(tree), tree, p)
      ensures AllOnlyAddDirs(old(tree), history, |old(history)|, p)
      decreases |p|
    {
      if p in tree {
        return if tree[p].Dir? then OK else ENOTDIR;
      }
      if p == [] {
        return ENOENT;
      }
      ghost var t0, h0 := tree, history;
      err := MkdirAll(Parent(p), mode);
      ghost var t1, h1 := tree, history;
      AddsBelowParent(t0, t1, p);
      forall i | |h0| <= i < |h1| ensures OnlyAddsDirs(t0, h1[i], p) {
        AddsBelowParent(t0, h1[i], p);
      }
      if err != OK {
        return;
      }
      WithDirsExact(t0, Parent(p), Meta(0, 0, mode));
      err := Mkdir(p, mode);
      assert OnlyAddsDirs(t0, tree, p);
      assert history == h1 + [tree];
      if err != OK && IsDir(tree, p) {
        err := OK;
      }
    }
  }

  lemma AddsBelowParent(t: Tree, t': Tree, p: Path)
    requires p != [] && OnlyAddsDirs(t, t', Parent(p))
    ensures OnlyAddsDirs(t, t', p)
  {
    forall q | q in t' && q !in t ensures q <= p {
      PrefixOfParent(q, p);
    }
  }
}
