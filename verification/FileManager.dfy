/** The per-site file manager: every operation as its sequence of system calls on a disk where any
    changing call may fail. */
module FileManager {
  import opened Text
  import opened Paths
  import opened FileSystem
  import opened PathResolution

  const MAX_WRITE := 10485760

  datatype Outcome = Done | PathTraversal | TooLarge | NotEmpty | RefusedDocroot | Failed(errno: Errno)

  /** Whether an outcome is one of a call that failed for outside reasons. */
  function Faulty(r: Outcome): nat {
    if r == Failed(EIO) then 1 else 0
  }

  /** A site's user and its docroot, /var/www/<username>/public. */
  datatype Site = Site(username: string, uid: nat, gid: nat) {
    predicate Valid() {
      ValidName(username) && "site_" <= username
    }

    function Home(): Path {
      ["var", "www", username]
    }

    function Docroot(): Path {
      Home() + ["public"]
    }

    function Owned(mode: nat): Meta {
      Meta(uid, gid, mode)
    }
  }

  lemma DocrootIsValid(s: Site)
    requires s.Valid()
    ensures ValidPath(s.Docroot()) && s.Docroot() != [] && Parent(s.Docroot()) == s.Home()
  {
    assert s.Docroot() == ["var", "www", s.username, "public"];
  }

  /** Nothing outside the docroot changes, except that its missing ancestors may appear, and a
      docroot that is there stays as it is. */
  ghost predicate Confined(t: Tree, t': Tree, s: Site) {
    && Contained(t, t', s.Docroot())
    && (s.Docroot() in t ==> s.Docroot() in t' && t'[s.Docroot()] == t[s.Docroot()])
  }

  /** Confined, at every moment recorded in hs from index n on. */
  ghost predicate AllConfined(t: Tree, hs: seq<Tree>, n: nat, s: Site) {
    forall i | n <= i < |hs| :: Confined(t, hs[i], s)
  }

  lemma ConfinedTransitive(t0: Tree, t1: Tree, t2: Tree, s: Site)
    requires Confined(t0, t1, s) && Confined(t1, t2, s)
    ensures Confined(t0, t2, s)
  {
    ContainedTransitive(t0, t1, t2, s.Docroot());
  }

  lemma AllConfinedExtends(t: Tree, hs: seq<Tree>, n: nat, t1: Tree, hs1: seq<Tree>, s: Site)
    requires n <= |hs| && AllConfined(t, hs, n, s) && Confined(t, t1, s)
    requires hs <= hs1 && AllConfined(t1, hs1, |hs|, s)
    ensures AllConfined(t, hs1, n, s)
  {
    forall i | n <= i < |hs1| ensures Confined(t, hs1[i], s) {
      if i < |hs| {
        assert hs1[i] == hs[i];
      } else {
        ConfinedTransitive(t, t1, hs1[i], s);
      }
    }
  }

  lemma OnlyAddsDirsConfined(t: Tree, t': Tree, p: Path, s: Site)
    requires OnlyAddsDirs(t, t', p) && (s.Docroot() <= p || p <= s.Docroot())
    ensures Confined(t, t', s)
  {
    OnlyAddsDirsContained(t, t', p, s.Docroot());
  }

  lemma ChangesOnlyConfined(t: Tree, t': Tree, p: Path, s: Site)
    requires s.Docroot() < p
    requires forall q :: q != p ==> (q in t <==> q in t') && (q in t ==> t'[q] == t[q])
    ensures Confined(t, t', s)
  {
    ChangesOnly(t, t', p, s.Docroot());
  }

  /** The check at the top of mkdirAllOwned, as written: the inner list of allowed paths repeats what
      the outer condition already let through. */
  predicate GuardRejects(s: Site, abs: Path) {
    && !(Render(s.Docroot()) <= Render(abs))
    && abs != Parent(s.Docroot())
    && Render(abs) != "/var/www/" + s.username
    && !(Render(abs) == "/var/www/" + s.username || abs == s.Docroot())
    && !(Render(s.Docroot()) + "/" <= Render(abs))
  }

  /** The guard lets the docroot and everything below it pass. */
  lemma GuardAdmitsDocroot(s: Site, abs: Path)
    requires s.Valid() && ValidPath(abs) && s.Docroot() <= abs
    ensures !GuardRejects(s, abs)
  {
    DocrootIsValid(s);
    var k := abs[|s.Docroot()|..];
    assert abs == s.Docroot() + k;
    if k != [] {
      RenderPrefix(s.Docroot(), k);
    }
  }

  /** What mkdirAllOwned leaves on success: an existing node is left alone, whatever it is; otherwise
      exactly the missing ancestors and abs itself, owned by the site user. */
  function Ensured(t: Tree, abs: Path, meta: Meta): Tree {
    if abs in t then t
    else
      match WithDirs(t, abs, meta)
      case None => t
      case Some(t') => t'
  }

  /** The loop that walks up to the nearest existing ancestor. missing lists the paths to make,
      parents first. */
  method MissingAncestors(disk: Disk, abs: Path) returns (missing: seq<Path>, ghost n: nat)
    requires disk.Valid() && abs !in disk.tree
    ensures n < |abs| && |missing| == |abs| - n
    ensures abs[..n] in disk.tree
    ensures forall i | 0 <= i < |missing| :: missing[i] == abs[..n + i + 1] && missing[i] !in disk.tree
    ensures missing != [] && missing[|missing| - 1] == abs && Parent(missing[0]) in disk.tree
    ensures forall i | 0 < i < |missing| :: Parent(missing[i]) == missing[i - 1]
  {
    missing := [];
    var cur := abs;
    n := |abs|;
    assert abs[..n] == abs;
    while cur !in disk.tree
      invariant n <= |abs| && cur == abs[..n]
      invariant |missing| == |abs| - n
      invariant forall i | 0 <= i < |missing| :: missing[i] == abs[..n + i + 1] && missing[i] !in disk.tree
      decreases |cur|
    {
      missing := [cur] + missing;
      var parent := Parent(cur);
      if parent == cur {
        break;
      }
      assert parent == abs[..n - 1];
      n := n - 1;
      cur := parent;
    }
    assert |abs[..n + 1]| == n + 1 && Parent(abs[..n + 1]) == abs[..n];
  }

  /** The first i missing directories of abs, those from length n + 1 on, have been made. */
  ghost predicate Making(t0: Tree, t: Tree, abs: Path, n: nat, i: nat, meta: Meta) {
    && n + i <= |abs| && abs[..n] in t0
    && (i == 0 ==> t == t0)
    && (i > 0 ==> WithDirs(t0, abs[..n + i], meta) == Some(t))
    && OnlyAddsDirs(t0, t, abs)
    && (forall q :: q in t && q !in t0 ==> |q| <= n + i)
  }

  lemma PrefixParent(abs: Path, k: nat)
    requires k < |abs|
    ensures Parent(abs[..k + 1]) == abs[..k] && abs[..k + 1] != [] && abs[..k + 1] <= abs && |abs[..k + 1]| == k + 1
  {
  }

  /** Where the next directory goes: it is still missing, and if its parent is not a directory, a file
      blocks the whole path. */
  lemma MakingBlocked(t0: Tree, t: Tree, abs: Path, n: nat, i: nat, meta: Meta)
    requires WellFormed(t0) && Making(t0, t, abs, n, i, meta) && n + i < |abs| && abs[..n + i + 1] !in t0
    ensures abs[..n + i + 1] !in t
    ensures !IsDir(t, abs[..n + i]) ==> WithDirs(t0, abs, meta) == None
    ensures IsDir(t, abs[..n + i]) ==> WithDirs(t0, abs[..n + i], meta) == Some(t)
  {
    PrefixParent(abs, n + i);
    if i > 0 {
      WithDirsExact(t0, abs[..n + i], meta);
    } else if t0[abs[..n]].File? {
      BelowFileNoDirs(t0, abs[..n], abs, meta);
    }
  }

  lemma MakingNext(t0: Tree, t: Tree, abs: Path, n: nat, i: nat, meta: Meta)
    requires WellFormed(t0) && Making(t0, t, abs, n, i, meta) && n + i < |abs| && abs[..n + i + 1] !in t0
    requires IsDir(t, abs[..n + i])
    ensures Making(t0, t[abs[..n + i + 1] := Dir(meta)], abs, n, i + 1, meta)
  {
    PrefixParent(abs, n + i);
    MakingBlocked(t0, t, abs, n, i, meta);
    var p := abs[..n + i + 1];
    assert WithDirs(t0, p, meta) == Some(t[p := Dir(meta)]);
    AddsOneDir(t, t[p := Dir(meta)], p);
    OnlyAddsDirsTransitive(t0, t, t[p := Dir(meta)], p, abs);
    assert n + (i + 1) == n + i + 1;
  }

  lemma AllMade(t0: Tree, t: Tree, abs: Path, n: nat, i: nat, meta: Meta)
    requires Making(t0, t, abs, n, i, meta) && n + i == |abs| && i > 0
    ensures WithDirs(t0, abs, meta) == Some(t)
  {
    assert abs[..n + i] == abs;
  }

  lemma NothingMade(t0: Tree, abs: Path, n: nat, meta: Meta)
    requires n <= |abs| && abs[..n] in t0
    ensures Making(t0, t0, abs, n, 0, meta)
  {
  }

  /** One turn of the loop that makes and chowns the missing directories: i of them are there. n0 is the
      moment the loop began, with the tree t0. */
  method MakeNext(disk: Disk, s: Site, abs: Path, p: Path, mode: nat, ghost t0: Tree, ghost n0: nat, ghost n: nat,
      ghost i: nat)
    returns (r: Outcome)
    requires disk.Valid() && WellFormed(t0) && n0 <= |disk.history| && AllOnlyAddDirs(t0, disk.history, n0, abs)
    requires Making(t0, disk.tree, abs, n, i, s.Owned(mode)) && n + i < |abs| && p == abs[..n + i + 1] && p !in t0
    modifies disk`tree, disk`history, disk`faults
    ensures disk.Valid() && old(disk.history) <= disk.history
    ensures disk.faults == old(disk.faults) + Faulty(r)
    ensures r == Done || r.Failed?
    ensures r == Done ==> Making(t0, disk.tree, abs, n, i + 1, s.Owned(mode))
    ensures r.Failed? && r.errno != EIO ==> WithDirs(t0, abs, s.Owned(mode)) == None
    ensures OnlyAddsDirs(t0, disk.tree, abs) && AllOnlyAddDirs(t0, disk.history, n0, abs)
  {
    ghost var t1, h1 := disk.tree, disk.history;
    PrefixParent(abs, n + i);
    MakingBlocked(t0, t1, abs, n, i, s.Owned(mode));
    r := MakeOwned(disk, s, p, mode);
    OnlyAddsDirsTransitive(t0, t1, disk.tree, p, abs);
    AllOnlyAddDirsExtends(t0, h1, n0, t1, disk.history, p, abs);
    if r == Done {
      MakingNext(t0, t1, abs, n, i, s.Owned(mode));
    }
  }

  /** The whole loop, parents first. */
  method MakeMissing(disk: Disk, s: Site, abs: Path, missing: seq<Path>, mode: nat, ghost n: nat) returns (r: Outcome)
    requires disk.Valid() && abs !in disk.tree
    requires n < |abs| && |missing| == |abs| - n && abs[..n] in disk.tree
    requires forall i | 0 <= i < |missing| :: missing[i] == abs[..n + i + 1] && missing[i] !in disk.tree
    modifies disk`tree, disk`history, disk`faults
    ensures disk.Valid() && old(disk.history) <= disk.history
    ensures disk.faults == old(disk.faults) + Faulty(r)
    ensures r == Done ==> WithDirs(old(disk.tree), abs, s.Owned(mode)) == Some(disk.tree)
    ensures r.Failed? && r.errno != EIO ==> WithDirs(old(disk.tree), abs, s.Owned(mode)) == None
    ensures r == Done || r.Failed?
    ensures OnlyAddsDirs(old(disk.tree), disk.tree, abs)
    ensures AllOnlyAddDirs(old(disk.tree), disk.history, |old(disk.history)|, abs)
  {
    ghost var t0, n0 := disk.tree, |disk.history|;
    NothingMade(t0, abs, n, s.Owned(mode));
    r := Done;
    for i := 0 to |missing|
      invariant disk.Valid() && old(disk.history) <= disk.history && disk.faults == old(disk.faults)
      invariant r == Done && Making(t0, disk.tree, abs, n, i, s.Owned(mode))
      invariant AllOnlyAddDirs(t0, disk.history, n0, abs)
    {
      r := MakeNext(disk, s, abs, missing[i], mode, t0, n0, n, i);
      if r != Done {
        break;
      }
    }
    if r == Done {
      AllMade(t0, disk.tree, abs, n, |missing|, s.Owned(mode));
    }
  }

  /** mkdir, tolerating a directory that is already there, then chown. */
  method MakeOwned(disk: Disk, s: Site, p: Path, mode: nat) returns (r: Outcome)
    requires disk.Valid() && p !in disk.tree && p != []
    modifies disk`tree, disk`history, disk`faults
    ensures disk.Valid() && old(disk.history) <= disk.history
    ensures disk.faults == old(disk.faults) + Faulty(r)
    ensures r == Done || r.Failed?
    ensures r == Done ==> IsDir(old(disk.tree), Parent(p)) && disk.tree == old(disk.tree)[p := Dir(s.Owned(mode))]
    ensures r.Failed? && r.errno != EIO ==> !IsDir(old(disk.tree), Parent(p))
    ensures OnlyAddsDirs(old(disk.tree), disk.tree, p)
    ensures AllOnlyAddDirs(old(disk.tree), disk.history, |old(disk.history)|, p)
  {
    ghost var t0, h0 := disk.tree, disk.history;
    var err := disk.Mkdir(p, mode);
    ghost var t1, h1 := disk.tree, disk.history;
    AddsOneDir(t0, t1, p);
    AllOnlyAddDirsSnoc(t0, h0, |h0|, p, t1);
    if err != OK && err != EEXIST {
      return Failed(err);
    }
    err := disk.Chown(p, s.uid, s.gid);
    AddsOneDir(t0, disk.tree, p);
    AllOnlyAddDirsSnoc(t0, h1, |h0|, p, disk.tree);
    if err != OK {
      return Failed(err);
    }
    r := Done;
  }

  lemma AddsOneDir(t: Tree, t': Tree, p: Path)
    requires p !in t
    requires forall q :: q != p ==> (q in t <==> q in t') && (q in t ==> t'[q] == t[q])
    requires p in t' ==> t'[p].Dir?
    ensures OnlyAddsDirs(t, t', p)
  {
  }

  lemma BelowFileNoDirs(t: Tree, q: Path, p: Path, meta: Meta)
    requires WellFormed(t) && q in t && t[q].File? && q <= p
    ensures WithDirs(t, p, meta) == None
  {
    WithDirsSucceeds(t, p, meta);
  }

  /** mkdirAllOwned. */
  method MkdirAllOwned(disk: Disk, s: Site, abs: Path, mode: nat) returns (r: Outcome)
    requires disk.Valid() && s.Valid()
    modifies disk`tree, disk`history, disk`faults
    ensures disk.Valid() && old(disk.history) <= disk.history
    ensures disk.faults == old(disk.faults) + Faulty(r)
    ensures r == PathTraversal <==> GuardRejects(s, abs)
    ensures r == Done ==> disk.tree == Ensured(old(disk.tree), abs, s.Owned(mode))
                          && (abs !in old(disk.tree) ==>
                                WithDirs(old(disk.tree), abs, s.Owned(mode)) == Some(disk.tree))
    ensures r.Failed? ==> abs !in old(disk.tree)
    ensures r.Failed? && r.errno != EIO ==> WithDirs(old(disk.tree), abs, s.Owned(mode)) == None
    ensures r in {Done, PathTraversal} || r.Failed?
    ensures OnlyAddsDirs(old(disk.tree), disk.tree, abs)
    ensures AllOnlyAddDirs(old(disk.tree), disk.history, |old(disk.history)|, abs)
  {
    if GuardRejects(s, abs) {
      return PathTraversal;
    }
    if abs in disk.tree {
      return Done;
    }
    var missing, n := MissingAncestors(disk, abs);
    r := MakeMissing(disk, s, abs, missing, mode, n);
  }

  /** mkdirAllOwned succeeded on a path: that path and everything above it exists, the nodes added are
      exactly the missing ones on the way, and all of them belong to the site user. When the path did
      not exist before, everything on the way is a directory. */
  lemma EnsuredExact(t: Tree, abs: Path, meta: Meta)
    requires WellFormed(t) && (abs in t || WithDirs(t, abs, meta).Some?)
    ensures AddsDirs(t, Ensured(t, abs, meta), abs, meta) && WellFormed(Ensured(t, abs, meta))
    ensures abs !in t ==> IsDir(Ensured(t, abs, meta), abs)
  {
    if abs in t {
      forall k | 0 <= k <= |abs| ensures abs[..k] in t {
        if k < |abs| {
          AncestorsAreDirs(t, abs, abs[..k]);
        } else {
          assert abs[..k] == abs;
        }
      }
    } else {
      WithDirsExact(t, abs, meta);
    }
  }

  /** mkdirAllOwned at a place the file manager can name keeps the site confined. */
  method MkdirInside(disk: Disk, s: Site, abs: Path, mode: nat) returns (r: Outcome)
    requires disk.Valid() && s.Valid() && ValidPath(abs) && s.Docroot() <= abs
    modifies disk`tree, disk`history, disk`faults
    ensures disk.Valid() && old(disk.history) <= disk.history
    ensures disk.faults == old(disk.faults) + Faulty(r)
    ensures r == Done || r.Failed?
    ensures r == Done ==> disk.tree == Ensured(old(disk.tree), abs, s.Owned(mode))
                          && (abs !in old(disk.tree) ==>
                                WithDirs(old(disk.tree), abs, s.Owned(mode)) == Some(disk.tree))
    ensures r.Failed? ==> abs !in old(disk.tree)
    ensures r.Failed? && r.errno != EIO ==> WithDirs(old(disk.tree), abs, s.Owned(mode)) == None
    ensures OnlyAddsDirs(old(disk.tree), disk.tree, abs)
    ensures AllOnlyAddDirs(old(disk.tree), disk.history, |old(disk.history)|, abs)
    ensures Confined(old(disk.tree), disk.tree, s)
    ensures AllConfined(old(disk.tree), disk.history, |old(disk.history)|, s)
  {
    ghost var t0, h0 := disk.tree, disk.history;
    GuardAdmitsDocroot(s, abs);
    r := MkdirAllOwned(disk, s, abs, mode);
    OnlyAddsDirsConfined(t0, disk.tree, abs, s);
    forall i | |h0| <= i < |disk.history| ensures Confined(t0, disk.history[i], s) {
      OnlyAddsDirsConfined(t0, disk.history[i], abs, s);
    }
  }

  /** ensureDocroot. */
  method EnsureDocroot(disk: Disk, s: Site) returns (r: Outcome)
    requires disk.Valid() && s.Valid()
    modifies disk`tree, disk`history, disk`faults
    ensures disk.Valid() && old(disk.history) <= disk.history
    ensures disk.faults == old(disk.faults) + Faulty(r)
    ensures r == Done || r.Failed?
    ensures r == Done ==> disk.tree == Ensured(old(disk.tree), s.Docroot(), s.Owned(488))
                          && (s.Docroot() !in old(disk.tree)
                             ==> WithDirs(old(disk.tree), s.Docroot(), s.Owned(488)) == Some(disk.tree))
    ensures r.Failed? ==> s.Docroot() !in old(disk.tree)
    ensures r.Failed? && r.errno != EIO ==> WithDirs(old(disk.tree), s.Docroot(), s.Owned(488)) == None
    ensures OnlyAddsDirs(old(disk.tree), disk.tree, s.Docroot())
    ensures AllOnlyAddDirs(old(disk.tree), disk.history, |old(disk.history)|, s.Docroot())
    ensures Confined(old(disk.tree), disk.tree, s)
    ensures AllConfined(old(disk.tree), disk.history, |old(disk.history)|, s)
  {
    DocrootIsValid(s);
    r := MkdirInside(disk, s, s.Docroot(), 488);
  }

  lemma BelowMissing(t: Tree, d: Path, p: Path)
    requires WellFormed(t) && d !in t && d <= p
    ensures p !in t
  {
    PrefixIsEqualOrStrict(d, p);
    if p in t {
      AncestorsAreDirs(t, p, d);
    }
  }

  /** List: makes the docroot if it is missing, and returns the names in the directory. Unless a call
      fails for outside reasons it succeeds exactly when the path is a directory by then. */
  method List(disk: Disk, s: Site, rel: string) returns (r: Outcome, names: set<string>)
    requires disk.Valid() && s.Valid()
    modifies disk`tree, disk`history, disk`faults
    ensures disk.Valid() && old(disk.history) <= disk.history
    ensures disk.faults == old(disk.faults) + Faulty(r)
    ensures r == PathTraversal <==> '\0' in rel || ".." in Split(TrimSpace(rel), '/')
    ensures r == PathTraversal <==> Resolved(s.Docroot(), rel).None?
    ensures r == Done ==> disk.tree == Ensured(old(disk.tree), s.Docroot(), s.Owned(488))
                          && IsDir(disk.tree, Resolved(s.Docroot(), rel).value)
                          && forall n :: n in names <==> Resolved(s.Docroot(), rel).value + [n] in disk.tree
    ensures disk.faults == old(disk.faults) ==>
              (r == Done <==> Resolved(s.Docroot(), rel).Some?
                              && IsDir(Ensured(old(disk.tree), s.Docroot(), s.Owned(488)),
                                       Resolved(s.Docroot(), rel).value))
    ensures Confined(old(disk.tree), disk.tree, s)
    ensures AllConfined(old(disk.tree), disk.history, |old(disk.history)|, s)
  {
    names := {};
    DocrootIsValid(s);
    var resolved := ResolvePath(s.Docroot(), rel);
    if resolved.None? {
      return PathTraversal, names;
    }
    r := EnsureDocroot(disk, s);
    if r != Done {
      BelowMissing(old(disk.tree), s.Docroot(), KeptOf(resolved.value));
    }
    if r == Done {
      var err;
      err, names := disk.ReadDir(KeptOf(resolved.value));
      if err != OK {
        return Failed(err), {};
      }
    }
  }

  /** Mkdir. The docroot itself is answered without being made. Unless a call fails for outside reasons it
      succeeds exactly when something stands at the path or no file is in the way. */
  method Mkdir(disk: Disk, s: Site, rel: string, mode: nat) returns (r: Outcome)
    requires disk.Valid() && s.Valid()
    modifies disk`tree, disk`history, disk`faults
    ensures disk.Valid() && old(disk.history) <= disk.history
    ensures disk.faults == old(disk.faults) + Faulty(r)
    ensures r == PathTraversal <==> '\0' in rel || ".." in Split(TrimSpace(rel), '/')
    ensures r == PathTraversal <==> Resolved(s.Docroot(), rel).None?
    ensures r == Done ==>
              var abs := s.Docroot() + KeptOf(TrimSpace(rel));
              abs != s.Docroot() && abs !in old(disk.tree) ==>
                abs in disk.tree && disk.tree[abs] == Dir(Meta(s.uid, s.gid, if mode == 0 then 493 else mode % 512))
    ensures r == Done ==>
              var abs := Resolved(s.Docroot(), rel).value;
              var bits := if mode == 0 then 493 else mode % 512;
              && disk.tree == (if abs == s.Docroot() then old(disk.tree)
                               else Ensured(old(disk.tree), abs, s.Owned(bits)))
              && (abs == s.Docroot() || abs in old(disk.tree) || WithDirs(old(disk.tree), abs, s.Owned(bits)).Some?)
    ensures disk.faults == old(disk.faults) ==>
              (r == Done <==> Resolved(s.Docroot(), rel).Some?
                              && var abs := Resolved(s.Docroot(), rel).value;
                                 abs == s.Docroot() || abs in old(disk.tree) || NoFileOnTheWay(old(disk.tree), abs))
    ensures Confined(old(disk.tree), disk.tree, s)
    ensures AllConfined(old(disk.tree), disk.history, |old(disk.history)|, s)
  {
    DocrootIsValid(s);
    var resolved := ResolvePath(s.Docroot(), rel);
    if resolved.None? {
      return PathTraversal;
    }
    if resolved.value == Render(s.Docroot()) {
      return Done;
    }
    var abs, bits := KeptOf(resolved.value), (if mode == 0 then 493 else mode) % 512;
    WithDirsSucceeds(disk.tree, abs, s.Owned(bits));
    r := MkdirInside(disk, s, abs, bits);
  }

  /** A successful Mkdir has made (or found) a directory exactly when no file stood at the path: the
      existence test does not look at what exists. */
  lemma MkdirLeavesDirectoryUnlessFile(t: Tree, abs: Path, meta: Meta)
    requires WellFormed(t) && (abs in t || WithDirs(t, abs, meta).Some?)
    ensures IsDir(Ensured(t, abs, meta), abs) <==> !(abs in t && t[abs].File?)
  {
    EnsuredExact(t, abs, meta);
  }
}
