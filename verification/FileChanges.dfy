/** The file manager's changing operations: the atomic write, delete and move, and any sequence of
    operations on one site. */
module FileChanges {
  import opened Text
  import opened Paths
  import opened FileSystem
  import opened PathResolution
  import opened FileManager

  // ------------------------------------------------------------------------------ Write

  /** t differs from t0 at most at tmp, where it holds a file or nothing. */
  ghost predicate TempOnly(t0: Tree, t: Tree, tmp: Path) {
    if tmp in t then t[tmp].File? && t == t0[tmp := t[tmp]] else t == t0
  }

  lemma TempOnlyElsewhere(t0: Tree, t: Tree, tmp: Path)
    requires TempOnly(t0, t, tmp) && tmp !in t0
    ensures forall q :: q != tmp ==> (q in t <==> q in t0) && (q in t ==> t[q] == t0[q])
  {
  }

  ghost predicate AllTempOnly(t0: Tree, hs: seq<Tree>, n: nat, tmp: Path) {
    forall i | n <= i < |hs| :: TempOnly(t0, hs[i], tmp)
  }

  lemma TempOnlyStep(t0: Tree, t: Tree, t': Tree, hs: seq<Tree>, n: nat, tmp: Path)
    requires TempOnly(t0, t, tmp) && AllTempOnly(t0, hs, n, tmp)
    requires tmp in t && tmp in t' && t'[tmp].File? && t' == t[tmp := t'[tmp]]
    ensures TempOnly(t0, t', tmp) && AllTempOnly(t0, hs + [t'], n, tmp)
  {
  }

  /** At every moment from index n on, tmp holds f. */
  ghost predicate AlwaysHolds(hs: seq<Tree>, n: nat, tmp: Path, f: Node) {
    forall i | n <= i < |hs| :: tmp in hs[i] && hs[i][tmp] == f
  }

  lemma AlwaysHoldsSnoc(hs: seq<Tree>, n: nat, tmp: Path, f: Node, t: Tree)
    requires AlwaysHolds(hs, n, tmp, f) && tmp in t && t[tmp] == f
    ensures AlwaysHolds(hs + [t], n, tmp, f)
  {
  }

  /** Write, Close, Chmod and Chown on the temporary file. If the finished file is empty and the
      temporary one starts out as it, it is that all the time. */
  method FillTemp(disk: Disk, s: Site, tmp: Path, content: Bytes, mode: nat, ghost t0: Tree) returns (r: Outcome)
    requires disk.Valid() && tmp in disk.tree && TempOnly(t0, disk.tree, tmp)
    modifies disk`tree, disk`history, disk`faults
    ensures disk.Valid() && old(disk.history) <= disk.history
    ensures disk.faults == old(disk.faults) + Faulty(r)
    ensures r in {Done, Failed(EIO)}
    ensures tmp in disk.tree && TempOnly(t0, disk.tree, tmp)
    ensures r == Done ==> disk.tree[tmp] == File(s.Owned(mode), content)
    ensures AllTempOnly(t0, disk.history, |old(disk.history)|, tmp)
    ensures content == [] && old(disk.tree)[tmp] == File(s.Owned(mode), []) ==>
              AlwaysHolds(disk.history, |old(disk.history)|, tmp, File(s.Owned(mode), []))
              && disk.tree[tmp] == File(s.Owned(mode), [])
  {
    ghost var n, f := |disk.history|, File(s.Owned(mode), []);
    ghost var asIs := content == [] && disk.tree[tmp] == f;
    ghost var t1, h1 := disk.tree, disk.history;
    var err := disk.Write(tmp, content);
    TempOnlyStep(t0, t1, disk.tree, h1, n, tmp);
    if asIs {
      AlwaysHoldsSnoc(h1, n, tmp, f, disk.tree);
    }
    if err == OK {
      err := disk.Close();
    }
    if err == OK {
      t1, h1 := disk.tree, disk.history;
      err := disk.Chmod(tmp, mode);
      TempOnlyStep(t0, t1, disk.tree, h1, n, tmp);
      if asIs {
        AlwaysHoldsSnoc(h1, n, tmp, f, disk.tree);
      }
    }
    if err == OK {
      t1, h1 := disk.tree, disk.history;
      err := disk.Chown(tmp, s.uid, s.gid);
      TempOnlyStep(t0, t1, disk.tree, h1, n, tmp);
      if asIs {
        AlwaysHoldsSnoc(h1, n, tmp, f, disk.tree);
      }
    }
    r := if err == OK then Done else Failed(err);
  }

  /** Renaming the finished temporary file puts its node at the target and removes its own name. */
  lemma RenamedFile(t0: Tree, t: Tree, tmp: Path, abs: Path)
    requires WellFormed(t) && RenameAllowed(t, tmp, abs)
    requires tmp !in t0 && TempOnly(t0, t, tmp) && |tmp| == |abs|
    ensures Renamed(t, tmp, abs) == t0[abs := t[tmp]]
  {
    var t' := Renamed(t, tmp, abs);
    NothingBelowFile(t, tmp);
    NothingBelowFile(t, abs);
    forall q ensures q in t' <==> q in t0[abs := t[tmp]]
             ensures q in t' ==> t'[q] == t0[abs := t[tmp]][q]
    {
      RenamedFileAt(t0, t, tmp, abs, q);
    }
  }

  lemma RenamedFileAt(t0: Tree, t: Tree, tmp: Path, abs: Path, q: Path)
    requires WellFormed(t) && RenameAllowed(t, tmp, abs)
    requires tmp !in t0 && TempOnly(t0, t, tmp) && |tmp| == |abs|
    requires forall q :: (tmp < q || abs < q) ==> q !in t
    ensures q in Renamed(t, tmp, abs) <==> q in t0[abs := t[tmp]]
    ensures q in Renamed(t, tmp, abs) ==> Renamed(t, tmp, abs)[q] == t0[abs := t[tmp]][q]
  {
    RenamedAt(t, tmp, abs, q);
    TempOnlyElsewhere(t0, t, tmp);
    PrefixIsEqualOrStrict(tmp, q);
    PrefixIsEqualOrStrict(abs, q);
    if q == abs {
      assert tmp + q[|abs|..] == tmp;
    } else if abs < q {
      assert tmp < tmp + q[|abs|..];
    }
  }

  /** At every moment from index n on, abs holds what it held in t0, or the finished file f. */
  ghost predicate OldOrNew(t0: Tree, hs: seq<Tree>, n: nat, abs: Path, f: Node) {
    forall i | n <= i < |hs| ::
      || (abs in hs[i] && hs[i][abs] == f)
      || ((abs in hs[i] <==> abs in t0) && (abs in t0 ==> hs[i][abs] == t0[abs]))
  }

  lemma OldOrNewSnoc(t0: Tree, hs: seq<Tree>, n: nat, abs: Path, f: Node, t: Tree)
    requires OldOrNew(t0, hs, n, abs, f) && OldOrNew(t0, [t], 0, abs, f)
    ensures OldOrNew(t0, hs + [t], n, abs, f)
  {
    assert [t][0] == t;
  }

  lemma TempOnlyIsOld(t0: Tree, hs: seq<Tree>, n: nat, tmp: Path, abs: Path, f: Node)
    requires tmp !in t0 && tmp != abs && AllTempOnly(t0, hs, n, tmp)
    ensures OldOrNew(t0, hs, n, abs, f)
  {
  }

  lemma TempOnlyConfined(t0: Tree, hs: seq<Tree>, n: nat, tmp: Path, s: Site)
    requires s.Docroot() < tmp && AllTempOnly(t0, hs, n, tmp)
    ensures AllConfined(t0, hs, n, s)
  {
    forall i | n <= i < |hs| ensures Confined(t0, hs[i], s) {
      ChangesOnlyConfined(t0, hs[i], tmp, s);
    }
  }

  lemma RemovedTemp(t0: Tree, t: Tree, tmp: Path)
    requires tmp !in t0 && TempOnly(t0, t, tmp) && forall q :: tmp < q ==> q !in t
    ensures Without(t, tmp) == t0
  {
    TempOnlyElsewhere(t0, t, tmp);
    forall q ensures q in Without(t, tmp) <==> q in t0 {
      PrefixIsEqualOrStrict(tmp, q);
    }
  }

  const TEMP_PREFIX := ".filemgr-"

  /** Where the temporary file for abs goes. */
  function Temp(abs: Path, draw: Draw): Path {
    TempPath(Parent(abs), TEMP_PREFIX, draw)
  }

  /** The temporary file is created as the target itself, which is neither the old state nor the new. */
  predicate Breaks(t: Tree, abs: Path, draw: Draw, f: Node) {
    abs !in t && Temp(abs, draw) == abs && f != EMPTY_TEMP
  }

  lemma FirstStepBreaks(t: Tree, abs: Path, draw: Draw, f: Node)
    requires Temp(abs, draw) !in t
    ensures !OldOrNew(t, [t[Temp(abs, draw) := EMPTY_TEMP]], 0, abs, f) <==> Breaks(t, abs, draw, f)
  {
    var t1 := t[Temp(abs, draw) := EMPTY_TEMP];
    assert [t1][0] == t1;
  }

  /** Some random number makes the write's first call, os.CreateTemp, break atomicity exactly when the
      target's own name is one that call can draw, and the file to be written is not the empty one it
      creates. */
  lemma CollisionBreaksAtomicity(t: Tree, abs: Path, f: Node)
    ensures (exists draw: Draw :: TempName(t, Parent(abs), TEMP_PREFIX, Temp(abs, draw))
                                  && !OldOrNew(t, [t[Temp(abs, draw) := EMPTY_TEMP]], 0, abs, f))
            <==> TempName(t, Parent(abs), TEMP_PREFIX, abs) && f != EMPTY_TEMP
  {
    forall draw: Draw | Temp(abs, draw) !in t
      ensures !OldOrNew(t, [t[Temp(abs, draw) := EMPTY_TEMP]], 0, abs, f) <==> Breaks(t, abs, draw, f)
    {
      FirstStepBreaks(t, abs, draw, f);
    }
    if TempName(t, Parent(abs), TEMP_PREFIX, abs) && f != EMPTY_TEMP {
      var draw: Draw :| abs == TempPath(Parent(abs), TEMP_PREFIX, draw);
      assert Temp(abs, draw) == abs;
      assert Breaks(t, abs, draw, f);
    }
  }

  /** What the rename's own checks say about the tree before the temporary file was there. */
  lemma TargetCanBeReplaced(t0: Tree, t: Tree, tmp: Path, abs: Path)
    requires tmp !in t0 && tmp in t && TempOnly(t0, t, tmp) && |tmp| == |abs| && abs != []
    ensures RenameAllowed(t, tmp, abs) <==> IsDir(t0, Parent(abs)) && !IsDir(t0, abs)
  {
    TempOnlyElsewhere(t0, t, tmp);
  }

  /** Until the rename the target holds what it held, or, if the temporary file is the target itself, an
      empty file that is already the finished one. */
  lemma FilledIsAtomic(t0: Tree, hs: seq<Tree>, n: nat, t: Tree, tmp: Path, abs: Path, f: Node)
    requires tmp !in t0 && TempOnly(t0, t, tmp) && AllTempOnly(t0, hs, n, tmp)
    requires tmp == abs ==> AlwaysHolds(hs, n, tmp, f) && tmp in t && t[tmp] == f
    ensures OldOrNew(t0, hs + [t], n, abs, f)
  {
    if tmp != abs {
      TempOnlyIsOld(t0, hs, n, tmp, abs, f);
    }
    assert [t][0] == t;
    OldOrNewSnoc(t0, hs, n, abs, f, t);
  }

  lemma BrokenStays(t0: Tree, t1: Tree, h0: seq<Tree>, hs: seq<Tree>, abs: Path, draw: Draw, f: Node)
    requires h0 + [t1] <= hs && Temp(abs, draw) !in t0 && t1 == t0[Temp(abs, draw) := EMPTY_TEMP]
             && Breaks(t0, abs, draw, f)
    ensures !OldOrNew(t0, hs, |h0|, abs, f)
  {
    assert hs[|h0|] == (h0 + [t1])[|h0|] == t1;
  }

  /** CreateTemp, fill, rename. Success changes nothing but the target, which holds the complete content
      with the site's owner and the requested mode. Failure changes nothing at all, unless removing the
      temporary file fails too, which then is all that is left. Unless a call fails for outside reasons
      the write succeeds exactly when the target can be replaced and the temporary name is free. At
      every moment the target holds the old node or the finished one, and in a write that succeeds this
      fails exactly when the temporary file is the target itself. */
  method ReplaceFile(disk: Disk, s: Site, abs: Path, content: Bytes, mode: nat, draw: Draw) returns (r: Outcome)
    requires disk.Valid() && s.Docroot() < abs
    modifies disk
    ensures disk.Valid() && old(disk.history) <= disk.history
    ensures r == Done || r.Failed?
    ensures disk.faults == old(disk.faults) ==>
              (r == Done <==>
                 && IsDir(old(disk.tree), Parent(abs)) && !IsDir(old(disk.tree), abs)
                 && Temp(abs, draw) !in old(disk.tree))
    ensures r == Done ==> IsDir(old(disk.tree), Parent(abs)) && !IsDir(old(disk.tree), abs)
                          && disk.tree == old(disk.tree)[abs := File(s.Owned(mode), content)]
    ensures r != Done && disk.failedRemovals == old(disk.failedRemovals) ==> disk.tree == old(disk.tree)
    ensures r != Done && disk.failedRemovals != old(disk.failedRemovals) ==>
              Temp(abs, draw) !in old(disk.tree) && TempOnly(old(disk.tree), disk.tree, Temp(abs, draw))
    ensures !Breaks(old(disk.tree), abs, draw, File(s.Owned(mode), content)) ==>
              OldOrNew(old(disk.tree), disk.history, |old(disk.history)|, abs, File(s.Owned(mode), content))
    ensures r == Done && Breaks(old(disk.tree), abs, draw, File(s.Owned(mode), content)) ==>
              !OldOrNew(old(disk.tree), disk.history, |old(disk.history)|, abs, File(s.Owned(mode), content))
    ensures Confined(old(disk.tree), disk.tree, s)
    ensures AllConfined(old(disk.tree), disk.history, |old(disk.history)|, s)
  {
    ghost var t0, h0, f := disk.tree, disk.history, File(s.Owned(mode), content);
    var err, tmp := disk.CreateTemp(Parent(abs), TEMP_PREFIX, draw);
    if err != OK {
      assert disk.history == h0 + [t0];
      return Failed(err);
    }
    ghost var t1 := disk.tree;
    TempBeside(s, tmp, abs, draw);
    r := FillTemp(disk, s, tmp, content, mode, t0);
    ghost var t2, h2 := disk.tree, disk.history;
    assert h0 + [t1] <= h2;
    CreatedAndFilled(t0, t1, h0, h2, tmp);
    if !Breaks(t0, abs, draw, f) {
      if tmp == abs {
        CreatedAndHeld(t1, h0, h2, tmp, f);
      }
      FilledIsAtomic(t0, h2, |h0|, t2, tmp, abs, f);
    }
    r := FinishTemp(disk, s, tmp, abs, r, t0, |h0|, f);
    TargetCanBeReplaced(t0, t2, tmp, abs);
    if Breaks(t0, abs, draw, f) {
      BrokenStays(t0, t1, h0, disk.history, abs, draw, f);
    }
  }

  lemma CreatedAndFilled(t0: Tree, t1: Tree, h0: seq<Tree>, hs: seq<Tree>, tmp: Path)
    requires h0 + [t1] <= hs && TempOnly(t0, t1, tmp) && AllTempOnly(t0, hs, |h0| + 1, tmp)
    ensures AllTempOnly(t0, hs, |h0|, tmp)
  {
    assert hs[|h0|] == (h0 + [t1])[|h0|];
  }

  lemma CreatedAndHeld(t1: Tree, h0: seq<Tree>, hs: seq<Tree>, tmp: Path, f: Node)
    requires h0 + [t1] <= hs && tmp in t1 && t1[tmp] == f && AlwaysHolds(hs, |h0| + 1, tmp, f)
    ensures AlwaysHolds(hs, |h0|, tmp, f)
  {
    assert hs[|h0|] == (h0 + [t1])[|h0|];
  }

  /** The write's last step after any failure. t0 is the tree before the temporary file was created, n
      the moment it was. */
  method DropTemp(disk: Disk, s: Site, tmp: Path, abs: Path, ghost t0: Tree, ghost n: nat, ghost f: Node)
    requires disk.Valid() && s.Docroot() < tmp && tmp !in t0 && tmp in disk.tree && n <= |disk.history|
    requires TempOnly(t0, disk.tree, tmp) && AllTempOnly(t0, disk.history, n, tmp)
    modifies disk
    ensures disk.Valid() && disk.history == old(disk.history) + [disk.tree]
    ensures disk.faults >= old(disk.faults)
    ensures disk.failedRemovals == old(disk.failedRemovals) ==> disk.tree == t0
    ensures TempOnly(t0, disk.tree, tmp) && Confined(t0, disk.tree, s) && AllConfined(t0, disk.history, n, s)
    ensures OldOrNew(t0, old(disk.history) + [old(disk.tree)], n, abs, f) ==> OldOrNew(t0, disk.history, n, abs, f)
  {
    ghost var t1, h1 := disk.tree, disk.history;
    NothingBelowFile(t1, tmp);
    RemovedTemp(t0, t1, tmp);
    var _ := disk.Remove(tmp);
    TempOnlyConfined(t0, disk.history, n, tmp, s);
    ChangesOnlyConfined(t0, disk.tree, tmp, s);
    assert OldOrNew(t0, [t0], 0, abs, f);
    if OldOrNew(t0, h1 + [t1], n, abs, f) {
      LastIsOldOrNew(t0, h1, t1, n, abs, f);
      OldOrNewSnoc(t0, h1, n, abs, f, disk.tree);
    }
  }

  /** The rename of the finished file. */
  method RenameTemp(disk: Disk, s: Site, tmp: Path, abs: Path, ghost t0: Tree, ghost n: nat, ghost f: Node)
      returns (r: Outcome)
    requires disk.Valid() && s.Docroot() < tmp && s.Docroot() < abs && |tmp| == |abs| && tmp !in t0
             && n <= |disk.history|
    requires TempOnly(t0, disk.tree, tmp) && AllTempOnly(t0, disk.history, n, tmp) && tmp in disk.tree
             && disk.tree[tmp] == f
    modifies disk`tree, disk`history, disk`faults
    ensures disk.Valid() && disk.history == old(disk.history) + [disk.tree]
    ensures disk.faults == old(disk.faults) + Faulty(r)
    ensures r == Done || (r.Failed? && disk.tree == old(disk.tree) && AllTempOnly(t0, disk.history, n, tmp))
    ensures disk.faults == old(disk.faults) ==> (r == Done <==> RenameAllowed(old(disk.tree), tmp, abs))
    ensures r == Done ==> RenameAllowed(old(disk.tree), tmp, abs) && disk.tree == t0[abs := f]
                          && Confined(t0, disk.tree, s) && AllConfined(t0, disk.history, n, s)
    ensures OldOrNew(t0, old(disk.history) + [old(disk.tree)], n, abs, f) ==> OldOrNew(t0, disk.history, n, abs, f)
  {
    ghost var t1, h1 := disk.tree, disk.history;
    if RenameAllowed(t1, tmp, abs) {
      RenameInstalls(t0, t1, h1, n, tmp, abs, f, s);
    }
    var err := disk.Rename(tmp, abs);
    r := if err == OK then Done else Failed(err);
  }

  lemma RenameInstalls(t0: Tree, t1: Tree, h1: seq<Tree>, n: nat, tmp: Path, abs: Path, f: Node, s: Site)
    requires WellFormed(t1) && RenameAllowed(t1, tmp, abs) && s.Docroot() < tmp && s.Docroot() < abs && |tmp| == |abs|
    requires tmp !in t0 && TempOnly(t0, t1, tmp) && AllTempOnly(t0, h1, n, tmp) && t1[tmp] == f && n <= |h1|
    ensures var t2 := Renamed(t1, tmp, abs);
            && t2 == t0[abs := f] && Confined(t0, t2, s) && AllConfined(t0, h1 + [t2], n, s)
            && (OldOrNew(t0, h1 + [t1], n, abs, f) ==> OldOrNew(t0, h1 + [t2], n, abs, f))
  {
    TempOnlyConfined(t0, h1, n, tmp, s);
    RenamedFile(t0, t1, tmp, abs);
    ChangesOnlyConfined(t0, t0[abs := f], abs, s);
    LastReplaced(t0, h1, t1, t0[abs := f], n, abs, f);
  }

  /** The last steps of the write: rename the finished file over the target, or, after any failure,
      remove it. t0 is the tree before the temporary file was created, n the moment it was. */
  method FinishTemp(disk: Disk, s: Site, tmp: Path, abs: Path, filled: Outcome, ghost t0: Tree, ghost n: nat,
      ghost f: Node)
    returns (r: Outcome)
    requires disk.Valid() && s.Docroot() < tmp && s.Docroot() < abs && |tmp| == |abs| && tmp !in t0
    requires TempOnly(t0, disk.tree, tmp) && AllTempOnly(t0, disk.history, n, tmp) && n <= |disk.history|
    requires tmp in disk.tree && (filled == Done ==> disk.tree[tmp] == f)
    requires filled == Done || filled.Failed?
    modifies disk
    ensures disk.Valid() && old(disk.history) <= disk.history
    ensures r == Done || r.Failed?
    ensures disk.faults == old(disk.faults) && filled == Done ==>
              (r == Done <==> RenameAllowed(old(disk.tree), tmp, abs))
    ensures disk.faults >= old(disk.faults)
    ensures r == Done ==> filled == Done && RenameAllowed(old(disk.tree), tmp, abs) && disk.tree == t0[abs := f]
    ensures r != Done && disk.failedRemovals == old(disk.failedRemovals) ==> disk.tree == t0
    ensures r != Done ==> TempOnly(t0, disk.tree, tmp)
    ensures OldOrNew(t0, old(disk.history) + [old(disk.tree)], n, abs, f) ==> OldOrNew(t0, disk.history, n, abs, f)
    ensures Confined(t0, disk.tree, s) && AllConfined(t0, disk.history, n, s)
  {
    ghost var t1, h1 := disk.tree, disk.history;
    r := filled;
    if r == Done {
      r := RenameTemp(disk, s, tmp, abs, t0, n, f);
    }
    if r != Done {
      ghost var h2 := disk.history;
      DropTemp(disk, s, tmp, abs, t0, n, f);
      RenameTried(t0, h1, h2, t1, n, abs, f);
    }
  }

  lemma LastReplaced(t0: Tree, h1: seq<Tree>, t1: Tree, t2: Tree, n: nat, abs: Path, f: Node)
    requires n <= |h1| && abs in t2 && t2[abs] == f
    ensures OldOrNew(t0, h1 + [t1], n, abs, f) ==> OldOrNew(t0, h1 + [t2], n, abs, f)
  {
    LastIsOldOrNew(t0, h1, t1, n, abs, f);
  }

  /** A rename that failed, or was not tried, leaves all as it was. */
  lemma RenameTried(t0: Tree, h1: seq<Tree>, h2: seq<Tree>, t1: Tree, n: nat, abs: Path, f: Node)
    requires n <= |h1| && (h2 == h1 || h2 == h1 + [t1])
    ensures OldOrNew(t0, h1 + [t1], n, abs, f) ==> OldOrNew(t0, h2 + [t1], n, abs, f)
  {
    if OldOrNew(t0, h1 + [t1], n, abs, f) {
      LastIsOldOrNew(t0, h1, t1, n, abs, f);
      OldOrNewSnoc(t0, h1 + [t1], n, abs, f, t1);
    }
  }

  lemma LastIsOldOrNew(t0: Tree, hs: seq<Tree>, t: Tree, n: nat, abs: Path, f: Node)
    requires n <= |hs|
    ensures OldOrNew(t0, hs + [t], n, abs, f) ==> OldOrNew(t0, hs, n, abs, f) && OldOrNew(t0, [t], 0, abs, f)
  {
    if OldOrNew(t0, hs + [t], n, abs, f) {
      assert (hs + [t])[|hs|] == t;
      forall i | n <= i < |hs| ensures (hs + [t])[i] == hs[i] {
      }
    }
  }

  lemma TempBeside(s: Site, tmp: Path, abs: Path, draw: Draw)
    requires s.Docroot() < abs && tmp == Temp(abs, draw)
    ensures s.Docroot() < tmp && |tmp| == |abs| && Parent(tmp) == Parent(abs)
  {
    PrefixOfParent(s.Docroot(), abs);
  }

  ghost predicate SameAt(t: Tree, t': Tree, p: Path) {
    (p in t' <==> p in t) && (p in t ==> t'[p] == t[p])
  }

  lemma OldOrNewExtends(t: Tree, hs: seq<Tree>, n: nat, t1: Tree, hs1: seq<Tree>, abs: Path, f: Node)
    requires n <= |hs| && OldOrNew(t, hs, n, abs, f) && SameAt(t, t1, abs)
    requires hs <= hs1 && OldOrNew(t1, hs1, |hs|, abs, f)
    ensures OldOrNew(t, hs1, n, abs, f)
  {
    forall i | n <= i < |hs1|
      ensures (abs in hs1[i] && hs1[i][abs] == f) || ((abs in hs1[i] <==> abs in t)
              && (abs in t ==> hs1[i][abs] == t[abs]))
    {
      if i < |hs| {
        assert hs1[i] == hs[i];
      }
    }
  }

  lemma DirsAboveAreOld(t: Tree, t': Tree, hs: seq<Tree>, n: nat, p: Path, abs: Path, f: Node)
    requires OnlyAddsDirs(t, t', p) && AllOnlyAddDirs(t, hs, n, p) && |p| < |abs|
    ensures SameAt(t, t', abs) && OldOrNew(t, hs, n, abs, f)
  {
    forall i | n <= i < |hs|
      ensures (abs in hs[i] && hs[i][abs] == f) || ((abs in hs[i] <==> abs in t) && (abs in t ==> hs[i][abs] == t[abs]))
    {
      assert OnlyAddsDirs(t, hs[i], p);
    }
  }

  /** The tree once the docroot and abs's parent have been made. */
  function Prepared(t: Tree, s: Site, abs: Path): Tree {
    Ensured(Ensured(t, s.Docroot(), s.Owned(488)), Parent(abs), s.Owned(493))
  }

  /** Directories that are added put no file in the way and take none away. */
  lemma DirsDoNotBlock(t: Tree, t': Tree, p: Path, q: Path)
    requires OnlyAddsDirs(t, t', q)
    ensures NoFileOnTheWay(t', p) <==> NoFileOnTheWay(t, p)
  {
  }

  /** A path that exists is a directory exactly when no file stands on its way. */
  lemma DirOrBlocked(t: Tree, p: Path)
    requires WellFormed(t) && p in t
    ensures IsDir(t, p) <==> NoFileOnTheWay(t, p)
  {
    if IsDir(t, p) {
      forall q | q <= p && q in t ensures t[q].Dir? {
        PrefixIsEqualOrStrict(q, p);
        if q < p {
          AncestorsAreDirs(t, p, q);
        }
      }
    }
  }

  lemma BlockedAbove(t: Tree, d: Path, p: Path)
    requires d <= p && !NoFileOnTheWay(t, d)
    ensures !NoFileOnTheWay(t, p)
  {
  }

  lemma PrefixThere(t: Tree, p: Path, q: Path)
    requires q <= p && forall k | 0 <= k <= |p| :: p[..k] in t
    ensures q in t
  {
    assert q == p[..|q|];
  }

  lemma PreparedAdds(t: Tree, t1: Tree, t2: Tree, s: Site, abs: Path, q: Path)
    requires WellFormed(t) && WellFormed(t1) && s.Docroot() < abs
    requires t1 == Ensured(t, s.Docroot(), s.Owned(488))
    requires s.Docroot() in t || WithDirs(t, s.Docroot(), s.Owned(488)).Some?
    requires t2 == Ensured(t1, Parent(abs), s.Owned(493))
    requires Parent(abs) in t1 || WithDirs(t1, Parent(abs), s.Owned(493)).Some?
    requires q in t2 && q !in t
    ensures q < abs && t2[q] == Dir(Meta(s.uid, s.gid, if q <= s.Docroot() then 488 else 493))
  {
    EnsuredExact(t, s.Docroot(), s.Owned(488));
    EnsuredExact(t1, Parent(abs), s.Owned(493));
    if q <= s.Docroot() {
      PrefixThere(t1, s.Docroot(), q);
    }
  }

  /** ensureDocroot, then mkdirAllOwned of the parent. The parent is a directory then exactly when no file
      was on the way to it. */
  method PrepareParent(disk: Disk, s: Site, abs: Path, ghost f: Node) returns (r: Outcome)
    requires disk.Valid() && s.Valid() && ValidPath(abs) && s.Docroot() < abs
    modifies disk`tree, disk`history, disk`faults
    ensures disk.Valid() && old(disk.history) <= disk.history
    ensures disk.faults == old(disk.faults) + Faulty(r)
    ensures r == Done || r.Failed?
    ensures r == Done ==> disk.tree == Prepared(old(disk.tree), s, abs)
                          && (IsDir(disk.tree, Parent(abs)) <==> NoFileOnTheWay(old(disk.tree), Parent(abs)))
    ensures r == Done ==>
              forall q | q in disk.tree && q !in old(disk.tree) ::
                q < abs && disk.tree[q] == Dir(Meta(s.uid, s.gid, if q <= s.Docroot() then 488 else 493))
    ensures r.Failed? && r.errno != EIO ==> !NoFileOnTheWay(old(disk.tree), Parent(abs))
    ensures OnlyAddsDirs(old(disk.tree), disk.tree, Parent(abs))
    ensures SameAt(old(disk.tree), disk.tree, abs)
            && OldOrNew(old(disk.tree), disk.history, |old(disk.history)|, abs, f)
    ensures Confined(old(disk.tree), disk.tree, s)
    ensures AllConfined(old(disk.tree), disk.history, |old(disk.history)|, s)
  {
    ghost var t0, h0 := disk.tree, disk.history;
    r := EnsureDocroot(disk, s);
    ghost var t1, h1 := disk.tree, disk.history;
    PrefixOfParent(s.Docroot(), abs);
    DirsAboveAreOld(t0, t1, h1, |h0|, s.Docroot(), abs, f);
    OnlyAddsDirsWeaken(t0, t1, s.Docroot(), Parent(abs));
    if r == Done {
      r := MkdirInside(disk, s, Parent(abs), 493);
      OnlyAddsDirsTransitive(t0, t1, disk.tree, Parent(abs), Parent(abs));
      DirsAboveAreOld(t1, disk.tree, disk.history, |h1|, Parent(abs), abs, f);
      OldOrNewExtends(t0, h1, |h0|, t1, disk.history, abs, f);
      ConfinedTransitive(t0, t1, disk.tree, s);
      AllConfinedExtends(t0, h1, |h0|, t1, disk.history, s);
      WithDirsSucceeds(t1, Parent(abs), s.Owned(493));
      DirsDoNotBlock(t0, t1, Parent(abs), Parent(abs));
      if r == Done {
        ParentEnsured(t1, disk.tree, Parent(abs), s.Owned(493));
        forall q | q in disk.tree && q !in t0
          ensures q < abs && disk.tree[q] == Dir(Meta(s.uid, s.gid, if q <= s.Docroot() then 488 else 493))
        {
          PreparedAdds(t0, t1, disk.tree, s, abs, q);
        }
      }
    } else {
      WithDirsSucceeds(t0, s.Docroot(), s.Owned(488));
      if !NoFileOnTheWay(t0, s.Docroot()) {
        BlockedAbove(t0, s.Docroot(), Parent(abs));
      }
    }
  }

  lemma ParentEnsured(t: Tree, t': Tree, p: Path, meta: Meta)
    requires WellFormed(t) && t' == Ensured(t, p, meta) && (p !in t ==> WithDirs(t, p, meta) == Some(t'))
    ensures IsDir(t', p) <==> NoFileOnTheWay(t, p)
  {
    if p in t {
      DirOrBlocked(t, p);
    } else {
      WithDirsSucceeds(t, p, meta);
      EnsuredExact(t, p, meta);
    }
  }

  lemma OnlyAddsDirsWeaken(t: Tree, t': Tree, q: Path, p: Path)
    requires OnlyAddsDirs(t, t', q) && q <= p
    ensures OnlyAddsDirs(t, t', p)
  {
  }

  function FileBits(mode: nat): nat {
    (if mode == 0 then 420 else mode) % 512
  }

  /** What a write without faults needs: no file on the way to the target's parent, no directory at the
      target, and the temporary name free. */
  ghost predicate CanWrite(t: Tree, abs: Path, draw: Draw) {
    NoFileOnTheWay(t, Parent(abs)) && !IsDir(t, abs) && Temp(abs, draw) !in t
  }

  /** Write. */
  method Write(disk: Disk, s: Site, rel: string, content: Bytes, mode: nat, draw: Draw) returns (r: Outcome)
    requires disk.Valid() && s.Valid()
    modifies disk
    ensures disk.Valid() && old(disk.history) <= disk.history
    ensures r == TooLarge <==> |content| > MAX_WRITE
    ensures r == PathTraversal <==> |content| <= MAX_WRITE && ('\0' in rel || ".." in Split(TrimSpace(rel), '/'))
    ensures r == Done ==>
              var abs := s.Docroot() + KeptOf(TrimSpace(rel));
              abs in disk.tree
              && disk.tree[abs] == File(Meta(s.uid, s.gid, if mode == 0 then 420 else mode % 512), content)
              && forall q | q in disk.tree && q !in old(disk.tree) && q != abs ::
                   q < abs && disk.tree[q] == Dir(Meta(s.uid, s.gid, if q <= s.Docroot() then 488 else 493))
    ensures r == PathTraversal <==> |content| <= MAX_WRITE && Resolved(s.Docroot(), rel).None?
    ensures r == RefusedDocroot <==> |content| <= MAX_WRITE && Resolved(s.Docroot(), rel) == Some(s.Docroot())
    ensures r in {Done, TooLarge, PathTraversal, RefusedDocroot} || r.Failed?
    ensures r == Done || r.Failed? ==> Resolved(s.Docroot(), rel).Some?
                                       && Written(disk.tree, old(disk.tree), disk.history, |old(disk.history)|, s,
                                                  Resolved(s.Docroot(), rel).value, content, FileBits(mode), draw, r,
                                                  disk.failedRemovals == old(disk.failedRemovals))
    ensures (r == Done || r.Failed?) && disk.faults == old(disk.faults) ==>
              (r == Done <==> CanWrite(old(disk.tree), Resolved(s.Docroot(), rel).value, draw))
    ensures r != Done && !r.Failed? ==> disk.tree == old(disk.tree)
    ensures Confined(old(disk.tree), disk.tree, s)
    ensures AllConfined(old(disk.tree), disk.history, |old(disk.history)|, s)
  {
    if |content| > MAX_WRITE {
      return TooLarge;
    }
    DocrootIsValid(s);
    var resolved := ResolvePath(s.Docroot(), rel);
    if resolved.None? {
      return PathTraversal;
    }
    if resolved.value == Render(s.Docroot()) {
      return RefusedDocroot;
    }
    r := WriteAt(disk, s, KeptOf(resolved.value), content, FileBits(mode), draw);
  }

  /** What a write that got past its checks has done. Success leaves the prepared tree with the one file
      replaced. Failure has added directories at most, or, if a removal failed, the prepared tree also
      holds the temporary file. hs from n on are the moments of the write: at each the target held its
      old node or the finished one, and a write that succeeds misses that exactly when its temporary
      file is the target itself. */
  ghost predicate Written(t: Tree, t0: Tree, hs: seq<Tree>, n: nat, s: Site, abs: Path, content: Bytes, bits: nat,
                          draw: Draw, r: Outcome, cleaned: bool) {
    var prepared, f := Prepared(t0, s, abs), File(s.Owned(bits), content);
    && (r == Done ==> IsDir(prepared, Parent(abs)) && !IsDir(prepared, abs) && t == prepared[abs := f])
    && (r != Done && cleaned ==> OnlyAddsDirs(t0, t, Parent(abs)))
    && (r != Done && !cleaned ==> Temp(abs, draw) !in prepared && TempOnly(prepared, t, Temp(abs, draw)))
    && (!Breaks(t0, abs, draw, f) ==> OldOrNew(t0, hs, n, abs, f))
    && (r == Done && Breaks(t0, abs, draw, f) ==> !OldOrNew(t0, hs, n, abs, f))
  }

  /** Write, once the path is resolved. */
  method WriteAt(disk: Disk, s: Site, abs: Path, content: Bytes, bits: nat, draw: Draw) returns (r: Outcome)
    requires disk.Valid() && s.Valid() && ValidPath(abs) && s.Docroot() < abs
    modifies disk
    ensures disk.Valid() && old(disk.history) <= disk.history
    ensures r == Done || r.Failed?
    ensures Written(disk.tree, old(disk.tree), disk.history, |old(disk.history)|, s, abs, content, bits, draw, r,
                    disk.failedRemovals == old(disk.failedRemovals))
    ensures disk.faults == old(disk.faults) ==> (r == Done <==> CanWrite(old(disk.tree), abs, draw))
    ensures r == Done ==>
              forall q | q in disk.tree && q !in old(disk.tree) && q != abs ::
                q < abs && disk.tree[q] == Dir(Meta(s.uid, s.gid, if q <= s.Docroot() then 488 else 493))
    ensures Confined(old(disk.tree), disk.tree, s)
    ensures AllConfined(old(disk.tree), disk.history, |old(disk.history)|, s)
  {
    ghost var t0, h0, f := disk.tree, disk.history, File(s.Owned(bits), content);
    r := PrepareParent(disk, s, abs, f);
    ghost var t1, h1 := disk.tree, disk.history;
    if r == Done {
      r := ReplaceFile(disk, s, abs, content, bits, draw);
      SameBeside(t0, t1, abs, draw);
      if Breaks(t0, abs, draw, f) {
        if r == Done {
          NotOldOrNewExtends(t0, h1, |h0|, t1, disk.history, abs, f);
        }
      } else {
        OldOrNewExtends(t0, h1, |h0|, t1, disk.history, abs, f);
      }
      ConfinedTransitive(t0, t1, disk.tree, s);
      AllConfinedExtends(t0, h1, |h0|, t1, disk.history, s);
    }
  }

  /** Preparing touches neither the target nor the temporary name. */
  lemma SameBeside(t: Tree, t': Tree, abs: Path, draw: Draw)
    requires OnlyAddsDirs(t, t', Parent(abs)) && abs != []
    ensures SameAt(t, t', Temp(abs, draw)) && SameAt(t, t', abs)
    ensures forall f :: Breaks(t, abs, draw, f) <==> Breaks(t', abs, draw, f)
  {
  }

  lemma NotOldOrNewExtends(t: Tree, hs: seq<Tree>, n: nat, t1: Tree, hs1: seq<Tree>, abs: Path, f: Node)
    requires n <= |hs| && SameAt(t, t1, abs) && hs <= hs1 && !OldOrNew(t1, hs1, |hs|, abs, f)
    ensures !OldOrNew(t, hs1, n, abs, f)
  {
  }

  // ------------------------------------------------------------------------------ Delete

  lemma ShrinksConfined(t: Tree, t': Tree, p: Path, s: Site)
    requires s.Docroot() < p && Shrinks(t, t', p)
    ensures Confined(t, t', s)
  {
    forall q | q in t && (!(s.Docroot() <= q) || q == s.Docroot()) ensures q in t' {
      assert !(p <= q);
    }
  }

  lemma AllShrinkConfined(t: Tree, hs: seq<Tree>, n: nat, p: Path, s: Site)
    requires s.Docroot() < p && AllShrink(t, hs, n, p)
    ensures AllConfined(t, hs, n, s)
  {
    forall i | n <= i < |hs| ensures Confined(t, hs[i], s) {
      ShrinksConfined(t, hs[i], p, s);
    }
  }

  lemma NothingBelowEmpty(t: Tree, p: Path)
    requires WellFormed(t) && forall n :: p + [n] !in t
    ensures forall q :: p < q ==> q !in t
  {
    forall q | p < q ensures q !in t {
      var child := p + [q[|p|]];
      assert child == q[..|p| + 1];
      BelowMissing(t, child, q);
    }
  }

  /** What a delete without faults needs. */
  ghost predicate CanDelete(t: Tree, abs: Path, recursive: bool) {
    abs in t && (IsDir(t, abs) && !recursive ==> forall n :: abs + [n] !in t)
  }

  /** Delete. Unless a call fails for outside reasons it succeeds exactly when there is something at the
      path, and not a filled directory without leave to delete it. */
  method Delete(disk: Disk, s: Site, rel: string, recursive: bool) returns (r: Outcome)
    requires disk.Valid() && s.Valid()
    modifies disk
    ensures disk.Valid() && old(disk.history) <= disk.history
    ensures r == PathTraversal <==> '\0' in rel || ".." in Split(TrimSpace(rel), '/')
    ensures r == Done ==> s.Docroot() + KeptOf(TrimSpace(rel)) !in disk.tree
    ensures r == PathTraversal <==> Resolved(s.Docroot(), rel).None?
    ensures r == RefusedDocroot <==> Resolved(s.Docroot(), rel) == Some(s.Docroot())
    ensures r == Done ==>
              var abs := Resolved(s.Docroot(), rel).value;
              CanDelete(old(disk.tree), abs, recursive) && disk.tree == Without(old(disk.tree), abs)
    ensures disk.faults == old(disk.faults) ==>
              (r == Done <==> Resolved(s.Docroot(), rel).Some? && Resolved(s.Docroot(), rel).value != s.Docroot()
                              && CanDelete(old(disk.tree), Resolved(s.Docroot(), rel).value, recursive))
    ensures r == NotEmpty ==>
              var abs := Resolved(s.Docroot(), rel).value;
              && !recursive && IsDir(old(disk.tree), abs) && exists n :: abs + [n] in old(disk.tree)
    ensures r.Failed? && disk.faults == old(disk.faults) ==>
              Resolved(s.Docroot(), rel).Some? && Resolved(s.Docroot(), rel).value !in old(disk.tree)
    ensures r != Done && !(r.Failed? && recursive) ==> disk.tree == old(disk.tree)
    ensures Confined(old(disk.tree), disk.tree, s)
    ensures AllConfined(old(disk.tree), disk.history, |old(disk.history)|, s)
  {
    DocrootIsValid(s);
    var resolved := ResolvePath(s.Docroot(), rel);
    if resolved.None? {
      return PathTraversal;
    }
    if resolved.value == Render(s.Docroot()) {
      return RefusedDocroot;
    }
    PrefixIsEqualOrStrict(s.Docroot(), KeptOf(resolved.value));
    r := DeleteAt(disk, s, KeptOf(resolved.value), recursive);
  }

  /** Delete, once the path is resolved. */
  method DeleteAt(disk: Disk, s: Site, abs: Path, recursive: bool) returns (r: Outcome)
    requires disk.Valid() && s.Docroot() < abs
    modifies disk
    ensures disk.Valid() && old(disk.history) <= disk.history
    ensures r in {Done, NotEmpty} || r.Failed?
    ensures r == Done ==> CanDelete(old(disk.tree), abs, recursive) && disk.tree == Without(old(disk.tree), abs)
    ensures disk.faults == old(disk.faults) ==> (r == Done <==> CanDelete(old(disk.tree), abs, recursive))
    ensures r == NotEmpty ==> !recursive && IsDir(old(disk.tree), abs) && exists n :: abs + [n] in old(disk.tree)
    ensures disk.faults == old(disk.faults) ==>
              !recursive && IsDir(old(disk.tree), abs) && (exists n :: abs + [n] in old(disk.tree)) ==> r == NotEmpty
    ensures r.Failed? && disk.faults == old(disk.faults) ==> abs !in old(disk.tree)
    ensures r != Done && !(r.Failed? && recursive) ==> disk.tree == old(disk.tree)
    ensures Confined(old(disk.tree), disk.tree, s)
    ensures AllConfined(old(disk.tree), disk.history, |old(disk.history)|, s)
  {
    ghost var t0, h0 := disk.tree, disk.history;
    if abs !in disk.tree {
      return Failed(ENOENT);
    }
    var err: Errno;
    if disk.tree[abs].Dir? && recursive {
      err := disk.RemoveAll(abs);
    } else {
      if disk.tree[abs].Dir? {
        var names;
        err, names := disk.ReadDir(abs);
        if err != OK {
          return Failed(err);
        }
        if names != {} {
          var n :| n in names;
          assert abs + [n] in disk.tree;
          return NotEmpty;
        }
        NothingBelowEmpty(disk.tree, abs);
      } else {
        NothingBelowFile(disk.tree, abs);
      }
      ShrinksMore(t0, t0, h0, |h0|, abs, abs);
      err := disk.Remove(abs);
    }
    ShrinksConfined(t0, disk.tree, abs, s);
    AllShrinkConfined(t0, disk.history, |h0|, abs, s);
    r := if err == OK then Done else Failed(err);
  }

  // ------------------------------------------------------------------------------ Move

  /** Move. Only a rename that goes through moves anything; the parent of the target may have been
      made before a rename that fails. Unless a call fails for outside reasons it succeeds exactly when
      the source is there and, with the target's parent made, may be renamed to the target. */
  method Move(disk: Disk, s: Site, from: string, to: string) returns (r: Outcome)
    requires disk.Valid() && s.Valid()
    modifies disk
    ensures disk.Valid() && old(disk.history) <= disk.history
    ensures r == PathTraversal <==>
              || '\0' in from || ".." in Split(TrimSpace(from), '/')
              || '\0' in to || ".." in Split(TrimSpace(to), '/')
    ensures r == Done ==>
              var src, dst := s.Docroot() + KeptOf(TrimSpace(from)), s.Docroot() + KeptOf(TrimSpace(to));
              src in old(disk.tree) && dst in disk.tree && disk.tree[dst] == old(disk.tree)[src]
              && (src != dst ==> src !in disk.tree)
    ensures r == PathTraversal <==> Resolved(s.Docroot(), from).None? || Resolved(s.Docroot(), to).None?
    ensures r == RefusedDocroot <==>
              && Resolved(s.Docroot(), from).Some? && Resolved(s.Docroot(), to).Some?
              && s.Docroot() in {Resolved(s.Docroot(), from).value, Resolved(s.Docroot(), to).value}
    ensures r == Done ==>
              var src, dst := Resolved(s.Docroot(), from).value, Resolved(s.Docroot(), to).value;
              var t := Ensured(old(disk.tree), Parent(dst), s.Owned(493));
              src in old(disk.tree) && RenameAllowed(t, src, dst) && disk.tree == Renamed(t, src, dst)
    ensures (r == Done || r.Failed?) && disk.faults == old(disk.faults) ==>
              var src, dst := Resolved(s.Docroot(), from).value, Resolved(s.Docroot(), to).value;
              (r == Done <==>
                 && src in old(disk.tree)
                 && RenameAllowed(Ensured(old(disk.tree), Parent(dst), s.Owned(493)), src, dst))
    ensures r in {Done, PathTraversal, RefusedDocroot} || r.Failed?
    ensures r.Failed? ==> OnlyAddsDirs(old(disk.tree), disk.tree, Parent(Resolved(s.Docroot(), to).value))
    ensures r != Done && !r.Failed? ==> disk.tree == old(disk.tree)
    ensures Confined(old(disk.tree), disk.tree, s)
    ensures AllConfined(old(disk.tree), disk.history, |old(disk.history)|, s)
  {
    DocrootIsValid(s);
    var src := ResolvePath(s.Docroot(), from);
    if src.None? {
      return PathTraversal;
    }
    var dst := ResolvePath(s.Docroot(), to);
    if dst.None? {
      return PathTraversal;
    }
    if src.value == Render(s.Docroot()) || dst.value == Render(s.Docroot()) {
      return RefusedDocroot;
    }
    PrefixIsEqualOrStrict(s.Docroot(), KeptOf(src.value));
    PrefixIsEqualOrStrict(s.Docroot(), KeptOf(dst.value));
    if KeptOf(src.value) !in disk.tree {
      return Failed(ENOENT);
    }
    r := MoveTo(disk, s, KeptOf(src.value), KeptOf(dst.value));
  }

  /** The source's node stands at the target, and no longer at the source. */
  lemma MovedEnds(t: Tree, src: Path, dst: Path)
    requires WellFormed(t) && RenameAllowed(t, src, dst)
    ensures dst in Renamed(t, src, dst) && Renamed(t, src, dst)[dst] == t[src]
    ensures src != dst ==> src !in Renamed(t, src, dst)
  {
    RenamedAt(t, src, dst, dst);
    RenamedAt(t, src, dst, src);
    assert src + dst[|dst|..] == src;
    PrefixIsEqualOrStrict(dst, src);
    if dst < src {
      AncestorsAreDirs(t, src, dst);
    }
  }

  /** Move, once both paths are resolved. */
  method MoveTo(disk: Disk, s: Site, src: Path, dst: Path) returns (r: Outcome)
    requires disk.Valid() && s.Valid() && ValidPath(dst) && s.Docroot() < src && s.Docroot() < dst
    modifies disk
    ensures disk.Valid() && old(disk.history) <= disk.history
    ensures r == Done || r.Failed?
    ensures r == Done ==>
              var t := Ensured(old(disk.tree), Parent(dst), s.Owned(493));
              RenameAllowed(t, src, dst) && disk.tree == Renamed(t, src, dst)
    ensures disk.faults == old(disk.faults) ==>
              (r == Done <==> RenameAllowed(Ensured(old(disk.tree), Parent(dst), s.Owned(493)), src, dst))
    ensures r == Done && src in old(disk.tree) ==>
              dst in disk.tree && disk.tree[dst] == old(disk.tree)[src] && (src != dst ==> src !in disk.tree)
    ensures r.Failed? ==> OnlyAddsDirs(old(disk.tree), disk.tree, Parent(dst))
    ensures Confined(old(disk.tree), disk.tree, s)
    ensures AllConfined(old(disk.tree), disk.history, |old(disk.history)|, s)
  {
    ghost var t0, h0 := disk.tree, disk.history;
    PrefixOfParent(s.Docroot(), dst);
    r := MkdirInside(disk, s, Parent(dst), 493);
    if r != Done {
      return;
    }
    ghost var t1, h1 := disk.tree, disk.history;
    var err := disk.Rename(src, dst);
    if err == OK {
      RenamedContained(t1, src, dst, s.Docroot());
      MovedEnds(t1, src, dst);
    }
    assert Confined(t1, disk.tree, s);
    assert disk.history == h1 + [disk.tree];
    ConfinedTransitive(t0, t1, disk.tree, s);
    AllConfinedExtends(t0, h1, |h0|, t1, disk.history, s);
    r := if err == OK then Done else Failed(err);
  }

  // ------------------------------------------------------------------------------ sessions

  datatype Op =
    | OpList(rel: string)
    | OpMkdir(rel: string, mode: nat)
    | OpWrite(rel: string, content: Bytes, mode: nat, draw: Draw)
    | OpDelete(rel: string, recursive: bool)
    | OpMove(from: string, to: string)

  /** Any sequence of operations on a site, each succeeding or failing part-way: at every moment the tree
      is well formed, a docroot that existed at the start stands unchanged and nothing outside the
      docroot has changed, but for missing ancestors of the docroot that appeared. */
  method RunSession(disk: Disk, s: Site, ops: seq<Op>)
    requires disk.Valid() && s.Valid()
    modifies disk
    ensures disk.Valid() && old(disk.history) <= disk.history
    ensures AllWellFormed(disk.history, |old(disk.history)|)
    ensures Confined(old(disk.tree), disk.tree, s)
    ensures AllConfined(old(disk.tree), disk.history, |old(disk.history)|, s)
  {
    ghost var t0, h0 := disk.tree, disk.history;
    var i := 0;
    while i < |ops|
      invariant 0 <= i <= |ops|
      invariant disk.Valid() && h0 <= disk.history
      invariant Confined(t0, disk.tree, s)
      invariant AllConfined(t0, disk.history, |h0|, s)
    {
      ghost var t1, h1 := disk.tree, disk.history;
      RunOp(disk, s, ops[i]);
      ConfinedTransitive(t0, t1, disk.tree, s);
      AllConfinedExtends(t0, h1, |h0|, t1, disk.history, s);
      i := i + 1;
    }
  }

  method RunOp(disk: Disk, s: Site, op: Op)
    requires disk.Valid() && s.Valid()
    modifies disk
    ensures disk.Valid() && old(disk.history) <= disk.history
    ensures Confined(old(disk.tree), disk.tree, s)
    ensures AllConfined(old(disk.tree), disk.history, |old(disk.history)|, s)
  {
    match op {
      case OpList(rel) => var _, _ := List(disk, s, rel);
      case OpMkdir(rel, mode) => var _ := Mkdir(disk, s, rel, mode);
      case OpWrite(rel, content, mode, draw) => var _ := Write(disk, s, rel, content, mode, draw);
      case OpDelete(rel, recursive) => var _ := Delete(disk, s, rel, recursive);
      case OpMove(from, to) => var _ := Move(disk, s, from, to);
    }
  }
}
