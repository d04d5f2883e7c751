/** A files backup and the restore of it. The backup archives the docroot, .../public; the restore
    extracts one level up, into the site's home directory. */
module SiteBackup {
  import opened Paths
  import opened FileSystem
  import opened TarArchive
  import opened RoundTrip

  const PUBLIC: Path := ["public"]

  /** restoreFiles: make the destination, then extract into it. Unless a call fails for outside reasons it
      succeeds exactly when no file is in the way of the home directory and the archive is acceptable. */
  method RestoreFiles(disk: Disk, home: Path, es: seq<Entry>) returns (err: Errno)
    requires disk.Valid() && ValidPath(home)
    modifies disk
    ensures disk.Valid()
    ensures disk.faults == old(disk.faults) ==>
              var made := WithDirs(old(disk.tree), home, Meta(0, 0, 488));
              (err == OK <==> made.Some? && Acceptable(made.value, home, es))
    ensures err == OK ==>
              var made := WithDirs(old(disk.tree), home, Meta(0, 0, 488));
              made.Some? && Overlay(made.value, home, es, Restore) == Some(disk.tree)
    ensures Contained(old(disk.tree), disk.tree, home)
    ensures AllContained(old(disk.tree), disk.history, |old(disk.history)|, home)
  {
    ghost var t0, h0 := disk.tree, disk.history;
    err := MakeDirs(disk, home, home, 488);
    if err != OK {
      return;
    }
    ghost var t1, h1 := disk.tree, disk.history;
    ExtractionSucceedsExactlyWhenAcceptable(t1, home, es, Restore);
    err := Extract(disk, home, es, Restore);
    ContainedTransitive(t0, t1, disk.tree, home);
    AllContainedExtends(t0, h1, |h0|, t1, disk.history, home);
  }

  /** The longest path in a tree. */
  function Depth(item: Item): nat
    decreases item, 1
  {
    if item.DirItem? then DepthKids(item.kids) else 0
  }

  function DepthKids(kids: seq<Kid>): nat
    decreases kids, 0
  {
    if kids == [] then 0
    else
      var a, b := 1 + Depth(kids[0].item), DepthKids(kids[1..]);
      if a < b then b else a
  }

  lemma {:induction false} LookupDepth(item: Item, q: Path)
    requires Lookup(item, q).Some?
    ensures |q| <= Depth(item)
    decreases item, 1
  {
    if q != [] {
      LookupKidsDepth(item.kids, q);
    }
  }

  lemma {:induction false} LookupKidsDepth(kids: seq<Kid>, q: Path)
    requires q != [] && LookupKids(kids, q).Some?
    ensures |q| <= DepthKids(kids)
    decreases kids, 0
  {
    if kids[0].name == q[0] {
      LookupDepth(kids[0].item, q[1..]);
    } else {
      LookupKidsDepth(kids[1..], q);
    }
  }

  /** No tree repeats itself one level down, below a name: a path that keeps something when `public`
      is put in front, again and again, outgrows the tree. */
  lemma {:induction false} NoTreeContainsItself(item: Item, q: Path)
    requires forall r :: r != [] ==> RestoredShape(item, PUBLIC + r) == RestoredShape(item, r)
    requires q != []
    ensures RestoredShape(item, q) == Nothing
    decreases Depth(item) - |q|
  {
    if RestoredShape(item, q) != Nothing {
      assert RestoredShape(item, PUBLIC + q) != Nothing;
      LookupDepth(item, PUBLIC + q);
      NoTreeContainsItself(item, PUBLIC + q);
    }
  }

  /** What the restore puts at a path of the docroot: the archived `public/...`, or what was there. */
  lemma DocrootAfterRestore(t: Tree, home: Path, item: Item, q: Path)
    requires WellFormed(t) && ValidTree(item) && Walk(item, []).Some?
    requires Overlay(t, home, Walk(item, []).value, Restore).Some?
    ensures var t' := Overlay(t, home, Walk(item, []).value, Restore).value;
            DiskShape(t', home + PUBLIC + q) ==
            if RestoredShape(item, PUBLIC + q) == Nothing then DiskShape(t, home + PUBLIC + q)
            else RestoredShape(item, PUBLIC + q)
  {
    assert home + PUBLIC + q == home + (PUBLIC + q);
    TreeLiesOver(t, home, item, Restore, PUBLIC + q);
  }

  /** The docroot holds what the backup of it kept. */
  ghost predicate DocrootIs(t: Tree, home: Path, item: Item) {
    forall q :: DiskShape(t, home + PUBLIC + q) == RestoredShape(item, q)
  }

  /** Restoring a backup over a site whose docroot has been emptied brings the docroot back exactly
      when there was nothing in it: every archived file lands one level too high. */
  lemma RestoreRebuildsDocrootOnlyIfEmpty(t: Tree, home: Path, item: Item)
    requires WellFormed(t) && ValidTree(item) && item.DirItem? && Walk(item, []).Some?
    requires IsDir(t, home + PUBLIC) && forall p :: p in t ==> !(home + PUBLIC < p)
    requires Overlay(t, home, Walk(item, []).value, Restore).Some?
    ensures DocrootIs(Overlay(t, home, Walk(item, []).value, Restore).value, home, item)
            <==> forall q :: q != [] ==> RestoredShape(item, q) == Nothing
  {
    var t' := Overlay(t, home, Walk(item, []).value, Restore).value;
    forall q
      ensures DiskShape(t', home + PUBLIC + q) ==
              if RestoredShape(item, PUBLIC + q) == Nothing then DiskShape(t, home + PUBLIC + q)
              else RestoredShape(item, PUBLIC + q)
      ensures q != [] ==> DiskShape(t, home + PUBLIC + q) == Nothing
    {
      DocrootAfterRestore(t, home, item, q);
      if q != [] {
        assert home + PUBLIC < home + PUBLIC + q;
      }
    }
    assert home + PUBLIC + [] == home + PUBLIC;
    if DocrootIs(t', home, item) {
      forall r | r != [] ensures RestoredShape(item, PUBLIC + r) == RestoredShape(item, r) {
        assert DiskShape(t', home + PUBLIC + r) == RestoredShape(item, r);
      }
      forall q | q != [] ensures RestoredShape(item, q) == Nothing {
        NoTreeContainsItself(item, q);
      }
    }
    if forall q :: q != [] ==> RestoredShape(item, q) == Nothing {
      forall q ensures DiskShape(t', home + PUBLIC + q) == RestoredShape(item, q) {
        assert PUBLIC + q != [];
      }
    }
  }

  /** Where the files do go: the archived tree stands at the home directory itself. */
  lemma RestoredFilesLandInHome(t: Tree, home: Path, item: Item, q: Path)
    requires WellFormed(t) && ValidTree(item) && Walk(item, []).Some?
    requires Overlay(t, home, Walk(item, []).value, Restore).Some?
    requires RestoredShape(item, q) != Nothing
    ensures DiskShape(Overlay(t, home, Walk(item, []).value, Restore).value, home + q) == RestoredShape(item, q)
  {
    TreeLiesOver(t, home, item, Restore, q);
  }
}
