/** What archiving and extracting do together: the overlay an entry list makes of a disk, when it
    exists, and which site trees come back unchanged. */
module RoundTrip {
  import opened Text
  import opened Paths
  import opened FileSystem
  import opened TarArchive

  // ---------------------------------------------------------------- the overlay, path by path

  /** Entry e needs p to be a directory. */
  predicate NeedsDir(d: Path, e: Entry, p: Path) {
    || (e.kind.Directory? && p <= Target(d, e.name))
    || (e.kind.Regular? && p < Target(d, e.name))
  }

  predicate StoresAt(d: Path, e: Entry, p: Path) {
    e.kind.Regular? && Target(d, e.name) == p
  }

  predicate Needed(d: Path, es: seq<Entry>, p: Path) {
    exists i :: 0 <= i < |es| && NeedsDir(d, es[i], p)
  }

  /** The content the last file entry for p carries. */
  function LastFile(d: Path, es: seq<Entry>, p: Path): Option<Bytes> {
    if es == [] then None
    else if StoresAt(d, es[|es| - 1], p) then Some(Limit(es[|es| - 1].data))
    else LastFile(d, es[..|es| - 1], p)
  }

  lemma {:induction false} LastFileIsAnEntry(d: Path, es: seq<Entry>, p: Path)
    ensures LastFile(d, es, p).Some? <==> exists i :: 0 <= i < |es| && StoresAt(d, es[i], p)
    ensures LastFile(d, es, p).Some? ==>
              exists i :: 0 <= i < |es| && StoresAt(d, es[i], p) && LastFile(d, es, p).value == Limit(es[i].data)
  {
    if es != [] {
      var n := |es| - 1;
      if StoresAt(d, es[n], p) {
        assert LastFile(d, es, p).value == Limit(es[n].data);
      } else {
        LastFileIsAnEntry(d, es[..n], p);
      }
    }
  }

  lemma NeededSnoc(d: Path, es: seq<Entry>, p: Path)
    requires es != []
    ensures Needed(d, es, p) <==> Needed(d, es[..|es| - 1], p) || NeedsDir(d, es[|es| - 1], p)
  {
    var n := |es| - 1;
    if Needed(d, es[..n], p) {
      var i :| 0 <= i < n && NeedsDir(d, es[..n][i], p);
      assert NeedsDir(d, es[i], p);
    }
    if Needed(d, es, p) {
      var i :| 0 <= i < |es| && NeedsDir(d, es[i], p);
      if i < n {
        assert NeedsDir(d, es[..n][i], p);
      }
    }
  }

  /** No file of t stands where e needs a directory. */
  ghost predicate WayIsClear(t: Tree, d: Path, e: Entry) {
    forall q :: q in t && NeedsDir(d, e, q) ==> t[q].Dir?
  }

  lemma StepSucceeds(t: Tree, d: Path, e: Entry, x: Extractor)
    requires WellFormed(t)
    ensures Step(t, d, e, x).Some? <==>
            && Admitted(d, e.name)
            && WayIsClear(t, d, e)
            && (e.kind.Regular? ==> Target(d, e.name) != [] && !IsDir(t, Target(d, e.name)))
  {
    var target := Target(d, e.name);
    if Admitted(d, e.name) {
      if e.kind.Directory? {
        WithDirsSucceeds(t, target, Meta(0, 0, DirMode(x, e.mode)));
      } else if e.kind.Regular? && target != [] {
        var meta := Meta(0, 0, ParentMode(x));
        WithDirsSucceeds(t, Parent(target), meta);
        forall q | q in t ensures q < target <==> q <= Parent(target) {
          PrefixOfParent(q, target);
        }
        if WithDirs(t, Parent(target), meta).Some? {
          WithDirsExact(t, Parent(target), meta);
        }
      }
    }
  }

  /** What one entry does to one path. */
  lemma StepAt(t: Tree, d: Path, e: Entry, x: Extractor, p: Path)
    requires WellFormed(t) && Step(t, d, e, x).Some?
    ensures WellFormed(Step(t, d, e, x).value)
    ensures var t' := Step(t, d, e, x).value;
            if StoresAt(d, e, p) then p in t' && t'[p].File? && t'[p].data == Limit(e.data)
            else if NeedsDir(d, e, p) then IsDir(t', p)
            else (p in t' <==> p in t) && (p in t ==> t'[p] == t[p])
  {
    StepSucceeds(t, d, e, x);
    var target := Target(d, e.name);
    var t' := Step(t, d, e, x).value;
    if e.kind.Directory? {
      var meta := Meta(0, 0, DirMode(x, e.mode));
      WithDirsSucceeds(t, target, meta);
      WithDirsExact(t, target, meta);
      if p <= target {
        PrefixesAdded(t, t', target, meta, p);
      }
    } else if e.kind.Regular? {
      var meta := Meta(0, 0, ParentMode(x));
      WithDirsSucceeds(t, Parent(target), meta);
      WithDirsExact(t, Parent(target), meta);
      var t1 := WithDirs(t, Parent(target), meta).value;
      StoredWellFormed(t1, target, e);
      PrefixOfParent(p, target);
      if p <= Parent(target) {
        PrefixesAdded(t, t1, Parent(target), meta, p);
      }
    }
  }

  lemma StoredWellFormed(t: Tree, target: Path, e: Entry)
    requires WellFormed(t) && IsDir(t, Parent(target)) && Stored(t, target, e).Some?
    ensures WellFormed(Stored(t, target, e).value)
  {
    NothingBelowFile(t, target);
    forall q | q in Stored(t, target, e).value && q != []
      ensures IsDir(Stored(t, target, e).value, Parent(q))
    {
      PrefixOfParent(target, q);
      PrefixIsEqualOrStrict(target, q);
    }
  }

  lemma {:induction false} OverlayWellFormed(t: Tree, d: Path, es: seq<Entry>, x: Extractor)
    requires WellFormed(t) && Overlay(t, d, es, x).Some?
    ensures WellFormed(Overlay(t, d, es, x).value)
  {
    if es != [] {
      var n := |es| - 1;
      OverlayWellFormed(t, d, es[..n], x);
      StepAt(Overlay(t, d, es[..n], x).value, d, es[n], x, []);
    }
  }

  /** After a successful extraction a path holds the last archived file for it, or else a directory
      if any entry needs one there, or else exactly what it held before. */
  lemma {:induction false} OverlayAt(t: Tree, d: Path, es: seq<Entry>, x: Extractor, p: Path)
    requires WellFormed(t) && Overlay(t, d, es, x).Some?
    ensures var t' := Overlay(t, d, es, x).value;
            match LastFile(d, es, p)
            case Some(data) => p in t' && t'[p].File? && t'[p].data == data
            case None =>
              if Needed(d, es, p) then IsDir(t', p)
              else (p in t' <==> p in t) && (p in t ==> t'[p] == t[p])
  {
    if es != [] {
      var n := |es| - 1;
      var t1 := Overlay(t, d, es[..n], x).value;
      OverlayAt(t, d, es[..n], x, p);
      OverlayWellFormed(t, d, es[..n], x);
      StepSucceeds(t1, d, es[n], x);
      StepAt(t1, d, es[n], x, p);
      NeededSnoc(d, es, p);
    }
  }

  /** Entry i is not refused by name, and no path it names is asked to be both a file and a
      directory, by two entries or by an entry and the disk. */
  ghost predicate Fits(t: Tree, d: Path, es: seq<Entry>, i: nat)
    requires i < |es|
  {
    && Admitted(d, es[i].name)
    && WayIsClear(t, d, es[i])
    && (es[i].kind.Regular? ==>
          var p := Target(d, es[i].name);
          p != [] && !IsDir(t, p) && !Needed(d, es, p))
  }

  ghost predicate Acceptable(t: Tree, d: Path, es: seq<Entry>) {
    forall i | 0 <= i < |es| :: Fits(t, d, es, i)
  }

  lemma AcceptablePrefix(t: Tree, d: Path, es: seq<Entry>)
    requires es != [] && Acceptable(t, d, es)
    ensures Acceptable(t, d, es[..|es| - 1])
  {
    var es' := es[..|es| - 1];
    forall i | 0 <= i < |es'| ensures Fits(t, d, es', i) {
      assert Fits(t, d, es, i) && es'[i] == es[i];
      NeededSnoc(d, es, Target(d, es[i].name));
    }
  }

  lemma {:induction false} AcceptableExtracts(t: Tree, d: Path, es: seq<Entry>, x: Extractor)
    requires WellFormed(t) && Acceptable(t, d, es)
    ensures Overlay(t, d, es, x).Some?
  {
    if es != [] {
      var n := |es| - 1;
      AcceptablePrefix(t, d, es);
      AcceptableExtracts(t, d, es[..n], x);
      LastEntryExtracts(t, d, es, x);
    }
  }

  lemma LastEntryExtracts(t: Tree, d: Path, es: seq<Entry>, x: Extractor)
    requires WellFormed(t) && es != [] && Acceptable(t, d, es) && Overlay(t, d, es[..|es| - 1], x).Some?
    ensures Overlay(t, d, es, x).Some?
  {
    var n := |es| - 1;
    var e := es[n];
    assert Fits(t, d, es, n);
    var t1 := Overlay(t, d, es[..n], x).value;
    OverlayWellFormed(t, d, es[..n], x);
    forall q | q in t1 && NeedsDir(d, e, q) ensures t1[q].Dir? {
      OverlayAt(t, d, es[..n], x, q);
      NoEarlierFile(t, d, es, q);
    }
    if e.kind.Regular? {
      OverlayAt(t, d, es[..n], x, Target(d, e.name));
      NeededSnoc(d, es, Target(d, e.name));
    }
    StepSucceeds(t1, d, e, x);
  }

  lemma NoEarlierFile(t: Tree, d: Path, es: seq<Entry>, q: Path)
    requires es != [] && Acceptable(t, d, es) && NeedsDir(d, es[|es| - 1], q)
    ensures LastFile(d, es[..|es| - 1], q) == None
  {
    var n := |es| - 1;
    NeededSnoc(d, es, q);
    LastFileIsAnEntry(d, es[..n], q);
    forall i | 0 <= i < n ensures !StoresAt(d, es[..n][i], q) {
      assert Fits(t, d, es, i) && es[..n][i] == es[i];
    }
  }

  /** Extraction never turns a directory into a file or a file into a directory, and removes
      nothing. */
  lemma {:induction false} KindsStay(t: Tree, d: Path, es: seq<Entry>, x: Extractor, p: Path)
    requires WellFormed(t) && Overlay(t, d, es, x).Some? && p in t
    ensures p in Overlay(t, d, es, x).value
    ensures t[p].Dir? <==> Overlay(t, d, es, x).value[p].Dir?
  {
    if es != [] {
      var n := |es| - 1;
      var t1 := Overlay(t, d, es[..n], x).value;
      KindsStay(t, d, es[..n], x, p);
      OverlayWellFormed(t, d, es[..n], x);
      StepSucceeds(t1, d, es[n], x);
      StepAt(t1, d, es[n], x, p);
    }
  }

  lemma LastEntryFits(t: Tree, d: Path, es: seq<Entry>, x: Extractor)
    requires WellFormed(t) && es != [] && Overlay(t, d, es, x).Some?
    ensures Fits(t, d, es, |es| - 1)
  {
    var n := |es| - 1;
    var t1 := Overlay(t, d, es[..n], x).value;
    OverlayWellFormed(t, d, es[..n], x);
    StepSucceeds(t1, d, es[n], x);
    forall q | q in t ensures q in t1 && (t[q].Dir? <==> t1[q].Dir?) {
      KindsStay(t, d, es[..n], x, q);
    }
    if es[n].kind.Regular? {
      var p := Target(d, es[n].name);
      NeededSnoc(d, es, p);
      OverlayAt(t, d, es[..n], x, p);
      assert Needed(d, es[..n], p) ==> LastFile(d, es[..n], p).Some?;
      EarlierFileNotNeeded(t, d, es[..n], x, p);
    }
  }

  /** In an extractable list no path is both stored and needed as a directory. */
  lemma {:induction false} EarlierFileNotNeeded(t: Tree, d: Path, es: seq<Entry>, x: Extractor, p: Path)
    requires WellFormed(t) && Overlay(t, d, es, x).Some?
    ensures !(LastFile(d, es, p).Some? && Needed(d, es, p))
  {
    if es != [] {
      var n := |es| - 1;
      var t1 := Overlay(t, d, es[..n], x).value;
      EarlierFileNotNeeded(t, d, es[..n], x, p);
      OverlayWellFormed(t, d, es[..n], x);
      StepSucceeds(t1, d, es[n], x);
      OverlayAt(t, d, es[..n], x, p);
      NeededSnoc(d, es, p);
    }
  }

  lemma {:induction false} ExtractedFits(t: Tree, d: Path, es: seq<Entry>, x: Extractor, i: nat)
    requires WellFormed(t) && Overlay(t, d, es, x).Some? && i < |es|
    ensures Fits(t, d, es, i)
    decreases |es|
  {
    var n := |es| - 1;
    if i < n {
      ExtractedFits(t, d, es[..n], x, i);
      assert es[..n][i] == es[i];
      if es[i].kind.Regular? {
        var p := Target(d, es[i].name);
        assert StoresAt(d, es[i], p);
        LastFileIsAnEntry(d, es, p);
        EarlierFileNotNeeded(t, d, es, x, p);
      }
    } else {
      LastEntryFits(t, d, es, x);
    }
  }

  lemma ExtractsAcceptable(t: Tree, d: Path, es: seq<Entry>, x: Extractor)
    requires WellFormed(t) && Overlay(t, d, es, x).Some?
    ensures Acceptable(t, d, es)
  {
    forall i | 0 <= i < |es| ensures Fits(t, d, es, i) {
      ExtractedFits(t, d, es, x, i);
    }
  }

  /** Extraction succeeds exactly on the acceptable archives. */
  lemma ExtractionSucceedsExactlyWhenAcceptable(t: Tree, d: Path, es: seq<Entry>, x: Extractor)
    requires WellFormed(t)
    ensures Overlay(t, d, es, x).Some? <==> Acceptable(t, d, es)
  {
    if Overlay(t, d, es, x).Some? {
      ExtractsAcceptable(t, d, es, x);
    }
    if Acceptable(t, d, es) {
      AcceptableExtracts(t, d, es, x);
    }
  }

  // ---------------------------------------------------------------- trees through the archive

  /** What stands at a path, leaving owners and modes aside. */
  datatype Shape = Nothing | ADir | AFile(data: Bytes) | ASpecial

  function DiskShape(t: Tree, p: Path): Shape {
    if p !in t then Nothing
    else match t[p] case Dir(_) => ADir case File(_, data) => AFile(data)
  }

  function SourceShape(item: Item, q: Path): Shape {
    match Lookup(item, q)
    case None => Nothing
    case Some(FileItem(_, data)) => AFile(data)
    case Some(DirItem(_, _)) => ADir
    case Some(_) => ASpecial
  }

  /** What the round trip leaves of the source: files cut at 4 GiB, and no links or devices. */
  function RestoredShape(item: Item, q: Path): Shape {
    match SourceShape(item, q)
    case AFile(data) => AFile(Limit(data))
    case ASpecial => Nothing
    case s => s
  }

  /** Every item's path is free of "..", as the extractors demand. */
  ghost predicate SafeNames(item: Item) {
    forall q :: Lookup(item, q).Some? ==> !HasDotDot(RelName(q))
  }

  /** That is: no name anywhere in the tree holds two dots in a row. */
  lemma SafeNamesExactly(item: Item)
    ensures SafeNames(item) <==>
            forall q, j, k | Lookup(item, q).Some? && 0 <= j < |q| && 0 <= k < |q[j]| - 1 ::
              !(q[j][k] == '.' && q[j][k + 1] == '.')
  {
    forall q | q != [] ensures HasDotDot(RelName(q)) <==> exists j :: 0 <= j < |q| && HasDotDot(q[j]) {
      HasDotDotJoin(q);
    }
    if SafeNames(item) {
      forall q, j, k | Lookup(item, q).Some? && 0 <= j < |q| && 0 <= k < |q[j]| - 1
        ensures !(q[j][k] == '.' && q[j][k + 1] == '.')
      {
        assert !HasDotDot(q[j]);
      }
    }
  }

  /** Only directories and files of at most 4 GiB. */
  ghost predicate Plain(item: Item) {
    forall q :: Lookup(item, q).Some? ==>
      match Lookup(item, q).value
      case FileItem(_, data) => |data| <= MAX_FILE
      case DirItem(_, _) => true
      case _ => false
  }

  /** d is missing or an empty directory, and no file stands above it. */
  ghost predicate EmptyAt(t: Tree, d: Path) {
    && NoFileOnTheWay(t, d)
    && forall p :: p in t ==> !(d < p)
  }

  lemma RelNameKeepsPath(q: Path)
    requires ValidPath(q)
    ensures KeptOf(RelName(q)) == q
  {
    if q == [] {
      SplitWithoutSeparator(".", '/');
    } else {
      SplitOfJoin(q, '/');
      KeptOfNames(q);
    }
  }

  lemma {:induction false} LookupStep(item: Item, q: Path, n: string)
    requires Lookup(item, q + [n]).Some?
    ensures Lookup(item, q).Some? && Lookup(item, q).value.DirItem?
    decreases item, 1
  {
    if q != [] {
      LookupKidsStep(item.kids, q, n);
    }
  }

  lemma {:induction false} LookupKidsStep(kids: seq<Kid>, q: Path, n: string)
    requires q != [] && LookupKids(kids, q + [n]).Some?
    ensures LookupKids(kids, q).Some? && LookupKids(kids, q).value.DirItem?
    decreases kids, 0
  {
    if kids[0].name == q[0] {
      assert (q + [n])[1..] == q[1..] + [n];
      LookupStep(kids[0].item, q[1..], n);
    } else {
      LookupKidsStep(kids[1..], q, n);
    }
  }

  /** Everything above an item of the tree is a directory of the tree. */
  lemma {:induction false} LookupAncestor(item: Item, q: Path, r: Path)
    requires Lookup(item, r).Some? && q < r
    ensures Lookup(item, q).Some? && Lookup(item, q).value.DirItem?
    decreases |r|
  {
    assert r == Parent(r) + [r[|r| - 1]];
    LookupStep(item, Parent(r), r[|r| - 1]);
    if q != Parent(r) {
      LookupAncestor(item, q, Parent(r));
    }
  }

  lemma TargetOfEntry(d: Path, q: Path, item: Item)
    requires ValidPath(q)
    ensures Target(d, EntryOf(q, item).name) == d + q
  {
    RelNameKeepsPath(q);
  }

  /** The item behind entry j: where the entry points, and with what. */
  lemma EntryBehind(item: Item, d: Path, j: nat) returns (r: Path)
    requires ValidTree(item) && Walk(item, []).Some? && j < |Walk(item, []).value|
    ensures Lookup(item, r).Some? && ValidPath(r)
    ensures Walk(item, []).value[j] == EntryOf(r, Lookup(item, r).value)
    ensures Target(d, Walk(item, []).value[j].name) == d + r
  {
    r := WalkSound(item, [], j);
    assert [] + r == r;
    LookupValid(item, r);
    TargetOfEntry(d, r, Lookup(item, r).value);
  }

  /** The entry for the item at q. */
  lemma EntryFor(item: Item, d: Path, q: Path) returns (i: nat)
    requires ValidTree(item) && Walk(item, []).Some? && Lookup(item, q).Some?
    ensures i < |Walk(item, []).value|
    ensures Walk(item, []).value[i] == EntryOf(q, Lookup(item, q).value)
    ensures Target(d, Walk(item, []).value[i].name) == d + q
  {
    i := WalkComplete(item, [], q);
    assert [] + q == q;
    LookupValid(item, q);
    TargetOfEntry(d, q, Lookup(item, q).value);
  }

  /** The entry at index j: which file it stores and which directories it needs. */
  lemma EntryMeans(item: Item, d: Path, j: nat, q: Path)
    requires ValidTree(item) && Walk(item, []).Some? && j < |Walk(item, []).value|
    ensures StoresAt(d, Walk(item, []).value[j], d + q) ==> SourceShape(item, q) == AFile(Walk(item, []).value[j].data)
    ensures NeedsDir(d, Walk(item, []).value[j], d + q) ==> SourceShape(item, q) == ADir
  {
    var r := EntryBehind(item, d, j);
    BelowSame(d, q, r);
    PrefixIsEqualOrStrict(q, r);
    if q < r {
      LookupAncestor(item, q, r);
    }
  }

  lemma BelowSame(d: Path, q: Path, r: Path)
    ensures d + q <= d + r <==> q <= r
    ensures d + q < d + r <==> q < r
    ensures d + q == d + r <==> q == r
  {
    assert q == (d + q)[|d|..] && r == (d + r)[|d|..];
    assert d + q <= d + r ==> q <= r by {
      assert forall i | 0 <= i < |q| :: q[i] == (d + q)[|d| + i];
      assert forall i | 0 <= i < |r| :: r[i] == (d + r)[|d| + i];
    }
  }

  /** Entries store only files of the tree, and need only directories of the tree. */
  lemma ArchiveSound(item: Item, d: Path, q: Path)
    requires ValidTree(item) && Walk(item, []).Some?
    ensures LastFile(d, Walk(item, []).value, d + q).Some? ==>
              RestoredShape(item, q) == AFile(LastFile(d, Walk(item, []).value, d + q).value)
    ensures Needed(d, Walk(item, []).value, d + q) ==> RestoredShape(item, q) == ADir
  {
    var es := Walk(item, []).value;
    LastFileIsAnEntry(d, es, d + q);
    if LastFile(d, es, d + q).Some? {
      var j :| 0 <= j < |es| && StoresAt(d, es[j], d + q) && LastFile(d, es, d + q).value == Limit(es[j].data);
      EntryMeans(item, d, j, q);
    }
    if Needed(d, es, d + q) {
      var j :| 0 <= j < |es| && NeedsDir(d, es[j], d + q);
      EntryMeans(item, d, j, q);
    }
  }

  /** Every file of the tree is stored, and every directory of the tree is needed. */
  lemma ArchiveComplete(item: Item, d: Path, q: Path)
    requires ValidTree(item) && Walk(item, []).Some? && Lookup(item, q).Some?
    ensures Lookup(item, q).value.FileItem? ==> LastFile(d, Walk(item, []).value, d + q).Some?
    ensures Lookup(item, q).value.DirItem? ==> Needed(d, Walk(item, []).value, d + q)
  {
    var es := Walk(item, []).value;
    var i := EntryFor(item, d, q);
    LastFileIsAnEntry(d, es, d + q);
    if Lookup(item, q).value.FileItem? {
      assert StoresAt(d, es[i], d + q);
    }
    if Lookup(item, q).value.DirItem? {
      assert NeedsDir(d, es[i], d + q);
    }
  }

  /** The entry list archives every file and directory of the tree at its own place, and nothing
      else. */
  lemma ArchiveMeans(item: Item, d: Path, q: Path)
    requires ValidTree(item) && Walk(item, []).Some?
    ensures var es := Walk(item, []).value;
            match RestoredShape(item, q)
            case AFile(data) => LastFile(d, es, d + q) == Some(data)
            case ADir => LastFile(d, es, d + q) == None && Needed(d, es, d + q)
            case _ => LastFile(d, es, d + q) == None && !Needed(d, es, d + q)
  {
    ArchiveSound(item, d, q);
    if Lookup(item, q).Some? {
      ArchiveComplete(item, d, q);
    }
  }

  /** Nothing on the disk is in the way of a tree: no file at or above d, no file where the tree has a
      directory, and no directory where it has a file. */
  ghost predicate NoConflict(t: Tree, d: Path, item: Item) {
    && NoFileOnTheWay(t, d)
    && forall q :: match RestoredShape(item, q)
                   case ADir => !(d + q in t && t[d + q].File?)
                   case AFile(_) => !IsDir(t, d + q)
                   case _ => true
  }

  lemma EmptyHasNoConflict(t: Tree, d: Path, item: Item)
    requires EmptyAt(t, d) && item.DirItem?
    ensures NoConflict(t, d, item)
  {
    forall q ensures d + q in t ==> t[d + q].Dir? && q == [] {
      PrefixIsEqualOrStrict(d, d + q);
    }
  }

  lemma TreeEntryFits(t: Tree, d: Path, item: Item, i: nat)
    requires WellFormed(t) && d != [] && NoConflict(t, d, item)
    requires ValidTree(item) && item.DirItem? && Walk(item, []).Some? && SafeNames(item)
    requires i < |Walk(item, []).value|
    ensures Fits(t, d, Walk(item, []).value, i)
  {
    var es := Walk(item, []).value;
    var r := EntryBehind(item, d, i);
    forall p | p in t && NeedsDir(d, es[i], p) ensures t[p].Dir? {
      NeededNoFile(t, d, item, i, p);
    }
    if es[i].kind.Regular? {
      ArchiveSound(item, d, r);
      assert RestoredShape(item, r).AFile?;
    }
  }

  lemma NeededNoFile(t: Tree, d: Path, item: Item, i: nat, p: Path)
    requires NoConflict(t, d, item) && ValidTree(item) && Walk(item, []).Some?
    requires i < |Walk(item, []).value| && p in t && NeedsDir(d, Walk(item, []).value[i], p)
    ensures t[p].Dir?
  {
    var r := EntryBehind(item, d, i);
    if !(p <= d) {
      assert d <= p <= d + r;
      var q := p[|d|..];
      assert p == d + q;
      EntryMeans(item, d, i, q);
      assert RestoredShape(item, q) == ADir;
    }
  }

  lemma FitsMeansNoConflict(t: Tree, d: Path, item: Item, q: Path)
    requires ValidTree(item) && item.DirItem? && Walk(item, []).Some? && Acceptable(t, d, Walk(item, []).value)
    requires Lookup(item, q).Some?
    ensures !HasDotDot(RelName(q))
    ensures RestoredShape(item, q) == ADir ==> !(d + q in t && t[d + q].File?)
    ensures RestoredShape(item, q).AFile? ==> !IsDir(t, d + q)
    ensures q == [] ==> NoFileOnTheWay(t, d)
  {
    var es := Walk(item, []).value;
    var i := EntryFor(item, d, q);
    assert Fits(t, d, es, i);
    if q == [] {
      assert d + q == d;
      forall p | p <= d && p in t ensures t[p].Dir? {
        assert NeedsDir(d, es[i], p);
      }
    }
    if RestoredShape(item, q) == ADir {
      assert NeedsDir(d, es[i], d + q);
    }
  }

  /** A tree's archive can be extracted over any disk exactly when its names are safe and nothing is in
      its way. */
  lemma TreeExtractsExactlyWithoutConflict(t: Tree, d: Path, item: Item, x: Extractor)
    requires WellFormed(t) && d != []
    requires ValidTree(item) && item.DirItem? && Walk(item, []).Some?
    ensures Overlay(t, d, Walk(item, []).value, x).Some? <==> SafeNames(item) && NoConflict(t, d, item)
  {
    var es := Walk(item, []).value;
    ExtractionSucceedsExactlyWhenAcceptable(t, d, es, x);
    if SafeNames(item) && NoConflict(t, d, item) {
      forall i | 0 <= i < |es| ensures Fits(t, d, es, i) {
        TreeEntryFits(t, d, item, i);
      }
    }
    if Acceptable(t, d, es) {
      FitsMeansNoConflict(t, d, item, []);
      forall q | Lookup(item, q).Some?
        ensures !HasDotDot(RelName(q))
        ensures RestoredShape(item, q) == ADir ==> !(d + q in t && t[d + q].File?)
        ensures RestoredShape(item, q).AFile? ==> !IsDir(t, d + q)
      {
        FitsMeansNoConflict(t, d, item, q);
      }
    }
  }

  /** What a disk holds below d once a tree has been laid over it: the tree's part, or what was there. */
  function LaidOver(t: Tree, d: Path, item: Item, q: Path): Shape {
    if RestoredShape(item, q) == Nothing then DiskShape(t, d + q) else RestoredShape(item, q)
  }

  /** Over a disk that already holds something, a site lies as it was archived, and what it has no part of
      is as before. */
  lemma TreeLiesOver(t: Tree, d: Path, item: Item, x: Extractor, q: Path)
    requires WellFormed(t) && ValidTree(item) && Walk(item, []).Some? && Overlay(t, d, Walk(item, []).value, x).Some?
    ensures DiskShape(Overlay(t, d, Walk(item, []).value, x).value, d + q) == LaidOver(t, d, item, q)
  {
    OverlayAt(t, d, Walk(item, []).value, x, d + q);
    ArchiveMeans(item, d, q);
  }

  /** Archiving a site and extracting it into an empty place rebuilds every directory and every file
      (cut at 4 GiB) at its own relative path, drops links and devices, and touches nothing else
      except to make the missing directories above the destination. */
  lemma RoundTripRebuilds(t: Tree, d: Path, item: Item, x: Extractor)
    requires WellFormed(t) && d != [] && EmptyAt(t, d)
    requires ValidTree(item) && item.DirItem? && Walk(item, []).Some? && SafeNames(item)
    ensures Overlay(t, d, Walk(item, []).value, x).Some?
    ensures forall q :: DiskShape(Overlay(t, d, Walk(item, []).value, x).value, d + q) == RestoredShape(item, q)
    ensures forall p :: !(d <= p) ==>
              var t' := Overlay(t, d, Walk(item, []).value, x).value;
              if p < d then IsDir(t', p) else (p in t' <==> p in t) && (p in t ==> t'[p] == t[p])
  {
    var es := Walk(item, []).value;
    EmptyHasNoConflict(t, d, item);
    TreeExtractsExactlyWithoutConflict(t, d, item, x);
    var t' := Overlay(t, d, es, x).value;
    forall q ensures DiskShape(t', d + q) == RestoredShape(item, q) {
      TreeLiesOver(t, d, item, x, q);
      if q != [] {
        assert d < d + q;
      }
    }
    forall p | !(d <= p)
      ensures if p < d then IsDir(t', p) else (p in t' <==> p in t) && (p in t ==> t'[p] == t[p])
    {
      OutsideEntries(item, d, p);
      OverlayAt(t, d, es, x, p);
    }
  }

  lemma OutsideEntries(item: Item, d: Path, p: Path)
    requires ValidTree(item) && item.DirItem? && Walk(item, []).Some? && !(d <= p)
    ensures LastFile(d, Walk(item, []).value, p) == None
    ensures Needed(d, Walk(item, []).value, p) <==> p < d
  {
    var es := Walk(item, []).value;
    LastFileIsAnEntry(d, es, p);
    PrefixIsEqualOrStrict(p, d);
    var i := EntryFor(item, d, []);
    assert d + [] == d;
    assert p < d ==> NeedsDir(d, es[i], p);
  }

  lemma {:induction false} WalkMeetsNoSocket(item: Item, rel: Path, q: Path)
    requires Walk(item, rel).Some? && Lookup(item, q).Some?
    ensures !Lookup(item, q).value.SocketItem?
    decreases item, 1
  {
    if q != [] {
      WalkKidsMeetNoSocket(item.kids, rel, q);
    }
  }

  lemma {:induction false} WalkKidsMeetNoSocket(kids: seq<Kid>, rel: Path, q: Path)
    requires q != [] && WalkKids(kids, rel).Some? && LookupKids(kids, q).Some?
    ensures !LookupKids(kids, q).value.SocketItem?
    decreases kids, 0
  {
    if kids[0].name == q[0] {
      WalkMeetsNoSocket(kids[0].item, rel + [kids[0].name], q[1..]);
    } else {
      WalkKidsMeetNoSocket(kids[1..], rel, q);
    }
  }

  /** A walk fails only on a socket of the tree. */
  lemma {:induction false} WalkFailsOnSocket(item: Item, rel: Path) returns (q: Path)
    requires ValidTree(item) && Walk(item, rel).None?
    ensures Lookup(item, q).Some? && Lookup(item, q).value.SocketItem?
    decreases item, 1
  {
    q := [];
    if item.DirItem? {
      q := WalkKidsFailOnSocket(item.kids, rel);
    }
  }

  lemma {:induction false} WalkKidsFailOnSocket(kids: seq<Kid>, rel: Path) returns (q: Path)
    requires ValidKids(kids) && WalkKids(kids, rel).None?
    ensures q != [] && LookupKids(kids, q).Some? && LookupKids(kids, q).value.SocketItem?
    decreases kids, 0
  {
    var k := kids[0];
    if Walk(k.item, rel + [k.name]).None? {
      var q' := WalkFailsOnSocket(k.item, rel + [k.name]);
      q := [k.name] + q';
      assert q[1..] == q';
    } else {
      q := WalkKidsFailOnSocket(kids[1..], rel);
      LookupKidsPresent(kids[1..], q);
    }
  }

  /** The archive can be written and extracted, and the result is the source itself. */
  ghost predicate ComesBackExactly(t: Tree, d: Path, item: Item, x: Extractor) {
    && Walk(item, []).Some?
    && Overlay(t, d, Walk(item, []).value, x).Some?
    && forall q :: DiskShape(Overlay(t, d, Walk(item, []).value, x).value, d + q) == SourceShape(item, q)
  }

  /** A site comes back exactly if and only if it holds only directories and files of at most 4 GiB,
      and no path in it contains "..". */
  lemma RoundTripExactlyOnPlainTrees(t: Tree, d: Path, item: Item, x: Extractor)
    requires WellFormed(t) && d != [] && EmptyAt(t, d)
    requires ValidTree(item) && item.DirItem?
    ensures ComesBackExactly(t, d, item, x) <==> Plain(item) && SafeNames(item)
  {
    if ComesBackExactly(t, d, item, x) {
      var es := Walk(item, []).value;
      ExtractsAcceptable(t, d, es, x);
      forall q | Lookup(item, q).Some? ensures !HasDotDot(RelName(q)) {
        var i := EntryFor(item, d, q);
        assert Fits(t, d, es, i);
      }
      RoundTripRebuilds(t, d, item, x);
      var t' := Overlay(t, d, es, x).value;
      forall q | Lookup(item, q).Some?
        ensures SourceShape(item, q) != ASpecial && RestoredShape(item, q) == SourceShape(item, q)
      {
        assert DiskShape(t', d + q) == SourceShape(item, q);
        assert DiskShape(t', d + q) == RestoredShape(item, q);
      }
      PlainWhenUnchanged(item);
    }
    if Plain(item) && SafeNames(item) {
      if Walk(item, []).None? {
        var q := WalkFailsOnSocket(item, []);
        assert false;
      }
      RoundTripRebuilds(t, d, item, x);
      forall q ensures RestoredShape(item, q) == SourceShape(item, q) {
      }
    }
  }

  /** So a tree with a name like a..b in it does not come back. */
  lemma DottedNameDoesNotComeBack(t: Tree, d: Path, item: Item, x: Extractor, q: Path, j: nat, a: string, b: string)
    requires WellFormed(t) && d != [] && EmptyAt(t, d) && ValidTree(item) && item.DirItem?
    requires Lookup(item, q).Some? && j < |q| && q[j] == a + ".." + b
    ensures !ComesBackExactly(t, d, item, x)
  {
    RoundTripExactlyOnPlainTrees(t, d, item, x);
    SafeNamesExactly(item);
    assert q[j][|a|] == '.' && q[j][|a| + 1] == '.';
  }

  lemma PlainWhenUnchanged(item: Item)
    requires forall q :: Lookup(item, q).Some? ==>
               SourceShape(item, q) != ASpecial && RestoredShape(item, q) == SourceShape(item, q)
    ensures Plain(item)
  {
    forall q | Lookup(item, q).Some?
      ensures match Lookup(item, q).value
              case FileItem(_, data) => |data| <= MAX_FILE
              case DirItem(_, _) => true
              case _ => false
    {
      assert SourceShape(item, q) != ASpecial;
    }
  }

  /** A migration's files end to end: the source writes the archive, the target extracts it over what it
      holds. The archive can be written exactly when there is no socket. Unless a call fails for outside
      reasons, the extraction succeeds exactly when the names are safe and nothing is in the way, and
      then the tree lies over what was there. */
  method Transfer(disk: Disk, d: Path, item: Item, x: Extractor) returns (archived: bool, err: Errno)
    requires disk.Valid() && ValidPath(d) && d != []
    requires ValidTree(item) && item.DirItem?
    modifies disk
    ensures disk.Valid()
    ensures archived <==> forall q :: Lookup(item, q) != Some(SocketItem)
    ensures !archived ==> disk.tree == old(disk.tree)
    ensures archived && disk.faults == old(disk.faults) ==>
              (err == OK <==> SafeNames(item) && NoConflict(old(disk.tree), d, item))
    ensures archived && err == OK ==> forall q :: DiskShape(disk.tree, d + q) == LaidOver(old(disk.tree), d, item, q)
  {
    ghost var t0 := disk.tree;
    var tw := new TarWriter();
    archived := tw.AddTree(item, []);
    err := OK;
    if !archived {
      ghost var q := WalkFailsOnSocket(item, []);
      assert Lookup(item, q) == Some(SocketItem);
      return;
    }
    assert tw.entries == Walk(item, []).value;
    forall q ensures Lookup(item, q) != Some(SocketItem) {
      if Lookup(item, q).Some? {
        WalkMeetsNoSocket(item, [], q);
      }
    }
    TreeExtractsExactlyWithoutConflict(t0, d, item, x);
    err := Extract(disk, d, tw.entries, x);
    if err == OK {
      forall q ensures DiskShape(disk.tree, d + q) == LaidOver(t0, d, item, q) {
        TreeLiesOver(t0, d, item, x, q);
      }
    }
  }
}
