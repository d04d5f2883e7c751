/** The archive format shared by backups and migrations, as a sequence of entries: the walk that
    writes a directory tree into an archive, and the extraction loop that lays an archive over a
    disk. */
module TarArchive {
  import opened Text
  import opened Paths
  import opened FileSystem

  /** The most bytes either extractor copies into one file. */
  const MAX_FILE := 0x1_0000_0000

  datatype Kind = Regular | Directory | Symlink | Device

  datatype Entry = Entry(name: string, kind: Kind, mode: nat, data: Bytes)

  /** What a walk finds in a site directory. Kids appear in the order the walk reads them. */
  datatype Item =
    | FileItem(mode: nat, data: Bytes)
    | DirItem(mode: nat, kids: seq<Kid>)
    | LinkItem
    | DeviceItem
    | SocketItem
  datatype Kid = Kid(name: string, item: Item)

  predicate NameAbsent(kids: seq<Kid>, n: string) {
    forall i | 0 <= i < |kids| :: kids[i].name != n
  }

  /** File names are nonempty, hold no slash, are not "." or "..", and are distinct in a directory. */
  predicate ValidTree(item: Item)
    decreases item, 1
  {
    item.DirItem? ==> ValidKids(item.kids)
  }

  predicate ValidKids(kids: seq<Kid>)
    decreases kids, 0
  {
    kids != [] ==>
      && ValidName(kids[0].name) && NameAbsent(kids[1..], kids[0].name)
      && ValidTree(kids[0].item) && ValidKids(kids[1..])
  }

  /** The item found by following names down from item. */
  function Lookup(item: Item, q: Path): Option<Item>
    decreases item, 1
  {
    if q == [] then Some(item)
    else if item.DirItem? then LookupKids(item.kids, q)
    else None
  }

  function LookupKids(kids: seq<Kid>, q: Path): Option<Item>
    requires q != []
    decreases kids, 0
  {
    if kids == [] then None
    else if kids[0].name == q[0] then Lookup(kids[0].item, q[1..])
    else LookupKids(kids[1..], q)
  }

  lemma {:induction false} LookupKidsPresent(kids: seq<Kid>, q: Path)
    requires q != [] && LookupKids(kids, q).Some?
    ensures !NameAbsent(kids, q[0])
    decreases kids
  {
    if kids[0].name != q[0] {
      LookupKidsPresent(kids[1..], q);
      assert kids == [kids[0]] + kids[1..];
    }
  }

  lemma {:induction false} LookupValid(item: Item, q: Path)
    requires ValidTree(item) && Lookup(item, q).Some?
    ensures ValidPath(q)
    decreases item, 1
  {
    if q != [] {
      LookupKidsValid(item.kids, q);
    }
  }

  lemma {:induction false} LookupKidsValid(kids: seq<Kid>, q: Path)
    requires q != [] && ValidKids(kids) && LookupKids(kids, q).Some?
    ensures ValidPath(q)
    decreases kids, 0
  {
    if kids[0].name == q[0] {
      LookupValid(kids[0].item, q[1..]);
      assert q == [q[0]] + q[1..];
    } else {
      LookupKidsValid(kids[1..], q);
    }
  }

  /** filepath.Rel of a path below the walked root. */
  function RelName(rel: Path): string {
    if rel == [] then "." else Join(rel, '/')
  }

  function EntryOf(rel: Path, item: Item): Entry {
    match item
    case FileItem(mode, data) => Entry(RelName(rel), Regular, mode, data)
    case DirItem(mode, _) => Entry(RelName(rel), Directory, mode, [])
    case LinkItem => Entry(RelName(rel), Symlink, 511, [])
    case DeviceItem => Entry(RelName(rel), Device, 0, [])
    case SocketItem => Entry(RelName(rel), Device, 0, [])
  }

  /** The entries of a pre-order walk; None when it meets a socket, for which no header exists. */
  function Walk(item: Item, rel: Path): Option<seq<Entry>>
    decreases item, 1
  {
    match item
    case SocketItem => None
    case DirItem(_, kids) =>
      (match WalkKids(kids, rel)
       case None => None
       case Some(es) => Some([EntryOf(rel, item)] + es))
    case _ => Some([EntryOf(rel, item)])
  }

  function WalkKids(kids: seq<Kid>, rel: Path): Option<seq<Entry>>
    decreases kids, 0
  {
    if kids == [] then Some([])
    else
      match Walk(kids[0].item, rel + [kids[0].name])
      case None => None
      case Some(es) =>
        match WalkKids(kids[1..], rel)
        case None => None
        case Some(rest) => Some(es + rest)
  }

  /** The tar writer: the walk callback appends a header, then the bytes of a regular file. */
  class TarWriter {
    var entries: seq<Entry>

    constructor ()
      ensures entries == []
    {
      entries := [];
    }

    /** filepath.Walk over item with the archiving callback; false when the callback fails. */
    method AddTree(item: Item, rel: Path) returns (ok: bool)
      modifies this
      ensures ok <==> Walk(item, rel).Some?
      ensures ok ==> entries == old(entries) + Walk(item, rel).value
      decreases item, 1
    {
      if item.SocketItem? {
        return false;
      }
      entries := entries + [EntryOf(rel, item)];
      ok := true;
      if item.DirItem? {
        ok := AddKids(item.kids, rel);
      }
    }

    method AddKids(kids: seq<Kid>, rel: Path) returns (ok: bool)
      modifies this
      ensures ok <==> WalkKids(kids, rel).Some?
      ensures ok ==> entries == old(entries) + WalkKids(kids, rel).value
      decreases kids, 0
    {
      if kids == [] {
        return true;
      }
      ok := AddTree(kids[0].item, rel + [kids[0].name]);
      if ok {
        ok := AddKids(kids[1..], rel);
      }
    }
  }

  /** Every entry describes an item of the tree under its relative name. */
  lemma {:induction false} WalkSound(item: Item, rel: Path, i: nat) returns (q: Path)
    requires ValidTree(item) && Walk(item, rel).Some? && i < |Walk(item, rel).value|
    ensures Lookup(item, q).Some?
    ensures Walk(item, rel).value[i] == EntryOf(rel + q, Lookup(item, q).value)
    decreases item, 1
  {
    q := [];
    assert rel + q == rel;
    if item.DirItem? && i > 0 {
      q := WalkKidsSound(item.kids, rel, i - 1);
    }
  }

  lemma {:induction false} WalkKidsSound(kids: seq<Kid>, rel: Path, i: nat) returns (q: Path)
    requires ValidKids(kids) && WalkKids(kids, rel).Some? && i < |WalkKids(kids, rel).value|
    ensures q != [] && LookupKids(kids, q).Some?
    ensures WalkKids(kids, rel).value[i] == EntryOf(rel + q, LookupKids(kids, q).value)
    decreases kids, 0
  {
    var k := kids[0];
    var es := Walk(k.item, rel + [k.name]).value;
    if i < |es| {
      var q' := WalkSound(k.item, rel + [k.name], i);
      q := [k.name] + q';
      assert q[1..] == q';
      assert rel + [k.name] + q' == rel + q;
    } else {
      q := WalkKidsSound(kids[1..], rel, i - |es|);
      LookupKidsPresent(kids[1..], q);
    }
  }

  /** Every item of the tree has an entry. */
  lemma {:induction false} WalkComplete(item: Item, rel: Path, q: Path) returns (i: nat)
    requires Walk(item, rel).Some? && Lookup(item, q).Some?
    ensures i < |Walk(item, rel).value|
    ensures Walk(item, rel).value[i] == EntryOf(rel + q, Lookup(item, q).value)
    decreases item, 1
  {
    i := 0;
    if q == [] {
      assert rel + q == rel;
    } else {
      i := WalkKidsComplete(item.kids, rel, q);
      i := i + 1;
    }
  }

  lemma {:induction false} WalkKidsComplete(kids: seq<Kid>, rel: Path, q: Path) returns (i: nat)
    requires q != [] && WalkKids(kids, rel).Some? && LookupKids(kids, q).Some?
    ensures i < |WalkKids(kids, rel).value|
    ensures WalkKids(kids, rel).value[i] == EntryOf(rel + q, LookupKids(kids, q).value)
    decreases kids, 0
  {
    var k := kids[0];
    var es := Walk(k.item, rel + [k.name]).value;
    if k.name == q[0] {
      i := WalkComplete(k.item, rel + [k.name], q[1..]);
      assert rel + [k.name] + q[1..] == rel + q;
    } else {
      i := WalkKidsComplete(kids[1..], rel, q);
      i := i + |es|;
    }
  }

  /** Restoring a backup and receiving a migration run the same loop; they differ only in the modes
      of the directories they make. */
  datatype Extractor = Restore | Receive

  /** mode | 0700. */
  function WithOwnerBits(mode: nat): nat {
    mode - mode / 64 % 8 * 64 + 7 * 64
  }

  function DirMode(x: Extractor, mode: nat): nat {
    match x case Restore => 488 case Receive => WithOwnerBits(mode)
  }

  function ParentMode(x: Extractor): nat {
    match x case Restore => 488 case Receive => 493
  }

  /** io.LimitReader at 4 GiB: longer content is cut without an error. */
  function Limit(data: Bytes): Bytes {
    if |data| <= MAX_FILE then data else data[..MAX_FILE]
  }

  /** Both guards of the loop, on names: no ".." anywhere, and nothing but the root itself may be
      extracted when the destination is the root. */
  predicate Admitted(d: Path, name: string) {
    !HasDotDot(name) && (d == [] ==> KeptOf(name) == [])
  }

  function Target(d: Path, name: string): Path {
    d + KeptOf(name)
  }

  /** The tree once e's content is at target: a file already there keeps its owner and mode. */
  function Stored(t: Tree, target: Path, e: Entry): Option<Tree> {
    if target == [] || IsDir(t, target) then None
    else Some(t[target := File(if target in t then t[target].meta else Meta(0, 0, e.mode), Limit(e.data))])
  }

  /** One pass of the loop when no call fails for outside reasons; None when it stops. */
  function Step(t: Tree, d: Path, e: Entry, x: Extractor): Option<Tree> {
    if !Admitted(d, e.name) then None
    else
      var target := Target(d, e.name);
      match e.kind
      case Directory => WithDirs(t, target, Meta(0, 0, DirMode(x, e.mode)))
      case Regular =>
        (match WithDirs(t, Parent(target), Meta(0, 0, ParentMode(x)))
         case None => None
         case Some(t') => Stored(t', target, e))
      case _ => Some(t)
  }

  function Overlay(t: Tree, d: Path, es: seq<Entry>, x: Extractor): Option<Tree> {
    if es == [] then Some(t)
    else
      match Overlay(t, d, es[..|es| - 1], x)
      case None => None
      case Some(t') => Step(t', d, es[|es| - 1], x)
  }

  /** The code's two string guards agree with the guard on names, and the joined target is the
      destination's names followed by the entry's. In particular, once ".." is ruled out the prefix
      guard fires only when the destination is the root directory. */
  lemma StringGuards(d: Path, name: string)
    requires ValidPath(d) && !HasDotDot(name)
    ensures JoinPath(Render(d), Clean(name)) == Render(Target(d, name))
    ensures ValidPath(Target(d, name))
    ensures Clean(Render(d)) == Render(d)
    ensures !(Render(d) + "/" <= Render(Target(d, name))) && Render(Target(d, name)) != Render(d)
            <==> d == [] && KeptOf(name) != []
  {
    NoDotDotComponent(name);
    CleanKeepsNames(name);
    CleanUnderDirectory(d, Clean(name));
    CleanOfRender(d);
    var k := KeptOf(name);
    if k != [] {
      if d != [] {
        RenderPrefix(d, k);
      } else {
        assert Target(d, name) == k;
        JoinNonEmpty(k);
        assert Render(d) + "/" == "//";
        KeptOfRender(k);
        KeptOfRender([]);
      }
    } else {
      assert Target(d, name) == d;
    }
  }

  /** No list with an entry named so can be extracted. */
  lemma {:induction false} DotDotEntryStops(t: Tree, d: Path, es: seq<Entry>, x: Extractor, i: nat, a: string,
                                            b: string)
    requires i < |es| && es[i].name == a + ".." + b
    ensures Overlay(t, d, es, x).None?
    decreases |es|
  {
    if i < |es| - 1 {
      DotDotEntryStops(t, d, es[..|es| - 1], x, i, a, b);
    } else {
      DotDotAnywhere(a, b);
    }
  }

  lemma {:induction false} ExtractedIsAdmitted(t: Tree, d: Path, es: seq<Entry>, x: Extractor, i: nat)
    requires Overlay(t, d, es, x).Some? && i < |es|
    ensures Admitted(d, es[i].name)
    decreases |es|
  {
    if i < |es| - 1 {
      ExtractedIsAdmitted(t, d, es[..|es| - 1], x, i);
    }
  }

  /** An entry's name holds two dots in a row. */
  predicate Dotted(es: seq<Entry>) {
    exists i, k :: 0 <= i < |es| && 0 <= k < |es[i].name| - 1 && es[i].name[k] == '.' && es[i].name[k + 1] == '.'
  }

  lemma DotsAreRefused(t: Tree, d: Path, es: seq<Entry>, x: Extractor)
    requires Overlay(t, d, es, x).Some?
    ensures !Dotted(es)
  {
    if i, k :| 0 <= i < |es| && 0 <= k < |es[i].name| - 1 && es[i].name[k] == '.' && es[i].name[k + 1] == '.' {
      ExtractedIsAdmitted(t, d, es, x, i);
    }
  }

  lemma OverlayNext(t: Tree, d: Path, es: seq<Entry>, n: nat, x: Extractor)
    requires n < |es| && Overlay(t, d, es[..n], x).Some?
    ensures Overlay(t, d, es[..n + 1], x) == Step(Overlay(t, d, es[..n], x).value, d, es[n], x)
  {
    assert es[..n + 1][..n] == es[..n];
  }

  lemma {:induction false} OverlayStops(t: Tree, d: Path, es: seq<Entry>, n: nat, x: Extractor)
    requires n <= |es|
    ensures Overlay(t, d, es[..n], x).None? ==> Overlay(t, d, es, x).None?
    decreases |es| - n
  {
    if n < |es| {
      assert es[..n + 1][..n] == es[..n];
      OverlayStops(t, d, es, n + 1, x);
    } else {
      assert es[..n] == es;
    }
  }

  /** os.MkdirAll towards an entry's target. */
  method MakeDirs(disk: Disk, d: Path, p: Path, mode: nat) returns (err: Errno)
    requires disk.Valid() && (d <= p || p <= d)
    modifies disk
    ensures disk.Valid() && old(disk.history) <= disk.history
    ensures disk.faults == old(disk.faults) + Fault(err)
    ensures err == OK ==> WithDirs(old(disk.tree), p, Meta(0, 0, mode)) == Some(disk.tree)
    ensures err !in {OK, EIO} ==> WithDirs(old(disk.tree), p, Meta(0, 0, mode)) == None
    ensures Contained(old(disk.tree), disk.tree, d)
    ensures AllContained(old(disk.tree), disk.history, |old(disk.history)|, d)
  {
    ghost var t0, h0 := disk.tree, disk.history;
    err := disk.MkdirAll(p, mode);
    OnlyAddsDirsContained(t0, disk.tree, p, d);
    forall i | |h0| <= i < |disk.history| ensures Contained(t0, disk.history[i], d) {
      OnlyAddsDirsContained(t0, disk.history[i], p, d);
    }
  }

  /** os.OpenFile and io.Copy of at most 4 GiB. */
  method CopyFile(disk: Disk, d: Path, target: Path, e: Entry) returns (err: Errno)
    requires disk.Valid() && d <= target && (target != [] ==> IsDir(disk.tree, Parent(target)))
    modifies disk
    ensures disk.Valid() && old(disk.history) <= disk.history
    ensures disk.faults == old(disk.faults) + Fault(err)
    ensures err == OK ==> Stored(old(disk.tree), target, e) == Some(disk.tree)
    ensures err !in {OK, EIO} ==> Stored(old(disk.tree), target, e) == None
    ensures Contained(old(disk.tree), disk.tree, d)
    ensures AllContained(old(disk.tree), disk.history, |old(disk.history)|, d)
  {
    ghost var t0, h0 := disk.tree, disk.history;
    err := disk.OpenTruncate(target, e.mode);
    ChangesOnly(t0, disk.tree, target, d);
    if err == OK {
      err := disk.Write(target, Limit(e.data));
      ChangesOnly(t0, disk.tree, target, d);
      assert disk.tree == t0[target := disk.tree[target]];
    }
  }

  /** The body of the loop's switch, once the guards have passed. */
  method ExtractEntry(disk: Disk, d: Path, target: Path, e: Entry, x: Extractor) returns (err: Errno)
    requires disk.Valid() && Admitted(d, e.name) && target == Target(d, e.name)
    modifies disk
    ensures disk.Valid() && old(disk.history) <= disk.history
    ensures disk.faults == old(disk.faults) + Fault(err)
    ensures err == OK ==> Step(old(disk.tree), d, e, x) == Some(disk.tree)
    ensures err !in {OK, EIO} ==> Step(old(disk.tree), d, e, x) == None
    ensures Contained(old(disk.tree), disk.tree, d)
    ensures AllContained(old(disk.tree), disk.history, |old(disk.history)|, d)
  {
    err := OK;
    match e.kind {
      case Directory =>
        err := MakeDirs(disk, d, target, DirMode(x, e.mode));
      case Regular =>
        ParentComparable(d, target);
        err := MakeDirs(disk, d, Parent(target), ParentMode(x));
        if err == OK {
          ghost var t1, h1 := disk.tree, disk.history;
          WithDirsExact(old(disk.tree), Parent(target), Meta(0, 0, ParentMode(x)));
          err := CopyFile(disk, d, target, e);
          ContainedTransitive(old(disk.tree), t1, disk.tree, d);
          AllContainedExtends(old(disk.tree), h1, |old(disk.history)|, t1, disk.history, d);
        }
      case _ =>
    }
  }

  lemma ParentComparable(d: Path, p: Path)
    requires d <= p
    ensures d <= Parent(p) || Parent(p) <= d
  {
  }

  /** The two guards and the join, on strings as the code writes them. The answer is the guard on
      names: the prefix test adds nothing to the ".." test unless the destination is "/". */
  method Resolve(d: Path, name: string) returns (ok: bool, target: Path)
    requires ValidPath(d)
    ensures ok <==> Admitted(d, name)
    ensures (exists k :: 0 <= k < |name| - 1 && name[k] == '.' && name[k + 1] == '.') ==> !ok
    ensures ok ==> target == Target(d, name) && ValidPath(target)
  {
    ok, target := false, [];
    if HasDotDot(name) {
      return;
    }
    StringGuards(d, name);
    KeptOfRender(Target(d, name));
    var destDir := Render(d);
    var joined := JoinPath(destDir, Clean(name));
    if !(Clean(destDir) + "/" <= joined) && joined != Clean(destDir) {
      return;
    }
    ok, target := true, KeptOf(joined);
  }

  /** extractTarGz. On success the disk is exactly the overlay; unless a call fails for outside reasons it
      succeeds exactly where the overlay has a result; and at no moment, finished or not, has anything
      outside the destination changed. */
  method Extract(disk: Disk, d: Path, es: seq<Entry>, x: Extractor) returns (err: Errno)
    requires disk.Valid() && ValidPath(d)
    modifies disk
    ensures disk.Valid() && old(disk.history) <= disk.history
    ensures disk.faults == old(disk.faults) + Fault(err)
    ensures err == OK ==> Overlay(old(disk.tree), d, es, x) == Some(disk.tree)
    ensures disk.faults == old(disk.faults) ==> (err == OK <==> Overlay(old(disk.tree), d, es, x).Some?)
    ensures Dotted(es) ==> err != OK
    ensures Contained(old(disk.tree), disk.tree, d)
    ensures AllContained(old(disk.tree), disk.history, |old(disk.history)|, d)
  {
    ghost var t0 := disk.tree;
    assert es[..0] == [];
    err := OK;
    for i := 0 to |es|
      invariant err == OK && disk.Valid() && old(disk.history) <= disk.history && disk.faults == old(disk.faults)
      invariant Overlay(t0, d, es[..i], x) == Some(disk.tree)
      invariant Contained(t0, disk.tree, d)
      invariant AllContained(t0, disk.history, |old(disk.history)|, d)
    {
      OverlayNext(t0, d, es, i, x);
      OverlayStops(t0, d, es, i + 1, x);
      var ok, target := Resolve(d, es[i].name);
      if !ok {
        err := EINVAL;
        break;
      }
      ghost var t1, h1 := disk.tree, disk.history;
      err := ExtractEntry(disk, d, target, es[i], x);
      ContainedTransitive(t0, t1, disk.tree, d);
      AllContainedExtends(t0, h1, |old(disk.history)|, t1, disk.history, d);
      if err != OK {
        break;
      }
    }
    assert es[..|es|] == es;
    if err == OK {
      DotsAreRefused(t0, d, es, x);
    }
  }
}
