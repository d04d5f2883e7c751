/** Owners and modes through an archive: what an extraction gives to the nodes it makes, and what a site's
    tree comes back with. */
module ArchiveModes {
  import opened Paths
  import opened FileSystem
  import opened TarArchive
  import opened RoundTrip

  /** What a node at p is given, if entry e is the first that makes something there. */
  function GivenBy(d: Path, e: Entry, x: Extractor, p: Path): Option<Meta> {
    if StoresAt(d, e, p) then Some(Meta(0, 0, e.mode))
    else if !NeedsDir(d, e, p) then None
    else Some(Meta(0, 0, if e.kind.Directory? then DirMode(x, e.mode) else ParentMode(x)))
  }

  /** The first entry that makes something at p decides. */
  function FirstGiven(d: Path, es: seq<Entry>, x: Extractor, p: Path): Option<Meta> {
    if es == [] then None
    else
      var m := GivenBy(d, es[0], x, p);
      if m.Some? then m else FirstGiven(d, es[1..], x, p)
  }

  lemma {:induction false} FirstGivenConcat(d: Path, a: seq<Entry>, b: seq<Entry>, x: Extractor, p: Path)
    ensures FirstGiven(d, a + b, x, p) ==
            if FirstGiven(d, a, x, p).Some? then FirstGiven(d, a, x, p) else FirstGiven(d, b, x, p)
    decreases |a|
  {
    if a == [] {
      assert a + b == b;
    } else {
      assert (a + b)[1..] == a[1..] + b;
      FirstGivenConcat(d, a[1..], b, x, p);
    }
  }

  lemma {:induction false} NoneGiven(d: Path, es: seq<Entry>, x: Extractor, p: Path)
    requires forall i | 0 <= i < |es| :: GivenBy(d, es[i], x, p) == None
    ensures FirstGiven(d, es, x, p) == None
  {
    if es != [] {
      NoneGiven(d, es[1..], x, p);
    }
  }

  /** What one entry does to one path's owner and mode. */
  lemma StepGives(t: Tree, d: Path, e: Entry, x: Extractor, p: Path)
    requires WellFormed(t) && Step(t, d, e, x).Some?
    ensures var t' := Step(t, d, e, x).value;
            && (p in t ==> p in t' && t'[p].meta == t[p].meta)
            && (p !in t && p in t' ==> GivenBy(d, e, x, p) == Some(t'[p].meta))
            && (p !in t && p !in t' ==> GivenBy(d, e, x, p) == None)
  {
    StepSucceeds(t, d, e, x);
    StepAt(t, d, e, x, p);
    var target := Target(d, e.name);
    if e.kind.Directory? {
      WithDirsExact(t, target, Meta(0, 0, DirMode(x, e.mode)));
    } else if e.kind.Regular? {
      WithDirsExact(t, Parent(target), Meta(0, 0, ParentMode(x)));
      PrefixOfParent(p, target);
    }
  }

  /** Extraction keeps the owner and mode of whatever was there, and gives every node it makes those of the
      first entry that makes it. */
  lemma {:induction false} OverlayGives(t: Tree, d: Path, es: seq<Entry>, x: Extractor, p: Path)
    requires WellFormed(t) && Overlay(t, d, es, x).Some?
    ensures var t' := Overlay(t, d, es, x).value;
            && (p in t ==> p in t' && t'[p].meta == t[p].meta)
            && (p !in t && p in t' ==> FirstGiven(d, es, x, p) == Some(t'[p].meta))
            && (p !in t && p !in t' ==> FirstGiven(d, es, x, p) == None)
  {
    if es != [] {
      var n := |es| - 1;
      OverlayGives(t, d, es[..n], x, p);
      OverlayWellFormed(t, d, es[..n], x);
      StepGives(Overlay(t, d, es[..n], x).value, d, es[n], x, p);
      assert es == es[..n] + [es[n]];
      FirstGivenConcat(d, es[..n], [es[n]], x, p);
      assert [es[n]][1..] == [];
    }
  }

  // ------------------------------------------------------------------------------ trees

  /** The mode an item of a tree is given where it is made new. */
  function ComesBackWith(item: Item, x: Extractor): Option<Meta> {
    match item
    case FileItem(mode, _) => Some(Meta(0, 0, mode))
    case DirItem(mode, _) => Some(Meta(0, 0, if x == Restore then 488 else mode - mode / 64 % 8 * 64 + 448))
    case _ => None
  }

  /** An entry for something that is neither at q nor below it makes nothing there. */
  lemma ElsewhereGivesNothing(d: Path, r: Path, item: Item, x: Extractor, q: Path)
    requires ValidPath(r) && !(q <= r)
    ensures GivenBy(d, EntryOf(r, item), x, d + q) == None
  {
    TargetOfEntry(d, r, item);
    BelowSame(d, q, r);
  }

  lemma OwnEntryGives(d: Path, r: Path, item: Item, x: Extractor)
    requires ValidPath(r)
    ensures GivenBy(d, EntryOf(r, item), x, d + r) == ComesBackWith(item, x)
  {
    TargetOfEntry(d, r, item);
  }

  lemma OtherSubtree(d: Path, item: Item, rel: Path, x: Extractor, q: Path)
    requires ValidTree(item) && ValidPath(rel) && Walk(item, rel).Some? && !(rel <= q) && !(q <= rel)
    ensures FirstGiven(d, Walk(item, rel).value, x, d + q) == None
  {
    var es := Walk(item, rel).value;
    forall i | 0 <= i < |es| ensures GivenBy(d, es[i], x, d + q) == None {
      var r := WalkSound(item, rel, i);
      LookupValid(item, r);
      Apart(rel, r, q);
      ElsewhereGivesNothing(d, rel + r, Lookup(item, r).value, x, q);
    }
    NoneGiven(d, es, x, d + q);
  }

  lemma Apart(rel: Path, r: Path, q: Path)
    requires !(rel <= q) && !(q <= rel)
    ensures !(q <= rel + r)
  {
  }

  /** The walk writes a directory before what is in it, so its own entry is the one that makes it. */
  lemma {:induction false} WalkGives(d: Path, item: Item, rel: Path, x: Extractor, q: Path)
    requires ValidTree(item) && ValidPath(rel) && Walk(item, rel).Some? && Lookup(item, q).Some?
    ensures FirstGiven(d, Walk(item, rel).value, x, d + (rel + q)) == ComesBackWith(Lookup(item, q).value, x)
    decreases item, 1
  {
    var own := EntryOf(rel, item);
    if q == [] {
      assert rel + q == rel;
      OwnEntryGives(d, rel, item, x);
      if item.DirItem? {
        FirstGivenConcat(d, [own], WalkKids(item.kids, rel).value, x, d + rel);
      } else {
        assert [own][1..] == [];
      }
    } else {
      ElsewhereGivesNothing(d, rel, item, x, rel + q);
      assert [own][1..] == [];
      FirstGivenConcat(d, [own], WalkKids(item.kids, rel).value, x, d + (rel + q));
      WalkKidsGive(d, item.kids, rel, x, q);
    }
  }

  lemma {:induction false} WalkKidsGive(d: Path, kids: seq<Kid>, rel: Path, x: Extractor, q: Path)
    requires ValidKids(kids) && ValidPath(rel) && WalkKids(kids, rel).Some? && q != [] && LookupKids(kids, q).Some?
    ensures FirstGiven(d, WalkKids(kids, rel).value, x, d + (rel + q)) == ComesBackWith(LookupKids(kids, q).value, x)
    decreases kids, 0
  {
    var k := kids[0];
    var below := rel + [k.name];
    FirstGivenConcat(d, Walk(k.item, below).value, WalkKids(kids[1..], rel).value, x, d + (rel + q));
    if k.name == q[0] {
      assert below + q[1..] == rel + q;
      WalkGives(d, k.item, below, x, q[1..]);
      if ComesBackWith(LookupKids(kids, q).value, x).None? {
        LaterKidsElsewhere(d, kids, rel, x, q);
      }
    } else {
      assert (rel + q)[|rel|] == q[0] && below[|rel|] == k.name;
      OtherSubtree(d, k.item, below, x, rel + q);
      WalkKidsGive(d, kids[1..], rel, x, q);
    }
  }

  /** Names in a directory differ, so nothing later is written for this one. */
  lemma LaterKidsElsewhere(d: Path, kids: seq<Kid>, rel: Path, x: Extractor, q: Path)
    requires ValidKids(kids) && kids != [] && ValidPath(rel) && WalkKids(kids[1..], rel).Some?
    requires q != [] && kids[0].name == q[0]
    ensures FirstGiven(d, WalkKids(kids[1..], rel).value, x, d + (rel + q)) == None
  {
    var es := WalkKids(kids[1..], rel).value;
    forall i | 0 <= i < |es| ensures GivenBy(d, es[i], x, d + (rel + q)) == None {
      var r := WalkKidsSound(kids[1..], rel, i);
      LookupKidsValid(kids[1..], r);
      LookupKidsPresent(kids[1..], r);
      assert r[0] != q[0] && (rel + r)[|rel|] == r[0] && (rel + q)[|rel|] == q[0];
      ElsewhereGivesNothing(d, rel + r, LookupKids(kids[1..], r).value, x, rel + q);
    }
    NoneGiven(d, es, x, d + (rel + q));
  }

  /** A site's tree, archived and extracted over any disk: a file that was not there has exactly the mode it
      was archived with; a directory that was not there has 0750 after a restore, and its own mode with
      the owner's bits set after a migration; both belong to root. What was there keeps its owner and
      mode. */
  lemma ModesComeBack(t: Tree, d: Path, item: Item, x: Extractor, q: Path)
    requires WellFormed(t) && ValidTree(item) && Walk(item, []).Some? && Overlay(t, d, Walk(item, []).value, x).Some?
    requires Lookup(item, q).Some?
    ensures var t' := Overlay(t, d, Walk(item, []).value, x).value;
            if d + q in t then d + q in t' && t'[d + q].meta == t[d + q].meta
            else match Lookup(item, q).value
                 case FileItem(mode, _) => d + q in t' && t'[d + q].meta == Meta(0, 0, mode)
                 case DirItem(mode, _) =>
                   var given := if x == Restore then 488 else mode - mode / 64 % 8 * 64 + 448;
                   d + q in t' && t'[d + q].meta == Meta(0, 0, given)
                 case _ => d + q !in t'
  {
    OverlayGives(t, d, Walk(item, []).value, x, d + q);
    WalkGives(d, item, [], x, q);
    assert [] + q == q;
  }

  /** The owner's bits, and no others, are set. */
  lemma OwnerBitsSet(high: nat, owner: nat, low: nat)
    requires owner < 8 && low < 64
    ensures WithOwnerBits(512 * high + 64 * owner + low) == 512 * high + 448 + low
  {
    var mode := 512 * high + 64 * owner + low;
    assert mode / 64 == 8 * high + owner;
  }

  /** What is stored of a content is its beginning, all of it up to 4 GiB. */
  lemma LimitIsPrefix(data: Bytes)
    ensures Limit(data) <= data && |Limit(data)| == if |data| < 4294967296 then |data| else 4294967296
  {
  }
}
