/** The registry and the archive directory as the handlers change them, each method under the registry's
    lock and proved to have the effect of one step of ArchiveTokens; and the size-capping writer. */
module ArchiveStore {
  import opened FileSystem
  import opened ArchiveTokens

  class Store {
    var entries: map<string, Entry>
    /** The archive directory: which build's file each name leads to. */
    var dir: map<ArchiveTokens.File, nat>

    /** The end of a build: its entry goes into the registry under its token. */
    method Insert(token: string, e: Entry)
      modifies `entries
      ensures entries == old(entries)[token := e]
      ensures forall s: State | s.reg == old(entries) && Enabled(s, ArchiveTokens.Insert(e.build)) ::
                s.builds[e.build].file == e.file && s.builds[e.build].expiresAt == e.expiresAt
                    && e.file.token == token ==>
                  Apply(s, ArchiveTokens.Insert(e.build)).reg == entries
    {
      entries := entries[token := e];
    }

    /** The locked part of a download: the entry, if there is one, leaves the registry for good. */
    method Redeem(token: string) returns (found: Option<Entry>)
      modifies `entries
      ensures found == if token in old(entries) then Some(old(entries)[token]) else None
      ensures entries == old(entries) - {token}
      ensures found.Some? ==>
                forall s: State | s.reg == old(entries) ::
                  && Apply(s, ArchiveTokens.Redeem(token)).reg == entries
                  && Apply(s, ArchiveTokens.Redeem(token)).fetches == s.fetches + [Fetch(found.value, Claimed)]
    {
      if token in entries {
        found := Some(entries[token]);
        entries := entries - {token};
      } else {
        found := None;
      }
    }

    /** The first pass of a sweep: remove the files of expired entries and note their tokens. The map is
        walked in no particular order. */
    method RemoveExpired(now: int) returns (toDel: seq<string>)
      modifies `dir
      ensures forall t :: t in toDel <==> t in Expired(entries, now)
      ensures dir == old(dir) - FilesOf(entries, Expired(entries, now))
    {
      ghost var gone: set<string> := {};
      toDel := [];
      var tokens := entries.Keys;
      while tokens != {}
        invariant tokens <= entries.Keys && gone == Expired(entries, now) - tokens
        invariant forall t :: t in toDel <==> t in gone
        invariant dir == old(dir) - FilesOf(entries, gone)
        decreases |tokens|
      {
        var t :| t in tokens;
        tokens := tokens - {t};
        if now > entries[t].expiresAt {
          toDel := toDel + [t];
          OneMoreFile(entries, gone, t);
          OneMoreRemoved(old(dir), FilesOf(entries, gone), entries[t].file);
          gone := gone + {t};
          dir := dir - {entries[t].file};
        }
      }
    }

    /** The second pass: delete the tokens noted. */
    method Forget(toDel: seq<string>)
      modifies `entries
      ensures entries == old(entries) - (set t | t in toDel)
    {
      for i := 0 to |toDel|
        invariant forall t :: t in entries <==> t in old(entries) && t !in toDel[..i]
        invariant forall t | t in entries :: entries[t] == old(entries)[t]
      {
        entries := entries - {toDel[i]};
      }
    }

    /** The locked part of a sweep, both passes. */
    method Sweep(now: int)
      modifies this
      ensures entries == old(entries) - Expired(old(entries), now)
      ensures dir == old(dir) - FilesOf(old(entries), Expired(old(entries), now))
      ensures forall s: State | s.reg == old(entries) && s.dir == old(dir) && s.janitor == Woken(now) ::
                Apply(s, ArchiveTokens.Sweep).reg == entries && Apply(s, ArchiveTokens.Sweep).dir == dir
    {
      var toDel := RemoveExpired(now);
      Forget(toDel);
      assert (set t | t in toDel) == Expired(old(entries), now);
    }
  }

  lemma OneMoreFile(reg: map<string, Entry>, gone: set<string>, t: string)
    requires gone <= reg.Keys && t in reg
    ensures FilesOf(reg, gone + {t}) == FilesOf(reg, gone) + {reg[t].file}
  {
  }

  lemma OneMoreRemoved(dir: map<ArchiveTokens.File, nat>, files: set<ArchiveTokens.File>, f: ArchiveTokens.File)
    ensures dir - files - {f} == dir - (files + {f})
  {
  }

  /** Passes writes on until one would take the total over max. That one is refused whole; a shorter one
      after it may still go through. */
  class CappedWriter {
    const max: nat
    var n: nat
    /** Everything the file below has accepted. */
    ghost var written: Bytes

    ghost predicate Valid()
      reads this
    {
      n == |written| <= max
    }

    constructor (max: nat)
      ensures Valid() && this.max == max && written == []
    {
      this.max, n, written := max, 0, [];
    }

    /** accepts is how many bytes the file takes this time: fewer than given when its own write fails. */
    method Write(p: Bytes, accepts: nat) returns (count: nat, refused: bool)
      requires Valid() && accepts <= |p|
      modifies this
      ensures Valid()
      ensures refused <==> old(|written|) + |p| > max
      ensures count == (if refused then 0 else accepts) && written == old(written) + p[..count]
    {
      if n + |p| > max {
        return 0, true;
      }
      n := n + accepts;
      written := written + p[..accepts];
      return accepts, false;
    }

    /** A build's whole output: it stops at the first write that is refused or falls short. Never more
        than the cap reaches the file, and everything does exactly when nothing falls short and the whole
        output fits. */
    method WriteAll(ps: seq<Bytes>, accepts: seq<nat>) returns (ok: bool)
      requires Valid() && written == []
      requires |accepts| == |ps| && forall i | 0 <= i < |ps| :: accepts[i] <= |ps[i]|
      modifies this
      ensures Valid() && written <= Flat(ps)
      ensures ok <==> |Flat(ps)| <= max && forall i | 0 <= i < |ps| :: accepts[i] == |ps[i]|
      ensures ok ==> written == Flat(ps)
    {
      for i := 0 to |ps|
        invariant Valid() && written == Flat(ps[..i])
        invariant forall j | 0 <= j < i :: accepts[j] == |ps[j]|
      {
        FlatStep(ps, i);
        var count, refused := Write(ps[i], accepts[i]);
        if refused || count < |ps[i]| {
          return false;
        }
        assert ps[i][..count] == ps[i];
      }
      assert ps[..|ps|] == ps;
      return true;
    }
  }

  function Flat(ps: seq<Bytes>): Bytes {
    if ps == [] then [] else Flat(ps[..|ps| - 1]) + ps[|ps| - 1]
  }

  /** What is written up to one piece, and with that piece, is a beginning of the whole. */
  lemma {:induction false} FlatStep(ps: seq<Bytes>, i: nat)
    requires i < |ps|
    ensures Flat(ps[..i + 1]) == Flat(ps[..i]) + ps[i]
    ensures Flat(ps[..i + 1]) <= Flat(ps)
    decreases |ps|
  {
    assert ps[..i + 1][..i] == ps[..i];
    if i + 1 == |ps| {
      assert ps[..i + 1] == ps;
    } else {
      var n := |ps| - 1;
      FlatStep(ps[..n], i);
      assert ps[..n][..i + 1] == ps[..i + 1] && ps[..n][..i] == ps[..i];
    }
  }
}
