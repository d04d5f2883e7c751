/** The guard that turns a caller's relative path into an absolute path inside a docroot. The file
    manager and the archive builder each carry a copy of it. */
module PathResolution {
  import opened Text
  import opened Paths
  import opened FileSystem

  /** What the guard computes: the names of the trimmed text, below the docroot. */
  function Resolved(docroot: Path, rel: string): Option<Path> {
    var parts := Split(TrimSpace(rel), '/');
    if '\0' in rel || ".." in parts then None
    else Some(docroot + Kept(parts))
  }

  lemma DropLeadingSlash(s: string)
    requires s != "" && s[0] == '/'
    ensures KeptOf(s[1..]) == KeptOf(s)
    ensures ".." in Split(s[1..], '/') <==> ".." in Split(s, '/')
  {
    assert Split(s, '/') == [""] + Split(s[1..], '/');
  }

  lemma NoNamesIn(s: string)
    requires s == "" || s == "."
    ensures KeptOf(s) == [] && ".." !in Split(s, '/')
  {
    SplitWithoutSeparator(s, '/');
    assert Split(s, '/') == [s] && [s][1..] == [];
  }

  /** strings.TrimSpace and the loop that strips leading slashes. */
  method TrimLeadingSlashes(rel: string) returns (clean: string)
    ensures KeptOf(clean) == KeptOf(TrimSpace(rel))
    ensures ".." in Split(clean, '/') <==> ".." in Split(TrimSpace(rel), '/')
  {
    clean := TrimSpace(rel);
    while clean != "" && clean[0] == '/'
      invariant KeptOf(clean) == KeptOf(TrimSpace(rel))
      invariant ".." in Split(clean, '/') <==> ".." in Split(TrimSpace(rel), '/')
      decreases |clean|
    {
      DropLeadingSlash(clean);
      clean := clean[1..];
    }
  }

  /** The scan for a ".." component. */
  method HasDotDotPart(parts: seq<string>) returns (found: bool)
    ensures found <==> ".." in parts
  {
    var i := 0;
    while i < |parts|
      invariant 0 <= i <= |parts|
      invariant ".." !in parts[..i]
    {
      if parts[i] == ".." {
        return true;
      }
      i := i + 1;
    }
    assert parts[..i] == parts;
    return false;
  }

  /** Joining and cleaning below the docroot: the prefix guard holds of the result. */
  lemma JoinedPath(docroot: Path, clean: string)
    requires ValidPath(docroot) && docroot != [] && ".." !in Split(clean, '/')
    ensures clean != "" ==> Clean(JoinPath(Render(docroot), clean)) == Render(docroot + KeptOf(clean))
    ensures ValidPath(docroot + KeptOf(clean)) && KeptOf(Render(docroot + KeptOf(clean))) == docroot + KeptOf(clean)
    ensures Render(docroot + KeptOf(clean)) == Render(docroot) <==> KeptOf(clean) == []
    ensures KeptOf(clean) != [] ==> Render(docroot) + "/" <= Render(docroot + KeptOf(clean))
  {
    var k := KeptOf(clean);
    CleanUnderDirectory(docroot, clean);
    CleanOfRender(docroot + k);
    KeptOfRender(docroot + k);
    KeptOfRender(docroot);
    if k != [] {
      RenderPrefix(docroot, k);
    } else {
      assert docroot + k == docroot;
    }
  }

  /** resolvePath: an absolute path string, or None for a rejected path. The final prefix guard
      never rejects anything the ".." scan let through. */
  method ResolvePath(docroot: Path, rel: string) returns (r: Option<string>)
    requires ValidPath(docroot) && docroot != []
    ensures r.Some? <==> '\0' !in rel && ".." !in Split(TrimSpace(rel), '/')
    ensures r.Some? ==> r.value == Render(docroot + KeptOf(TrimSpace(rel)))
    ensures r.Some? <==> Resolved(docroot, rel).Some?
    ensures r.Some? ==> r.value == Render(Resolved(docroot, rel).value)
                        && ValidPath(Resolved(docroot, rel).value) && KeptOf(r.value) == Resolved(docroot, rel).value
                        && docroot <= Resolved(docroot, rel).value
                        && (r.value == Render(docroot) <==> Resolved(docroot, rel).value == docroot)
  {
    if '\0' in rel {
      return None;
    }
    var clean := TrimLeadingSlashes(rel);
    if clean == "" || clean == "." {
      NoNamesIn(clean);
      JoinedPath(docroot, clean);
      assert docroot + [] == docroot;
      return Some(Render(docroot));
    }
    var escapes := HasDotDotPart(Split(clean, '/'));
    if escapes {
      return None;
    }
    JoinedPath(docroot, clean);
    var abs := Clean(JoinPath(Render(docroot), clean));
    if abs != Render(docroot) && !(Render(docroot) + "/" <= abs) {
      return None;
    }
    return Some(abs);
  }

  lemma {:induction false} KeptShortens(parts: seq<string>)
    ensures |Join(Kept(parts), '/')| <= |Join(parts, '/')|
  {
    if parts != [] {
      KeptShortens(parts[1..]);
    }
  }

  /** A resolved path, given back relative to the docroot, resolves to itself exactly when white
      space neither starts its first name nor ends its last. */
  lemma ResolvingAgain(docroot: Path, k: Path)
    requires ValidPath(k) && k != [] && '\0' !in Join(k, '/')
    ensures Resolved(docroot, Join(k, '/')) == Some(docroot + k)
            <==> !IsSpace(k[0][0]) && !IsSpace(k[|k| - 1][|k[|k| - 1]| - 1])
  {
    var s := Join(k, '/');
    TrimSpaceFixesExactlyTrimmed(s);
    JoinEnds(k);
    SplitOfJoin(k, '/');
    KeptOfNames(k);
    var t := TrimSpace(s);
    KeptShortens(Split(t, '/'));
    JoinOfSplit(t, '/');
    if Resolved(docroot, s) == Some(docroot + k) {
      assert (docroot + Kept(Split(t, '/')))[|docroot|..] == Kept(Split(t, '/'));
      assert (docroot + k)[|docroot|..] == k;
    }
  }

  lemma {:induction false} JoinEnds(k: Path)
    requires ValidPath(k) && k != []
    ensures Join(k, '/') != ""
    ensures Join(k, '/')[0] == k[0][0]
    ensures Join(k, '/')[|Join(k, '/')| - 1] == k[|k| - 1][|k[|k| - 1]| - 1]
  {
    assert ValidName(k[0]);
    if |k| > 1 {
      JoinEnds(k[1..]);
    }
  }
}
