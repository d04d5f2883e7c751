/** Lexical path handling: Go's filepath.Clean and filepath.Join, and the correspondence between
    clean absolute path strings and lists of names. */
module Paths {
  import opened Text

  /** The names on the way from the root; [] is the root directory "/". */
  type Path = seq<string>

  predicate ValidName(n: string) {
    n != "" && n != "." && n != ".." && '/' !in n
  }

  predicate ValidPath(p: Path) {
    forall i | 0 <= i < |p| :: ValidName(p[i])
  }

  /** The clean absolute path string that denotes p. */
  function Render(p: Path): string {
    "/" + Join(p, '/')
  }

  function Parent(p: Path): Path {
    if p == [] then [] else p[..|p| - 1]
  }

  /** The components that carry a name: neither empty nor ".". */
  function Kept(parts: seq<string>): (names: seq<string>)
    ensures forall i | 0 <= i < |names| :: names[i] != "" && names[i] != "." && names[i] in parts
  {
    if parts == [] then []
    else if parts[0] == "" || parts[0] == "." then Kept(parts[1..])
    else [parts[0]] + Kept(parts[1..])
  }

  function KeptOf(s: string): seq<string> {
    Kept(Split(s, '/'))
  }

  /** The component loop of filepath.Clean: drop empty and "." components, let ".." cancel the
      name before it, and keep a leading ".." only on a relative path. */
  function Lex(parts: seq<string>, out: seq<string>, rooted: bool): seq<string>
    decreases |parts|
  {
    if parts == [] then out
    else if parts[0] == "" || parts[0] == "." then Lex(parts[1..], out, rooted)
    else if parts[0] == ".." then
      if out != [] && out[|out| - 1] != ".." then Lex(parts[1..], out[..|out| - 1], rooted)
      else if rooted then Lex(parts[1..], out, rooted)
      else Lex(parts[1..], out + [".."], rooted)
    else Lex(parts[1..], out + [parts[0]], rooted)
  }

  /** filepath.Clean. */
  function Clean(s: string): string {
    if s == "" then "."
    else if s[0] == '/' then Render(Lex(Split(s, '/'), [], true))
    else
      var out := Lex(Split(s, '/'), [], false);
      if out == [] then "." else Join(out, '/')
  }

  /** filepath.Join of two elements. */
  function JoinPath(a: string, b: string): string {
    if a == "" then (if b == "" then "" else Clean(b))
    else if b == "" then Clean(a)
    else Clean(a + "/" + b)
  }

  lemma {:induction false} LexWithoutDotDot(parts: seq<string>, out: seq<string>, rooted: bool)
    requires ".." !in parts
    ensures Lex(parts, out, rooted) == out + Kept(parts)
    decreases |parts|
  {
    if parts != [] {
      if parts[0] == "" || parts[0] == "." {
        LexWithoutDotDot(parts[1..], out, rooted);
      } else {
        LexWithoutDotDot(parts[1..], out + [parts[0]], rooted);
        assert out + [parts[0]] + Kept(parts[1..]) == out + Kept(parts);
      }
    }
  }

  lemma {:induction false} KeptConcat(a: seq<string>, b: seq<string>)
    ensures Kept(a + b) == Kept(a) + Kept(b)
  {
    if a == [] {
      assert a + b == b;
    } else {
      assert (a + b)[1..] == a[1..] + b;
      KeptConcat(a[1..], b);
    }
  }

  lemma {:induction false} KeptOfNames(p: seq<string>)
    requires forall i | 0 <= i < |p| :: p[i] != "" && p[i] != "."
    ensures Kept(p) == p
  {
    if p != [] {
      assert p[0] in p;
      KeptOfNames(p[1..]);
    }
  }

  /** Empty components and "." are dropped, and every other one is kept in its place. */
  lemma KeptOfOne(a: seq<string>, n: string, b: seq<string>)
    ensures Kept(a + [n] + b) == if n == "" || n == "." then Kept(a + b) else Kept(a) + [n] + Kept(b)
  {
    KeptConcat(a + [n], b);
    KeptConcat(a, [n]);
    KeptConcat(a, b);
    assert Kept([n]) == if n == "" || n == "." then [] else [n];
  }

  lemma KeptAreValidNames(s: string)
    requires ".." !in Split(s, '/')
    ensures ValidPath(KeptOf(s))
  {
    SplitPartsLackSeparator(s, '/');
  }

  /** Splitting a rendered path: an empty component for the leading slash, then the names (a second
      empty component stands for the root). */
  lemma SplitOfRender(p: Path)
    requires ValidPath(p)
    ensures Split(Render(p), '/') == if p == [] then ["", ""] else [""] + p
  {
    assert Render(p) == "" + "/" + Join(p, '/');
    SplitConcat("", Join(p, '/'), '/');
    if p != [] {
      SplitOfJoin(p, '/');
    }
  }

  /** Reading a rendered path gives the names back, so distinct paths have distinct strings. */
  lemma KeptOfRender(p: Path)
    requires ValidPath(p)
    ensures KeptOf(Render(p)) == p
  {
    SplitOfRender(p);
    KeptOfNames(p);
    KeptConcat([""], p);
    assert Kept([""] + p) == p;
    assert Kept(["", ""]) == [];
  }

  /** A clean absolute directory joined with any text free of ".." components: the directory's names
      followed by the names in the text. */
  lemma CleanUnderDirectory(d: Path, rel: string)
    requires ValidPath(d)
    requires ".." !in Split(rel, '/')
    ensures Clean(Render(d) + "/" + rel) == Render(d + KeptOf(rel))
    ensures ValidPath(d + KeptOf(rel))
  {
    var s := Render(d) + "/" + rel;
    SplitConcat(Render(d), rel, '/');
    SplitOfRender(d);
    KeptOfRender(d);
    KeptConcat(Split(Render(d), '/'), Split(rel, '/'));
    LexWithoutDotDot(Split(s, '/'), [], true);
    assert [] + Kept(Split(s, '/')) == d + KeptOf(rel);
    KeptAreValidNames(rel);
  }

  lemma JoinNonEmpty(p: Path)
    requires p != [] && ValidPath(p)
    ensures Join(p, '/') != "" && Join(p, '/')[0] != '/'
  {
    assert p[0] in p;
    assert p[0][0] in p[0];
  }

  /** Clean of a name without ".." keeps exactly its names. */
  lemma CleanKeepsNames(s: string)
    requires ".." !in Split(s, '/')
    ensures ".." !in Split(Clean(s), '/')
    ensures KeptOf(Clean(s)) == KeptOf(s)
    ensures Clean(s) != ""
  {
    var parts := Split(s, '/');
    var k := KeptOf(s);
    KeptAreValidNames(s);
    LexWithoutDotDot(parts, [], true);
    LexWithoutDotDot(parts, [], false);
    assert [] + k == k;
    SplitWithoutSeparator(".", '/');
    if s == "" {
      assert parts == [""];
    } else if s[0] == '/' {
      SplitOfRender(k);
      KeptOfRender(k);
    } else if k != [] {
      SplitOfJoin(k, '/');
      KeptOfNames(k);
      JoinNonEmpty(k);
    }
  }

  lemma CleanOfRender(d: Path)
    requires ValidPath(d)
    ensures Clean(Render(d)) == Render(d)
  {
    SplitOfRender(d);
    KeptOfRender(d);
    LexWithoutDotDot(Split(Render(d), '/'), [], true);
    assert [] + d == d;
  }

  /** The string prefix test `HasPrefix(Render(p), Render(d) + "/")`, read on names. */
  lemma RenderPrefix(d: Path, k: Path)
    requires ValidPath(d + k) && d != [] && k != []
    ensures Render(d) + "/" <= Render(d + k)
  {
    JoinConcat(d, k, '/');
    assert Render(d + k) == Render(d) + "/" + Join(k, '/');
  }
}
