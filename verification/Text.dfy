/** The string operations the agent takes from Go's `strings` package: splitting and joining
    at a separator, trimming white space, and looking for the substring "..". */
module Text {

  /** strings.Split(s, sep) for a one-character separator. */
  function Split(s: string, sep: char): (parts: seq<string>)
    ensures |parts| >= 1
  {
    if s == "" then [""]
    else
      var rest := Split(s[1..], sep);
      if s[0] == sep then [""] + rest
      else [[s[0]] + rest[0]] + rest[1..]
  }

  /** strings.Join(parts, sep). */
  function Join(parts: seq<string>, sep: char): string {
    if |parts| == 0 then ""
    else if |parts| == 1 then parts[0]
    else parts[0] + [sep] + Join(parts[1..], sep)
  }

  lemma {:induction false} SplitConcat(a: string, b: string, sep: char)
    ensures Split(a + [sep] + b, sep) == Split(a, sep) + Split(b, sep)
  {
    var s := a + [sep] + b;
    if a == "" {
      assert s[1..] == b;
    } else {
      assert s[1..] == a[1..] + [sep] + b;
      SplitConcat(a[1..], b, sep);
    }
  }

  lemma {:induction false} SplitWithoutSeparator(a: string, sep: char)
    requires sep !in a
    ensures Split(a, sep) == [a]
  {
    if a != "" {
      SplitWithoutSeparator(a[1..], sep);
      assert [a[0]] + a[1..] == a;
    }
  }

  lemma {:induction false} SplitPartsLackSeparator(s: string, sep: char)
    ensures forall p <- Split(s, sep) :: sep !in p
  {
    if s != "" {
      SplitPartsLackSeparator(s[1..], sep);
    }
  }

  lemma {:induction false} JoinOfSplit(s: string, sep: char)
    ensures Join(Split(s, sep), sep) == s
  {
    if s != "" {
      JoinOfSplit(s[1..], sep);
      var rest := Split(s[1..], sep);
      if s[0] == sep {
        assert ([""] + rest)[1..] == rest;
      } else {
        var head := [[s[0]] + rest[0]];
        assert (head + rest[1..])[1..] == rest[1..];
      }
    }
  }

  /** Splitting undoes joining, for a nonempty list of parts free of the separator. */
  lemma {:induction false} SplitOfJoin(parts: seq<string>, sep: char)
    requires |parts| > 0
    requires forall p <- parts :: sep !in p
    ensures Split(Join(parts, sep), sep) == parts
  {
    SplitWithoutSeparator(parts[0], sep);
    if |parts| > 1 {
      SplitOfJoin(parts[1..], sep);
      SplitConcat(parts[0], Join(parts[1..], sep), sep);
    }
  }

  lemma {:induction false} JoinConcat(a: seq<string>, b: seq<string>, sep: char)
    requires |a| > 0 && |b| > 0
    ensures Join(a + b, sep) == Join(a, sep) + [sep] + Join(b, sep)
  {
    if |a| == 1 {
      assert (a + b)[1..] == b;
    } else {
      assert (a + b)[1..] == a[1..] + b;
      JoinConcat(a[1..], b, sep);
    }
  }

  /** strings.Contains(s, ".."). */
  predicate HasDotDot(s: string) {
    exists i :: 0 <= i < |s| - 1 && s[i] == '.' && s[i + 1] == '.'
  }

  /** Wherever the two characters stand in a text, inside a name included, they are found. */
  lemma DotDotAnywhere(a: string, b: string)
    ensures HasDotDot(a + ".." + b)
  {
    var s := a + ".." + b;
    assert s[|a|] == '.' && s[|a| + 1] == '.';
  }

  /** And what is found is there. */
  lemma DotDotSplits(s: string) returns (a: string, b: string)
    requires HasDotDot(s)
    ensures s == a + ".." + b
  {
    var i :| 0 <= i < |s| - 1 && s[i] == '.' && s[i + 1] == '.';
    a, b := s[..i], s[i + 2..];
    assert s == s[..i] + [s[i]] + [s[i + 1]] + s[i + 2..];
  }

  lemma HasDotDotConcat(a: string, b: string)
    ensures HasDotDot(a + "/" + b) <==> HasDotDot(a) || HasDotDot(b)
  {
    var s := a + "/" + b;
    if HasDotDot(a) {
      var i :| 0 <= i < |a| - 1 && a[i] == '.' && a[i + 1] == '.';
      assert s[i] == '.' && s[i + 1] == '.';
    }
    if HasDotDot(b) {
      var i :| 0 <= i < |b| - 1 && b[i] == '.' && b[i + 1] == '.';
      assert s[|a| + 1 + i] == '.' && s[|a| + 1 + i + 1] == '.';
    }
    if HasDotDot(s) {
      var i :| 0 <= i < |s| - 1 && s[i] == '.' && s[i + 1] == '.';
      assert s[|a|] == '/';
      if i < |a| {
        assert a[i] == '.' && a[i + 1] == '.';
      } else {
        var j := i - |a| - 1;
        assert b[j] == '.' && b[j + 1] == '.';
      }
    }
  }

  /** A joined path contains ".." exactly when one of its names does. */
  lemma {:induction false} HasDotDotJoin(parts: seq<string>)
    ensures HasDotDot(Join(parts, '/')) <==> exists p <- parts :: HasDotDot(p)
  {
    if |parts| > 1 {
      HasDotDotConcat(parts[0], Join(parts[1..], '/'));
      HasDotDotJoin(parts[1..]);
      assert parts == [parts[0]] + parts[1..];
    }
  }

  /** A string without the substring ".." has no component "..". */
  lemma NoDotDotComponent(s: string)
    requires !HasDotDot(s)
    ensures ".." !in Split(s, '/')
  {
    JoinOfSplit(s, '/');
    HasDotDotJoin(Split(s, '/'));
    var dd := "..";
    assert dd[0] == '.' && dd[1] == '.' && HasDotDot(dd);
  }

  /** unicode.IsSpace. */
  predicate IsSpace(c: char) {
    || '\t' <= c <= '\r'
    || c == ' '
    || c == '\U{85}' || c == '\U{A0}' || c == '\U{1680}'
    || '\U{2000}' <= c <= '\U{200A}'
    || c == '\U{2028}' || c == '\U{2029}' || c == '\U{202F}' || c == '\U{205F}' || c == '\U{3000}'
  }

  function TrimLeft(s: string): string {
    if s != "" && IsSpace(s[0]) then TrimLeft(s[1..]) else s
  }

  function TrimRight(s: string): string {
    if s != "" && IsSpace(s[|s| - 1]) then TrimRight(s[..|s| - 1]) else s
  }

  /** strings.TrimSpace. */
  function TrimSpace(s: string): string {
    TrimRight(TrimLeft(s))
  }

  /** A string whose two ends are not white space, so that TrimSpace leaves it alone. */
  predicate Trimmed(s: string) {
    s == "" || (!IsSpace(s[0]) && !IsSpace(s[|s| - 1]))
  }

  lemma {:induction false} TrimLeftShortens(s: string)
    ensures |TrimLeft(s)| <= |s|
    ensures TrimLeft(s) == "" || !IsSpace(TrimLeft(s)[0])
    ensures s != "" && IsSpace(s[0]) ==> |TrimLeft(s)| < |s|
    ensures forall c <- TrimLeft(s) :: c in s
  {
    if s != "" && IsSpace(s[0]) {
      TrimLeftShortens(s[1..]);
    }
  }

  lemma {:induction false} TrimRightShortens(s: string)
    ensures |TrimRight(s)| <= |s|
    ensures TrimRight(s) == "" || (!IsSpace(TrimRight(s)[|TrimRight(s)| - 1]) && TrimRight(s)[0] == s[0])
    ensures s != "" && IsSpace(s[|s| - 1]) ==> |TrimRight(s)| < |s|
    ensures forall c <- TrimRight(s) :: c in s
  {
    if s != "" && IsSpace(s[|s| - 1]) {
      TrimRightShortens(s[..|s| - 1]);
    }
  }

  /** TrimSpace leaves a string as it is exactly when both ends are free of white space; otherwise
      the result is strictly shorter. */
  lemma TrimSpaceFixesExactlyTrimmed(s: string)
    ensures Trimmed(s) ==> TrimSpace(s) == s
    ensures !Trimmed(s) ==> |TrimSpace(s)| < |s|
    ensures Trimmed(TrimSpace(s))
    ensures forall c <- TrimSpace(s) :: c in s
  {
    TrimLeftShortens(s);
    TrimRightShortens(TrimLeft(s));
  }

  /** White space only. */
  predicate Blank(s: string) {
    forall i | 0 <= i < |s| :: IsSpace(s[i])
  }

  lemma {:induction false} TrimLeftTakesBlank(s: string) returns (x: string)
    ensures Blank(x) && s == x + TrimLeft(s)
  {
    x := "";
    if s != "" && IsSpace(s[0]) {
      var rest := TrimLeftTakesBlank(s[1..]);
      x := [s[0]] + rest;
      assert s == [s[0]] + s[1..];
    }
  }

  lemma {:induction false} TrimRightTakesBlank(s: string) returns (y: string)
    ensures Blank(y) && s == TrimRight(s) + y
  {
    y := "";
    if s != "" && IsSpace(s[|s| - 1]) {
      var rest := TrimRightTakesBlank(s[..|s| - 1]);
      y := rest + [s[|s| - 1]];
      assert s == s[..|s| - 1] + [s[|s| - 1]];
    }
  }

  /** TrimSpace takes nothing but white space off the two ends. */
  lemma TrimSpaceTakesBlank(s: string) returns (x: string, y: string)
    ensures Blank(x) && Blank(y) && s == x + TrimSpace(s) + y
  {
    x := TrimLeftTakesBlank(s);
    y := TrimRightTakesBlank(TrimLeft(s));
    assert s == x + (TrimSpace(s) + y);
  }

  lemma {:induction false} TrimLeftPadded(x: string, s: string)
    requires Blank(x) && (s == "" || !IsSpace(s[0]))
    ensures TrimLeft(x + s) == s
  {
    if x == "" {
      assert x + s == s;
    } else {
      assert (x + s)[1..] == x[1..] + s;
      TrimLeftPadded(x[1..], s);
    }
  }

  lemma {:induction false} TrimRightPadded(s: string, y: string)
    requires Blank(y) && (s == "" || !IsSpace(s[|s| - 1]))
    ensures TrimRight(s + y) == s
  {
    if y == "" {
      assert s + y == s;
    } else {
      var n := |y| - 1;
      assert (s + y)[..|s + y| - 1] == s + y[..n];
      TrimRightPadded(s, y[..n]);
    }
  }

  /** And it takes all of it. */
  lemma TrimSpacePadded(x: string, s: string, y: string)
    requires Blank(x) && Blank(y) && Trimmed(s) && s != ""
    ensures TrimSpace(x + s + y) == s
  {
    assert x + s + y == x + (s + y);
    TrimLeftPadded(x, s + y);
    TrimRightPadded(s, y);
  }

  /** strings.HasPrefix. */
  predicate StartsWith(s: string, prefix: string) {
    |prefix| <= |s| && s[..|prefix|] == prefix
  }

  /** A number in decimal, without leading zeros. */
  function Decimal(n: nat): string {
    if n < 10 then ['0' + n as char] else Decimal(n / 10) + ['0' + (n % 10) as char]
  }
}
