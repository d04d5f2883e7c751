/** Go's bufio.Scanner with its default line splitting and buffer limit. */
module LineScanner {
  import opened Text

  /** A line this long or longer, its newline not counted, does not fit the buffer. */
  const MAX_TOKEN := 65536

  /** The lines of a text, carriage returns included. What follows the last newline is a line too, unless
      it is empty. */
  function Raw(s: string): seq<string> {
    WithoutEmptyEnd(Split(s, '\n'))
  }

  function WithoutEmptyEnd(p: seq<string>): seq<string>
    requires p != []
  {
    if p[|p| - 1] == "" then p[..|p| - 1] else p
  }

  /** The text of a line: one trailing carriage return is dropped. */
  function Stripped(line: string): string {
    if line != "" && line[|line| - 1] == '\r' then line[..|line| - 1] else line
  }

  /** The lines delivered: those before the first that is too long. */
  function Delivered(raw: seq<string>): seq<string> {
    if raw == [] || |raw[0]| >= MAX_TOKEN then [] else [Stripped(raw[0])] + Delivered(raw[1..])
  }

  function Lines(s: string): seq<string> {
    Delivered(Raw(s))
  }

  predicate AllFit(raw: seq<string>) {
    forall i | 0 <= i < |raw| :: |raw[i]| < MAX_TOKEN
  }

  /** Err() is nil at the end. */
  predicate Fits(s: string) {
    AllFit(Raw(s))
  }

  predicate Terminated(s: string) {
    s == "" || s[|s| - 1] == '\n'
  }

  /** The pieces of two texts when the second goes on where the first ends. */
  function Fuse(p: seq<string>, q: seq<string>): seq<string>
    requires p != [] && q != []
  {
    p[..|p| - 1] + [p[|p| - 1] + q[0]] + q[1..]
  }

  lemma FuseEmptyEnd(p: seq<string>, q: seq<string>)
    requires p != [] && q != [] && p[|p| - 1] == ""
    ensures Fuse(p, q) == p[..|p| - 1] + q
  {
    assert "" + q[0] == q[0];
    assert q == [q[0]] + q[1..];
  }

  lemma FuseTail(x: string, p: seq<string>, q: seq<string>)
    requires p != [] && q != []
    ensures Fuse([x] + p, q) == [x] + Fuse(p, q)
  {
    assert ([x] + p)[..|p|] == [x] + p[..|p| - 1];
  }

  lemma FuseHead(c: char, p: seq<string>, q: seq<string>)
    requires p != [] && q != []
    ensures Fuse([[c] + p[0]] + p[1..], q) == [[c] + Fuse(p, q)[0]] + Fuse(p, q)[1..]
  {
    if |p| > 1 {
      var t := p[1..];
      assert p == [p[0]] + t;
      FuseTail(p[0], t, q);
      FuseTail([c] + p[0], t, q);
    } else {
      assert [c] + p[0] + q[0] == [c] + (p[0] + q[0]);
      assert Fuse(p, q) == [p[0] + q[0]] + q[1..];
    }
  }

  lemma {:induction false} SplitAppend(a: string, b: string, sep: char)
    ensures Split(a + b, sep) == Fuse(Split(a, sep), Split(b, sep))
  {
    var q := Split(b, sep);
    if a == "" {
      assert a + b == b;
      FuseEmptyEnd([""], q);
    } else {
      assert (a + b)[1..] == a[1..] + b;
      SplitAppend(a[1..], b, sep);
      var p := Split(a[1..], sep);
      if a[0] == sep {
        FuseTail("", p, q);
      } else {
        FuseHead(a[0], p, q);
      }
    }
  }

  lemma {:induction false} LastPiece(s: string)
    ensures var p := Split(s, '\n'); p[|p| - 1] == "" <==> Terminated(s)
  {
    if s != "" {
      LastPiece(s[1..]);
    }
  }

  lemma EndOfConcat(x: seq<string>, q: seq<string>)
    requires q != []
    ensures WithoutEmptyEnd(x + q) == x + WithoutEmptyEnd(q)
  {
    var n := |q| - 1;
    assert (x + q)[|x| + n] == q[n];
    assert (x + q)[..|x| + n] == x + q[..n];
  }

  lemma RawConcat(a: string, b: string)
    requires Terminated(a)
    ensures Raw(a + b) == Raw(a) + Raw(b)
  {
    var p, q := Split(a, '\n'), Split(b, '\n');
    var x := p[..|p| - 1];
    SplitAppend(a, b, '\n');
    LastPiece(a);
    FuseEmptyEnd(p, q);
    EndOfConcat(x, q);
  }

  lemma {:induction false} DeliveredConcat(x: seq<string>, y: seq<string>)
    requires AllFit(x)
    ensures Delivered(x + y) == Delivered(x) + Delivered(y)
  {
    if x == [] {
      assert x + y == y;
    } else {
      assert (x + y)[1..] == x[1..] + y;
      DeliveredConcat(x[1..], y);
    }
  }

  lemma {:induction false} AllDelivered(raw: seq<string>)
    requires AllFit(raw)
    ensures |Delivered(raw)| == |raw|
  {
    if raw != [] {
      AllDelivered(raw[1..]);
    }
  }

  /** Cutting a text after a newline changes nothing about its lines. */
  lemma LinesConcat(a: string, b: string)
    requires Terminated(a)
    ensures Fits(a + b) <==> Fits(a) && Fits(b)
    ensures Fits(a) ==> Lines(a + b) == Lines(a) + Lines(b)
  {
    RawConcat(a, b);
    var x, y := Raw(a), Raw(b);
    assert AllFit(x + y) <==> AllFit(x) && AllFit(y) by {
      if AllFit(x + y) {
        forall i | 0 <= i < |x| ensures |x[i]| < MAX_TOKEN {
          assert (x + y)[i] == x[i];
        }
        forall i | 0 <= i < |y| ensures |y[i]| < MAX_TOKEN {
          assert (x + y)[|x| + i] == y[i];
        }
      }
    }
    if Fits(a) {
      DeliveredConcat(x, y);
    }
  }

  /** A cut inside a line makes two lines of it. */
  lemma CutInsideLine(a: string, b: string)
    requires !Terminated(a) && b != ""
    ensures |Raw(a + b)| + 1 == |Raw(a)| + |Raw(b)|
  {
    SplitAppend(a, b, '\n');
    LastPiece(a);
    LastPiece(b);
    LastPiece(a + b);
    assert (a + b)[|a + b| - 1] == b[|b| - 1];
  }

  /** Reading a text in two parts delivers the lines of the whole exactly when the cut is after a newline
      or at an end of the text; anywhere else there is one line too many. */
  lemma CutIsSafeExactlyAfterNewline(a: string, b: string)
    requires Fits(a) && Fits(b) && Fits(a + b)
    ensures Lines(a + b) == Lines(a) + Lines(b) <==> Terminated(a) || b == ""
    ensures !Terminated(a) && b != "" ==> |Lines(a + b)| + 1 == |Lines(a)| + |Lines(b)|
  {
    if Terminated(a) {
      LinesConcat(a, b);
    } else if b == "" {
      assert a + b == a;
    } else {
      CutInsideLine(a, b);
      AllDelivered(Raw(a));
      AllDelivered(Raw(b));
      AllDelivered(Raw(a + b));
    }
  }

  /** Once a line is too long, no text that goes on from there fits. */
  lemma NeverFitsAgain(a: string, b: string)
    requires !Fits(a)
    ensures !Fits(a + b)
  {
    var p, w := Split(a, '\n'), Split(a + b, '\n');
    SplitAppend(a, b, '\n');
    LastPiece(a + b);
    var i :| 0 <= i < |Raw(a)| && |Raw(a)[i]| >= MAX_TOKEN;
    assert p[i] == Raw(a)[i] && |w[i]| >= |p[i]|;
    assert Raw(a + b)[i] == w[i];
  }

  /** The first line and the rest. */
  lemma FirstLine(s: string, i: nat)
    requires i < |s| && '\n' !in s[..i] && s[i] == '\n'
    ensures Raw(s) == [s[..i]] + Raw(s[i + 1..])
  {
    assert s == s[..i] + ['\n'] + s[i + 1..];
    SplitConcat(s[..i], s[i + 1..], '\n');
    SplitWithoutSeparator(s[..i], '\n');
    EndOfConcat([s[..i]], Split(s[i + 1..], '\n'));
  }

  lemma OnlyLine(s: string)
    requires '\n' !in s && s != ""
    ensures Raw(s) == [s]
  {
    SplitWithoutSeparator(s, '\n');
  }

  /** A text that starts with this many characters of one line. */
  lemma LongLine(start: string, rest: string)
    requires '\n' !in start && |start| >= MAX_TOKEN
    ensures Raw(start + rest) != [] && |Raw(start + rest)[0]| >= MAX_TOKEN
  {
    SplitAppend(start, rest, '\n');
    SplitWithoutSeparator(start, '\n');
    LastPiece(start + rest);
  }

  /** What a delivered line leaves behind. */
  lemma LinesStep(s: string, rest: string)
    requires Raw(s) != [] && |Raw(s)[0]| < MAX_TOKEN && Raw(rest) == Raw(s)[1..]
    ensures Lines(s) == [Stripped(Raw(s)[0])] + Lines(rest)
    ensures Fits(s) <==> Fits(rest)
  {
    var r := Raw(s);
    if Fits(rest) {
      forall i | 0 <= i < |r| ensures |r[i]| < MAX_TOKEN {
        assert i > 0 ==> r[1..][i - 1] == r[i];
      }
    }
    if Fits(s) {
      forall i | 0 <= i < |r| - 1 ensures |r[1..][i]| < MAX_TOKEN {
      }
    }
  }

  lemma LinesCons(line: string, rest: string)
    requires '\n' !in line && |line| < MAX_TOKEN
    ensures Lines(line + "\n" + rest) == [Stripped(line)] + Lines(rest)
    ensures Fits(line + "\n" + rest) <==> Fits(rest)
    ensures line != "" ==> Lines(line) == [Stripped(line)] && Fits(line)
  {
    var s := line + "\n" + rest;
    assert s[..|line|] == line && s[|line| + 1..] == rest;
    FirstLine(s, |line|);
    LinesStep(s, rest);
    if line != "" {
      OnlyLine(line);
      LinesStep(line, "");
      assert Lines("") == [];
    }
  }

  /** One carriage return before the newline goes with it, and no more than one. */
  lemma CarriageReturnDropped(line: string, rest: string)
    requires '\n' !in line && |line| + 1 < MAX_TOKEN
    ensures Lines(line + "\r" + "\n" + rest) == [line] + Lines(rest)
    ensures (line == "" || line[|line| - 1] != '\r') ==> Lines(line + "\n" + rest) == [line] + Lines(rest)
  {
    var l := line + "\r";
    LinesCons(l, rest);
    assert l[..|l| - 1] == line;
    LinesCons(line, rest);
  }

  /** The scanner as the agent's loops use it. */
  class Scanner {
    ghost const all: string
    var rest: string
    var failed: bool
    /** The lines delivered so far. */
    ghost var lines: seq<string>

    ghost predicate Valid()
      reads this
    {
      && !failed
      && Lines(all) == lines + Lines(rest)
      && (Fits(all) <==> Fits(rest))
    }

    constructor (s: string)
      ensures Valid() && all == s && lines == []
    {
      all, rest, failed, lines := s, s, false, [];
    }

    /** Scan and Text in one: false at the end of the text and at a line that is too long. */
    method Scan() returns (ok: bool, line: string)
      requires Valid()
      modifies this
      ensures ok ==> Valid() && lines == old(lines) + [line] && |rest| < |old(rest)|
      ensures !ok ==> lines == old(lines) == Lines(all) && (failed <==> !Fits(all))
    {
      if rest == "" {
        return false, "";
      }
      var next;
      ok, line, next := Cut(rest);
      if !ok {
        failed := true;
        return false, "";
      }
      Shift(lines, line, Lines(next));
      rest := next;
      lines := lines + [line];
    }
  }

  lemma Shift(done: seq<string>, line: string, rest: seq<string>)
    ensures done + ([line] + rest) == (done + [line]) + rest
  {
  }

  /** The first line, if it ends where the buffer reaches, and what is left after it. */
  method Cut(s: string) returns (ok: bool, line: string, rest: string)
    requires s != ""
    ensures ok ==> Lines(s) == [line] + Lines(rest) && (Fits(s) <==> Fits(rest)) && |rest| < |s|
    ensures !ok ==> Lines(s) == [] && !Fits(s)
  {
    var i := 0;
    while i < |s| && s[i] != '\n'
      invariant 0 <= i <= |s| && i < MAX_TOKEN && '\n' !in s[..i]
    {
      i := i + 1;
      if i == MAX_TOKEN {
        LongLine(s[..i], s[i..]);
        assert s[..i] + s[i..] == s;
        return false, "", "";
      }
    }
    if i < |s| {
      FirstLine(s, i);
      LinesStep(s, s[i + 1..]);
      return true, Stripped(s[..i]), s[i + 1..];
    }
    assert s[..i] == s;
    OnlyLine(s);
    LinesStep(s, "");
    return true, Stripped(s), "";
  }
}
