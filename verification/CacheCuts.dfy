/** The collector's snapshots need not end where a line does. What a cut does to the counts, for every
    request line and every position in it. */
module CacheCuts {
  import opened FileSystem
  import opened Text
  import opened LineScanner
  import opened CacheLog

  predicate IsWord(w: string) {
    w != "" && forall k | 0 <= k < |w| :: !IsSpace(w[k])
  }

  /** A line as nginx writes it: the host and the cache status. */
  datatype Request = Request(domain: string, status: string)

  predicate IsRequest(r: Request) {
    IsWord(r.domain) && IsWord(r.status) && |r.domain| + |r.status| + 1 < MAX_TOKEN
  }

  function LineOf(r: Request): string {
    r.domain + " " + r.status + "\n"
  }

  /** What counts for a domain and a status. */
  function Counted(domain: string, status: string): seq<Event> {
    if Upper(status) == "-" then [] else [Event(domain, ClassOf(Upper(status)))]
  }

  function EventsOf(r: Request): seq<Event> {
    Counted(r.domain, r.status)
  }

  // ------------------------------------------------------------------------------ one line

  lemma {:induction false} WordEndAt(w: string, rest: string)
    requires forall k | 0 <= k < |w| :: !IsSpace(w[k])
    requires rest == "" || IsSpace(rest[0])
    ensures WordEnd(w + rest) == |w|
  {
    if w == "" {
      assert w + rest == rest;
    } else {
      assert (w + rest)[1..] == w[1..] + rest;
      WordEndAt(w[1..], rest);
    }
  }

  lemma FieldsCons(w: string, rest: string)
    requires IsWord(w) && (rest == "" || IsSpace(rest[0]))
    ensures Fields(w + rest) == [w] + Fields(rest)
  {
    WordEndAt(w, rest);
    assert (w + rest)[..|w|] == w && (w + rest)[|w|..] == rest;
  }

  /** White space in front separates nothing. */
  lemma {:induction false} FieldsPadded(pad: string, s: string)
    requires Blank(pad)
    ensures Fields(pad + s) == Fields(s)
  {
    if pad == "" {
      assert pad + s == s;
    } else {
      assert (pad + s)[1..] == pad[1..] + s;
      FieldsPadded(pad[1..], s);
    }
  }

  lemma FieldsOfWord(w: string)
    requires IsWord(w)
    ensures Fields(w) == [w] && Fields(w + " ") == [w] && Fields(" " + w) == [w]
  {
    var none, space := "", " ";
    FieldsCons(w, none);
    assert w + none == w && Fields(none) == [];
    FieldsCons(w, space);
    assert space[1..] == none;
    assert (space + w)[1..] == w;
  }

  lemma FieldsOfTwo(v: string, w: string)
    requires IsWord(v) && IsWord(w)
    ensures Fields(v + " " + w) == [v, w]
  {
    var space := " ";
    FieldsOfWord(w);
    FieldsCons(v, space + w);
    assert v + (space + w) == v + " " + w;
    assert (space + w)[1..] == w;
  }

  /** Words with a blank between any two. */
  function Spaced(ws: seq<string>): string {
    if ws == [] then "" else if |ws| == 1 then ws[0] else ws[0] + (" " + Spaced(ws[1..]))
  }

  lemma {:induction false} FieldsOfWords(ws: seq<string>)
    requires forall i | 0 <= i < |ws| :: IsWord(ws[i])
    ensures Fields(Spaced(ws)) == ws
  {
    if |ws| == 1 {
      FieldsOfWord(ws[0]);
    } else if |ws| > 1 {
      var rest := " " + Spaced(ws[1..]);
      FieldsOfWords(ws[1..]);
      FieldsCons(ws[0], rest);
      assert rest[1..] == Spaced(ws[1..]);
    }
  }

  /** A line counts exactly when it has two words and the second is not "-", and then for the first word,
      with the class of the second. */
  lemma WordsCount(ws: seq<string>)
    requires forall i | 0 <= i < |ws| :: IsWord(ws[i])
    ensures Events([Spaced(ws)]) == if |ws| == 2 then Counted(ws[0], ws[1]) else []
  {
    FieldsOfWords(ws);
    EventsOfOne(Spaced(ws));
  }

  /** The events of a line, with and without its newline. */
  lemma EventsOfLine(line: string)
    requires '\n' !in line && |line| < MAX_TOKEN && line != "" && line[|line| - 1] != '\r'
    ensures Events(Lines(line)) == Events(Lines(line + "\n")) == Events([line])
    ensures Fits(line) && Fits(line + "\n")
  {
    var none := "";
    LinesCons(line, none);
    assert line + "\n" + none == line + "\n";
    assert Lines(none) == [] && [Stripped(line)] + [] == [line];
  }

  /** A line that says nothing. */
  predicate Silent(line: string) {
    Events(Lines(line)) == Events(Lines(line + "\n")) == [] && Fits(line) && Fits(line + "\n")
  }

  /** A line of one word says nothing. */
  lemma OneWordLine(w: string)
    requires IsWord(w) && |w| + 1 < MAX_TOKEN
    ensures Silent(w) && Silent(w + " ") && Silent(" " + w)
  {
    FieldsOfWord(w);
    EventsOfOne(w);
    EventsOfOne(w + " ");
    EventsOfOne(" " + w);
    EventsOfLine(w);
    EventsOfLine(w + " ");
    EventsOfLine(" " + w);
  }

  lemma TwoWordLine(v: string, w: string)
    requires IsWord(v) && IsWord(w) && |v| + |w| + 1 < MAX_TOKEN
    ensures Events(Lines(v + " " + w)) == Events(Lines(v + " " + w + "\n")) == Counted(v, w)
    ensures Fits(v + " " + w) && Fits(v + " " + w + "\n")
  {
    var line := v + " " + w;
    FieldsOfTwo(v, w);
    EventsOfOne(line);
    assert line[|line| - 1] == w[|w| - 1];
    EventsOfLine(line);
  }

  lemma NoEventsOfNewline()
    ensures Events(Lines("\n")) == Events(Lines("")) == [] && Fits("\n") && Fits("")
  {
    var none, n := "", "\n";
    LinesCons(none, none);
    assert none + "\n" + none == n;
    EventsOfOne(none);
  }

  /** What the first i characters of a request line count for, when the text ends there. */
  function FirstHalf(r: Request, i: nat): seq<Event> {
    var k := i - |r.domain| - 1;
    if k <= 0 then [] else Counted(r.domain, if k < |r.status| then r.status[..k] else r.status)
  }

  /** What the rest of it counts for, when a text starts there. */
  function SecondHalf(r: Request, i: nat): seq<Event> {
    if i < |r.domain| then Counted(r.domain[i..], r.status) else []
  }

  lemma PartIsWord(w: string, i: nat, j: nat)
    requires IsWord(w) && i < j <= |w|
    ensures IsWord(w[i..j])
  {
  }

  lemma FirstHalfCounts(r: Request, i: nat)
    requires IsRequest(r) && i <= |LineOf(r)|
    ensures Events(Lines(LineOf(r)[..i])) == FirstHalf(r, i) && Fits(LineOf(r)[..i])
  {
    var a, d, k := LineOf(r)[..i], r.domain, i - |r.domain| - 1;
    if i == 0 {
      NoEventsOfNewline();
    } else if i <= |d| {
      assert a == d[0..i];
      PartIsWord(d, 0, i);
      OneWordLine(a);
    } else if k == 0 {
      assert a == d + " ";
      OneWordLine(d);
    } else if k <= |r.status| {
      assert a == d + " " + r.status[0..k];
      PartIsWord(r.status, 0, k);
      TwoWordLine(d, r.status[0..k]);
      assert k == |r.status| ==> r.status[0..k] == r.status;
    } else {
      assert a == LineOf(r);
      TwoWordLine(d, r.status);
    }
  }

  lemma SecondHalfCounts(r: Request, i: nat)
    requires IsRequest(r) && i <= |LineOf(r)|
    ensures Events(Lines(LineOf(r)[i..])) == SecondHalf(r, i) && Fits(LineOf(r)[i..])
  {
    var b, d, k := LineOf(r)[i..], r.domain, i - |r.domain| - 1;
    if i < |d| {
      assert b == d[i..|d|] + " " + r.status + "\n" && d[i..|d|] == d[i..];
      PartIsWord(d, i, |d|);
      TwoWordLine(d[i..], r.status);
    } else if i == |d| {
      assert b == " " + r.status + "\n";
      OneWordLine(r.status);
    } else if k < |r.status| {
      assert b == r.status[k..|r.status|] + "\n";
      PartIsWord(r.status, k, |r.status|);
      OneWordLine(r.status[k..|r.status|]);
    } else {
      assert b == "\n" || b == "";
      NoEventsOfNewline();
    }
  }

  lemma LineEnds(r: Request, i: nat)
    requires i <= |LineOf(r)|
    ensures Terminated(LineOf(r)[i..])
  {
  }

  /** A cut at i changes nothing about the counts: it is at an end, or just before the newline, or the
      line does not count at all, or the part of the status before it is of the same class. */
  predicate Harmless(r: Request, i: nat) {
    var k := i - |r.domain| - 1;
    || i == 0 || k >= |r.status| || Upper(r.status) == "-"
    || (k > 0 && Upper(r.status[..k]) != "-" && ClassOf(Upper(r.status[..k])) == ClassOf(Upper(r.status)))
  }

  /** Every domain has the same counters from both. */
  ghost predicate SameCounts(es: seq<Event>, fs: seq<Event>) {
    forall x :: Summary(es, x) == Summary(fs, x)
  }

  lemma SummaryOfOne(e: Event, x: string)
    ensures Summary([e], x) == if e.domain == x then Bumped(ZERO, e.class_) else ZERO
  {
    assert [e][..0] == [];
  }

  lemma BumpsDiffer(c: Class, c': Class)
    ensures Bumped(ZERO, c) == Bumped(ZERO, c') <==> c == c'
    ensures Bumped(ZERO, c).total == 1 && ZERO.total == 0
  {
  }

  lemma OneCounts(e: Event)
    ensures !SameCounts([e], []) && !SameCounts([], [e])
  {
    SummaryOfOne(e, e.domain);
    BumpsDiffer(e.class_, e.class_);
    assert Summary([e], e.domain).total == 1 && Summary([], e.domain).total == 0;
  }

  lemma TwoEventsDiffer(e: Event, f: Event)
    ensures SameCounts([e], [f]) <==> e == f
  {
    if SameCounts([e], [f]) {
      assert Summary([e], e.domain) == Summary([f], e.domain);
      SummaryOfOne(e, e.domain);
      SummaryOfOne(f, e.domain);
      BumpsDiffer(e.class_, f.class_);
    }
  }

  /** At most one event each: the counts agree exactly when the events do. */
  lemma OneEventEach(es: seq<Event>, fs: seq<Event>)
    requires |es| <= 1 && |fs| <= 1
    ensures SameCounts(es, fs) <==> es == fs
  {
    if es != [] && fs != [] {
      TwoEventsDiffer(es[0], fs[0]);
      assert es == [es[0]] && fs == [fs[0]];
    } else if es != [] {
      OneCounts(es[0]);
      assert es == [es[0]];
    } else if fs != [] {
      OneCounts(fs[0]);
      assert fs == [fs[0]];
    }
  }

  lemma HalvesCountExactly(r: Request, i: nat)
    requires IsRequest(r) && i <= |LineOf(r)|
    ensures SameCounts(FirstHalf(r, i) + SecondHalf(r, i), EventsOf(r)) <==> Harmless(r, i)
  {
    var d, both := r.domain, FirstHalf(r, i) + SecondHalf(r, i);
    OneEventEach(both, EventsOf(r));
    if i == 0 {
      assert d[0..] == d && both == SecondHalf(r, i);
    } else if i < |d| {
      assert |d[i..]| != |d| && both == SecondHalf(r, i);
    } else {
      assert both == FirstHalf(r, i);
    }
  }

  // ------------------------------------------------------------------------------ whole logs

  lemma PlusCancels(a: Stat, b: Stat, c: Stat, d: Stat, e: Stat)
    ensures Plus(Plus(a, b), Plus(c, d)) == Plus(Plus(a, e), d) <==> Plus(b, c) == e
  {
  }

  /** A request line anywhere in a log, cut anywhere: what either part counts for. */
  lemma PartsOfLog(before: string, r: Request, i: nat, after: string)
    requires Terminated(before) && Fits(before) && Fits(after) && IsRequest(r) && i <= |LineOf(r)|
    ensures Events(Lines(before + LineOf(r)[..i])) == Events(Lines(before)) + FirstHalf(r, i)
    ensures Events(Lines(LineOf(r)[i..] + after)) == SecondHalf(r, i) + Events(Lines(after))
    ensures Fits(before + LineOf(r)[..i]) && Fits(LineOf(r)[i..] + after)
  {
    FirstHalfCounts(r, i);
    SecondHalfCounts(r, i);
    LineEnds(r, i);
    LinesConcat(before, LineOf(r)[..i]);
    LinesConcat(LineOf(r)[i..], after);
    EventsConcat(Lines(before), Lines(LineOf(r)[..i]));
    EventsConcat(Lines(LineOf(r)[i..]), Lines(after));
  }

  lemma WholeLog(before: string, r: Request, after: string)
    requires Terminated(before) && Fits(before) && Fits(after) && IsRequest(r)
    ensures Events(Lines(before + LineOf(r) + after)) == Events(Lines(before)) + EventsOf(r) + Events(Lines(after))
  {
    var n, line := |LineOf(r)|, LineOf(r);
    FirstHalfCounts(r, n);
    assert line[..n] == line;
    LinesConcat(before, line);
    EventsConcat(Lines(before), Lines(line));
    LinesConcat(before + line, after);
    EventsConcat(Lines(before + line), Lines(after));
  }

  lemma MiddleDecidesAt(b: seq<Event>, h: seq<Event>, t: seq<Event>, a: seq<Event>, m: seq<Event>, x: string)
    ensures Summary((b + h) + (t + a), x) == Summary(b + m + a, x) <==> Summary(h + t, x) == Summary(m, x)
  {
    SummaryConcat(b + h, t + a, x);
    SummaryConcat(b, h, x);
    SummaryConcat(t, a, x);
    SummaryConcat(b + m, a, x);
    SummaryConcat(b, m, x);
    SummaryConcat(h, t, x);
    PlusCancels(Summary(b, x), Summary(h, x), Summary(t, x), Summary(a, x), Summary(m, x));
  }

  lemma MiddleDecides(b: seq<Event>, h: seq<Event>, t: seq<Event>, a: seq<Event>, m: seq<Event>)
    ensures SameCounts((b + h) + (t + a), b + m + a) <==> SameCounts(h + t, m)
  {
    forall x ensures Summary((b + h) + (t + a), x) == Summary(b + m + a, x) <==> Summary(h + t, x) == Summary(m, x) {
      MiddleDecidesAt(b, h, t, a, m, x);
    }
  }

  /** Reading a text in two parts gives the counts of the whole. */
  ghost predicate CountsKept(a: string, b: string) {
    SameCounts(Events(Lines(a)) + Events(Lines(b)), Events(Lines(a + b)))
  }

  lemma Rejoined(before: string, line: string, i: nat, after: string)
    requires i <= |line|
    ensures (before + line[..i]) + (line[i..] + after) == before + line + after
  {
    assert line == line[..i] + line[i..];
  }

  /** A log cut inside any of its request lines keeps its counts exactly when the cut is harmless. */
  lemma CutKeepsCountsExactly(before: string, r: Request, i: nat, after: string)
    requires Terminated(before) && Fits(before) && Fits(after) && IsRequest(r) && i <= |LineOf(r)|
    ensures CountsKept(before + LineOf(r)[..i], LineOf(r)[i..] + after) <==> Harmless(r, i)
  {
    PartsOfLog(before, r, i, after);
    WholeLog(before, r, after);
    Rejoined(before, LineOf(r), i, after);
    MiddleDecides(Events(Lines(before)), FirstHalf(r, i), SecondHalf(r, i), Events(Lines(after)), EventsOf(r));
    HalvesCountExactly(r, i);
  }

  function LogOf(rs: seq<Request>): string {
    if rs == [] then "" else LineOf(rs[0]) + LogOf(rs[1..])
  }

  lemma PastLine(line: string, rest: string, m: nat, head: string, part: string)
    requires m <= |rest| && rest[..m] == head + part
    ensures (line + rest)[..|line| + m] == (line + head) + part && (line + rest)[|line| + m..] == rest[m..]
  {
    assert (line + rest)[..|line| + m] == line + rest[..m];
  }

  lemma InLine(line: string, rest: string, n: nat)
    requires n <= |line|
    ensures (line + rest)[..n] == "" + line[..n] && (line + rest)[n..] == line[n..] + rest
  {
  }

  lemma LogTake(rs: seq<Request>, k: nat)
    requires 0 < k <= |rs|
    ensures LogOf(rs[..k]) == LineOf(rs[0]) + LogOf(rs[1..][..k - 1]) && rs[k..] == rs[1..][k - 1..]
  {
    assert rs[..k][1..] == rs[1..][..k - 1];
  }

  /** Every position in a log of request lines is a position in one of them. */
  lemma {:induction false} CutIsInALine(rs: seq<Request>, n: nat) returns (k: nat, i: nat)
    requires rs != [] && n <= |LogOf(rs)|
    ensures k < |rs| && i <= |LineOf(rs[k])|
    ensures LogOf(rs)[..n] == LogOf(rs[..k]) + LineOf(rs[k])[..i]
    ensures LogOf(rs)[n..] == LineOf(rs[k])[i..] + LogOf(rs[k + 1..])
    decreases |rs|
  {
    var line, rest := LineOf(rs[0]), LogOf(rs[1..]);
    if n <= |line| || |rs| == 1 {
      k, i := 0, n;
      InLine(line, rest, n);
    } else {
      var j;
      j, i := CutIsInALine(rs[1..], n - |line|);
      PastLine(line, rest, n - |line|, LogOf(rs[1..][..j]), LineOf(rs[1..][j])[..i]);
      k := j + 1;
      LogTake(rs, k);
      assert rs[1..][j] == rs[k] && rs[1..][j + 1..] == rs[k + 1..];
    }
  }

  lemma {:induction false} LogFits(rs: seq<Request>)
    requires forall k | 0 <= k < |rs| :: IsRequest(rs[k])
    ensures Terminated(LogOf(rs)) && Fits(LogOf(rs))
  {
    if rs == [] {
      NoEventsOfNewline();
    } else {
      var n := |LineOf(rs[0])|;
      LogFits(rs[1..]);
      FirstHalfCounts(rs[0], n);
      assert LineOf(rs[0])[..n] == LineOf(rs[0]);
      LinesConcat(LineOf(rs[0]), LogOf(rs[1..]));
      assert rs[1..] != [] ==> LogOf(rs[1..])[|LogOf(rs[1..])| - 1] == '\n';
    }
  }

  /** A log of requests, cut anywhere at all: the cut is at i in line k, and keeps the counts exactly when
      it is harmless there. */
  lemma AnyCutKeepsCountsExactly(rs: seq<Request>, n: nat) returns (k: nat, i: nat)
    requires rs != [] && (forall k | 0 <= k < |rs| :: IsRequest(rs[k])) && n <= |LogOf(rs)|
    ensures k < |rs| && n == |LogOf(rs[..k])| + i && i <= |LineOf(rs[k])|
    ensures CountsKept(LogOf(rs)[..n], LogOf(rs)[n..]) <==> Harmless(rs[k], i)
  {
    k, i := CutIsInALine(rs, n);
    LogFits(rs[..k]);
    LogFits(rs[k + 1..]);
    CutKeepsCountsExactly(LogOf(rs[..k]), rs[k], i, LogOf(rs[k + 1..]));
  }

  lemma ReportsAdd(first: map<string, Stat>, second: map<string, Stat>, es: seq<Event>, fs: seq<Event>, x: string)
    requires Counts(first, es) && Counts(second, fs)
    ensures Plus(At(first, x), At(second, x)) == Summary(es + fs, x)
  {
    SummaryConcat(es, fs, x);
  }

  /** So do the reports of two runs, one of which reads the log up to the cut and the other what follows. */
  lemma ReportsAddUpExactly(a: string, b: string, first: map<string, Stat>, second: map<string, Stat>)
    requires Counts(first, Events(Lines(a))) && Counts(second, Events(Lines(b)))
    ensures (forall x :: Plus(At(first, x), At(second, x)) == Summary(Events(Lines(a + b)), x)) <==> CountsKept(a, b)
  {
    var es, fs, whole := Events(Lines(a)), Events(Lines(b)), Events(Lines(a + b));
    forall x ensures Plus(At(first, x), At(second, x)) == Summary(es + fs, x) {
      ReportsAdd(first, second, es, fs, x);
    }
  }

  // ------------------------------------------------------------------------------ an unnoticed rotation

  lemma EndCancels(a: seq<Event>, es: seq<Event>, fs: seq<Event>)
    ensures SameCounts(es + a, fs + a) <==> SameCounts(es, fs)
  {
    forall x ensures Summary(es + a, x) == Summary(fs + a, x) <==> Summary(es, x) == Summary(fs, x) {
      SummaryConcat(es, a, x);
      SummaryConcat(fs, a, x);
      PlusCancelsRight(Summary(es, x), Summary(fs, x), Summary(a, x));
    }
  }

  lemma PlusCancelsRight(a: Stat, b: Stat, c: Stat)
    ensures Plus(a, c) == Plus(b, c) <==> a == b
  {
  }

  lemma NothingSkipped(es: seq<Event>)
    ensures SameCounts([], es) <==> es == []
  {
    if es != [] {
      HasARequest(es);
      var x :| Summary(es, x).total > 0;
      assert Summary([], x).total == 0;
    }
  }

  lemma CountsTwice(b: seq<Event>, m: seq<Event>)
    ensures SameCounts(m, b + m) <==> b == []
  {
    EndCancels(m, [], b);
    assert [] + m == m;
    NothingSkipped(b);
  }

  lemma OtherDomain(r: Request, i: nat, b: seq<Event>)
    requires 0 < i < |r.domain| && Upper(r.status) != "-"
    ensures !SameCounts(SecondHalf(r, i), b + EventsOf(r))
  {
    var c, x := ClassOf(Upper(r.status)), r.domain;
    assert |r.domain[i..]| != |x|;
    SummaryOfOne(Event(r.domain[i..], c), x);
    SummarySnoc(b, Event(x, c), x);
    assert Summary(b + EventsOf(r), x).total > 0 && Summary(SecondHalf(r, i), x).total == 0;
  }

  lemma SkippedCountsExactly(b: seq<Event>, r: Request, i: nat)
    requires r.domain != ""
    ensures SameCounts(SecondHalf(r, i), b + EventsOf(r)) <==> b == [] && (i == 0 || Upper(r.status) == "-")
  {
    var m := EventsOf(r);
    if i == 0 {
      assert r.domain[0..] == r.domain;
      CountsTwice(b, m);
    } else if i < |r.domain| && m != [] {
      OtherDomain(r, i, b);
    } else {
      NothingSkipped(b + m);
    }
  }

  /** A run that takes a new file of requests for the old one, since it is not smaller, starts somewhere in
      a line of it. It counts the whole file exactly when no request begins before that place. */
  lemma UnnoticedRotationLosesExactly(before: string, r: Request, i: nat, after: string)
    requires Terminated(before) && Fits(before) && Fits(after) && IsRequest(r) && i <= |LineOf(r)|
    ensures SameCounts(Events(Lines(LineOf(r)[i..] + after)), Events(Lines(before + LineOf(r) + after)))
            <==> Events(Lines(before)) == [] && (i == 0 || Upper(r.status) == "-")
  {
    PartsOfLog(before, r, i, after);
    WholeLog(before, r, after);
    EndCancels(Events(Lines(after)), SecondHalf(r, i), Events(Lines(before)) + EventsOf(r));
    SkippedCountsExactly(Events(Lines(before)), r, i);
  }
}
