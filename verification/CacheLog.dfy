/** The cache log collector: it reads what was appended to the log since its last run, counts requests by
    domain and cache status, and pushes the counts. */
module CacheLog {
  import opened FileSystem
  import opened Text
  import opened LineScanner

  datatype Class = Hit | Miss | Bypass | Expired | Stale | Other

  datatype Stat = Stat(hits: nat, misses: nat, bypasses: nat, expired: nat, stale: nat, total: nat)

  const ZERO := Stat(0, 0, 0, 0, 0, 0)

  function Plus(x: Stat, y: Stat): Stat {
    Stat(x.hits + y.hits, x.misses + y.misses, x.bypasses + y.bypasses, x.expired + y.expired,
         x.stale + y.stale, x.total + y.total)
  }

  /** How many of the first characters are not white space. */
  function WordEnd(s: string): (i: nat)
    ensures i <= |s| && forall k | 0 <= k < i :: !IsSpace(s[k])
  {
    if s == "" || IsSpace(s[0]) then 0 else WordEnd(s[1..]) + 1
  }

  /** strings.Fields. */
  function Fields(s: string): seq<string>
    decreases |s|
  {
    if s == "" then []
    else if IsSpace(s[0]) then Fields(s[1..])
    else [s[..WordEnd(s)]] + Fields(s[WordEnd(s)..])
  }

  /** unicode.ToUpper, so far as it yields an ASCII letter. */
  function UpperChar(c: char): char {
    if 'a' <= c <= 'z' then c - 'a' + 'A'
    else if c == '\U{131}' then 'I'
    else if c == '\U{17F}' then 'S'
    else c
  }

  function Upper(s: string): (u: string)
    ensures |u| == |s|
  {
    seq(|s|, i requires 0 <= i < |s| => UpperChar(s[i]))
  }

  function ClassOf(status: string): Class {
    if status == "HIT" then Hit
    else if status == "MISS" then Miss
    else if status == "BYPASS" then Bypass
    else if status == "EXPIRED" then Expired
    else if status == "STALE" || status == "UPDATING" then Stale
    else Other
  }

  /** The same letters, in upper or lower case. */
  predicate SameLetters(s: string, word: string) {
    |s| == |word| && forall i | 0 <= i < |word| :: s[i] == word[i] || s[i] as int == word[i] as int + 32
  }

  lemma UpperIs(s: string, word: string)
    requires (forall i | 0 <= i < |s| :: s[i] as int < 128) && forall i | 0 <= i < |word| :: 'A' <= word[i] <= 'Z'
    ensures Upper(s) == word <==> SameLetters(s, word)
  {
    if Upper(s) == word {
      forall i | 0 <= i < |s| ensures s[i] == word[i] || s[i] as int == word[i] as int + 32 {
        assert word[i] == UpperChar(s[i]);
      }
    }
    if SameLetters(s, word) {
      forall i | 0 <= i < |s| ensures UpperChar(s[i]) == word[i] {
      }
    }
  }

  /** Which ASCII status counts as what. */
  lemma StatusClasses(status: string)
    requires forall i | 0 <= i < |status| :: status[i] as int < 128
    ensures ClassOf(Upper(status)) == Hit <==> SameLetters(status, "HIT")
    ensures ClassOf(Upper(status)) == Miss <==> SameLetters(status, "MISS")
    ensures ClassOf(Upper(status)) == Bypass <==> SameLetters(status, "BYPASS")
    ensures ClassOf(Upper(status)) == Expired <==> SameLetters(status, "EXPIRED")
    ensures ClassOf(Upper(status)) == Stale <==> SameLetters(status, "STALE") || SameLetters(status, "UPDATING")
  {
    UpperIs(status, "HIT");
    UpperIs(status, "MISS");
    UpperIs(status, "BYPASS");
    UpperIs(status, "EXPIRED");
    UpperIs(status, "STALE");
    UpperIs(status, "UPDATING");
  }

  datatype Event = Event(domain: string, class_: Class)

  /** What one log line says, if it says anything. */
  function Parsed(line: string): Option<Event> {
    var parts := Fields(line);
    if |parts| != 2 then None
    else
      var domain, status := parts[0], Upper(parts[1]);
      if domain == "" || status == "" || status == "-" then None else Some(Event(domain, ClassOf(status)))
  }

  function Events(lines: seq<string>): seq<Event> {
    if lines == [] then []
    else
      var e := Parsed(lines[|lines| - 1]);
      Events(lines[..|lines| - 1]) + (if e.Some? then [e.value] else [])
  }

  lemma {:induction false} EventsConcat(a: seq<string>, b: seq<string>)
    ensures Events(a + b) == Events(a) + Events(b)
  {
    if b == [] {
      assert a + b == a;
    } else {
      assert (a + b)[..|a + b| - 1] == a + b[..|b| - 1];
      EventsConcat(a, b[..|b| - 1]);
    }
  }

  lemma EventsOfOne(line: string)
    ensures Events([line]) == if Parsed(line).Some? then [Parsed(line).value] else []
  {
    assert [line][..0] == [];
  }

  /** How many of these are requests of one class for domain d. */
  function Count(events: seq<Event>, d: string, c: Class): nat {
    if events == [] then 0
    else Count(events[..|events| - 1], d, c) + if events[|events| - 1] == Event(d, c) then 1 else 0
  }

  /** One more request of a class. */
  function Bumped(s: Stat, c: Class): Stat {
    var t := s.(total := s.total + 1);
    match c
    case Hit => t.(hits := s.hits + 1)
    case Miss => t.(misses := s.misses + 1)
    case Bypass => t.(bypasses := s.bypasses + 1)
    case Expired => t.(expired := s.expired + 1)
    case Stale => t.(stale := s.stale + 1)
    case Other => t
  }

  /** One pass over some requests, for one domain. */
  function Summary(events: seq<Event>, d: string): Stat {
    if events == [] then ZERO
    else
      var e, s := events[|events| - 1], Summary(events[..|events| - 1], d);
      if e.domain == d then Bumped(s, e.class_) else s
  }

  /** Each counter is the number of requests of its class, and the total is the sum of the five classes
      and the requests with any other status. */
  lemma {:induction false} SummaryCounts(events: seq<Event>, d: string)
    ensures var s := Summary(events, d);
            && s.hits == Count(events, d, Hit) && s.misses == Count(events, d, Miss)
               && s.bypasses == Count(events, d, Bypass)
            && s.expired == Count(events, d, Expired) && s.stale == Count(events, d, Stale)
            && s.total == s.hits + s.misses + s.bypasses + s.expired + s.stale + Count(events, d, Other)
  {
    if events != [] {
      SummaryCounts(events[..|events| - 1], d);
    }
  }

  lemma SummarySnoc(events: seq<Event>, e: Event, d: string)
    ensures Summary(events + [e], d) ==
            if e.domain == d then Bumped(Summary(events, d), e.class_) else Summary(events, d)
  {
    assert (events + [e])[..|events|] == events;
  }

  lemma PlusZero(x: Stat)
    ensures Plus(x, ZERO) == x
  {
  }

  lemma PlusBumped(x: Stat, y: Stat, c: Class)
    ensures Plus(x, Bumped(y, c)) == Bumped(Plus(x, y), c)
  {
  }

  lemma {:induction false} SummaryConcat(a: seq<Event>, b: seq<Event>, d: string)
    ensures Summary(a + b, d) == Plus(Summary(a, d), Summary(b, d))
    decreases |b|
  {
    if b == [] {
      assert a + b == a && Summary(b, d) == ZERO;
      PlusZero(Summary(a, d));
    } else {
      var init, e := b[..|b| - 1], b[|b| - 1];
      SummaryConcat(a, init, d);
      SummarySnoc(a + init, e, d);
      SummarySnoc(init, e, d);
      PlusBumped(Summary(a, d), Summary(init, d), e.class_);
      assert b == init + [e] && a + b == a + init + [e];
    }
  }

  /** The two emptiness checks on a parsed line never fire: fields are never empty. */
  lemma {:induction false} FieldsAreWords(s: string)
    ensures forall f <- Fields(s) :: f != "" && forall k | 0 <= k < |f| :: !IsSpace(f[k])
    decreases |s|
  {
    if s != "" {
      if IsSpace(s[0]) {
        FieldsAreWords(s[1..]);
      } else {
        FieldsAreWords(s[WordEnd(s)..]);
      }
    }
  }

  // ------------------------------------------------------------------------------ the counters

  function At(stats: map<string, Stat>, d: string): Stat {
    if d in stats then stats[d] else ZERO
  }

  ghost predicate Counts(stats: map<string, Stat>, events: seq<Event>) {
    forall d :: At(stats, d) == Summary(events, d) && (d in stats ==> stats[d].total > 0)
  }

  lemma CountsSnoc(stats: map<string, Stat>, events: seq<Event>, e: Event)
    requires Counts(stats, events)
    ensures Counts(stats[e.domain := Bumped(At(stats, e.domain), e.class_)], events + [e])
  {
    forall d ensures Summary(events + [e], d) ==
            if e.domain == d then Bumped(Summary(events, d), e.class_) else Summary(events, d) {
      SummarySnoc(events, e, d);
    }
  }

  method Bump(s: Stat, status: string) returns (ds: Stat)
    ensures ds == Bumped(s, ClassOf(status))
  {
    ds := s.(total := s.total + 1);
    if status == "HIT" {
      ds := ds.(hits := ds.hits + 1);
    } else if status == "MISS" {
      ds := ds.(misses := ds.misses + 1);
    } else if status == "BYPASS" {
      ds := ds.(bypasses := ds.bypasses + 1);
    } else if status == "EXPIRED" {
      ds := ds.(expired := ds.expired + 1);
    } else if status == "STALE" || status == "UPDATING" {
      ds := ds.(stale := ds.stale + 1);
    }
  }

  /** One turn of the counting loop. */
  method CountLine(stats: map<string, Stat>, line: string, ghost events: seq<Event>) returns (stats': map<string, Stat>)
    requires Counts(stats, events)
    ensures Counts(stats', events + Events([line]))
  {
    EventsOfOne(line);
    assert events + [] == events;
    var parts := Fields(line);
    if |parts| != 2 {
      return stats;
    }
    var domain, status := parts[0], Upper(parts[1]);
    if domain == "" || status == "" || status == "-" {
      return stats;
    }
    var ds := Bump(At(stats, domain), status);
    CountsSnoc(stats, events, Event(domain, ClassOf(status)));
    return stats[domain := ds];
  }

  /** The scan loop: everything is counted, unless some line is too long. */
  method CountText(text: string) returns (ok: bool, stats: map<string, Stat>)
    ensures ok <==> Fits(text)
    ensures ok ==> Counts(stats, Events(Lines(text)))
  {
    stats := map[];
    var scanner := new Scanner(text);
    var more, line := scanner.Scan();
    ghost var done: seq<string> := [];
    while more
      invariant more ==> scanner.Valid() && scanner.lines == done + [line]
      invariant !more ==> scanner.lines == done == Lines(text) && (scanner.failed <==> !Fits(text))
      invariant Counts(stats, Events(done)) && scanner.all == text
      decreases more, |scanner.rest|
    {
      EventsConcat(done, [line]);
      stats := CountLine(stats, line, Events(done));
      done := done + [line];
      more, line := scanner.Scan();
    }
    ok := !scanner.failed;
  }

  // ------------------------------------------------------------------------------ the collector

  /** The log file as one run meets it: its size when the run looks, and its content when the run has
      read to the end, by when it may have grown. */
  datatype Snapshot = Snapshot(size: nat, content: string)

  class Collector {
    var offset: nat

    constructor ()
      ensures offset == 0
    {
      offset := 0;
    }

    /** One run. A file that has shrunk is read from its start. The new lines are counted and the offset
        moves to the end of what was read, whether or not the push then succeeds; a line that is too long
        discards the run's counts and leaves the offset where it was. */
    method Collect(file: Option<Snapshot>, pushOk: bool) returns (err: bool, report: map<string, Stat>, pushed: bool)
      requires file.Some? ==> file.value.size <= |file.value.content|
      modifies this
      ensures file.None? ==> !err && !pushed && report == map[] && offset == old(offset)
      ensures file.Some? ==>
                var from := if file.value.size < old(offset) then 0 else old(offset);
                var unread := file.value.content[from..];
                if Fits(unread) then
                  && offset == |file.value.content|
                  && Counts(report, Events(Lines(unread)))
                  && (pushed <==> pushOk && report != map[])
                  && (err <==> !pushOk && report != map[])
                else err && !pushed && report == map[] && offset == from
    {
      if file.None? {
        return false, map[], false;
      }
      if file.value.size < offset {
        offset := 0;
      }
      var ok, stats := CountText(file.value.content[offset..]);
      if !ok {
        return true, map[], false;
      }
      offset := |file.value.content|;
      if stats == map[] {
        return false, stats, false;
      }
      return !pushOk, stats, pushOk;
    }
  }

  // ------------------------------------------------------------------------------ whole runs

  function Merge(reports: seq<map<string, Stat>>, d: string): Stat {
    if reports == [] then ZERO
    else Plus(Merge(reports[..|reports| - 1], d), At(reports[|reports| - 1], d))
  }

  lemma MergeSnoc(reports: seq<map<string, Stat>>, m: map<string, Stat>, d: string)
    ensures Merge(reports + [m], d) == Plus(Merge(reports, d), At(m, d))
  {
    assert (reports + [m])[..|reports|] == reports;
  }

  /** The reports, merged, are one pass over these requests. */
  ghost predicate Merged(reports: seq<map<string, Stat>>, events: seq<Event>) {
    forall d :: Merge(reports, d) == Summary(events, d)
  }

  lemma MergedMore(reports: seq<map<string, Stat>>, m: map<string, Stat>, es: seq<Event>, fs: seq<Event>)
    requires Merged(reports, es) && Counts(m, fs)
    ensures Merged(reports + [m], es + fs)
  {
    forall d ensures Merge(reports + [m], d) == Summary(es + fs, d) {
      MergeSnoc(reports, m, d);
      SummaryConcat(es, fs, d);
    }
  }

  lemma MergedOn(reports: seq<map<string, Stat>>, m: map<string, Stat>, past: seq<Event>, es: seq<Event>,
      fs: seq<Event>)
    requires Merged(reports, past + es) && Counts(m, fs)
    ensures Merged(reports + [m], past + (es + fs))
  {
    MergedMore(reports, m, past + es, fs);
    assert past + es + fs == past + (es + fs);
  }

  lemma MergedNothing(reports: seq<map<string, Stat>>, es: seq<Event>)
    requires Merged(reports, es)
    ensures Merged(reports + [map[]], es)
  {
    forall d ensures Merge(reports + [map[]], d) == Summary(es, d) {
      MergeSnoc(reports, map[], d);
      PlusZero(Merge(reports, d));
    }
  }

  /** The reports so far, merged, are one pass over what was read: the requests of files that have been
      rotated away, and the log up to the offset. */
  ghost predicate CoversPrefix(reports: seq<map<string, Stat>>, past: seq<Event>, log: string, offset: nat) {
    && offset <= |log|
    && Terminated(log[..offset])
    && Fits(log[..offset])
    && Merged(reports, past + Events(Lines(log[..offset])))
  }

  lemma ReadOn(before: string, log: string, offset: nat)
    requires offset <= |before| && before <= log && Terminated(before[..offset]) && Fits(before[..offset])
    ensures before[..offset] == log[..offset]
    ensures Fits(log[offset..]) <==> Fits(log)
    ensures offset == |log| ==> Fits(log)
    ensures Fits(log) ==> Events(Lines(log)) == Events(Lines(log[..offset])) + Events(Lines(log[offset..]))
  {
    assert log == log[..offset] + log[offset..];
    LinesConcat(log[..offset], log[offset..]);
    if Fits(log) {
      EventsConcat(Lines(log[..offset]), Lines(log[offset..]));
    }
    assert offset == |log| ==> log[..offset] == log;
  }

  /** A run that reads a log to its end. */
  lemma CoversMore(reports: seq<map<string, Stat>>, past: seq<Event>, log: string, offset: nat, m: map<string, Stat>)
    requires offset <= |log| && Merged(reports, past + Events(Lines(log[..offset])))
    requires Terminated(log) && Fits(log) && Counts(m, Events(Lines(log[offset..])))
    requires Events(Lines(log)) == Events(Lines(log[..offset])) + Events(Lines(log[offset..]))
    ensures CoversPrefix(reports + [m], past, log, |log|)
  {
    assert log[..|log|] == log;
    MergedOn(reports, m, past, Events(Lines(log[..offset])), Events(Lines(log[offset..])));
  }

  /** A run that is stopped by a line that is too long. */
  lemma CoversNoMore(reports: seq<map<string, Stat>>, past: seq<Event>, before: string, log: string, offset: nat)
    requires CoversPrefix(reports, past, before, offset) && before <= log && before[..offset] == log[..offset]
    ensures CoversPrefix(reports + [map[]], past, log, offset)
  {
    MergedNothing(reports, past + Events(Lines(log[..offset])));
  }

  /** What a run meets: the log's size when it looks, its content when it has read to the end, and whether
      it is a new file since the run before. */
  datatype Visit = Visit(size: nat, log: string, rotated: bool)

  function LastLog(runs: seq<Visit>): string {
    if runs == [] then "" else runs[|runs| - 1].log
  }

  /** The requests read from files that are gone, and how far the present one has been read. */
  datatype Progress = Progress(past: seq<Event>, offset: nat)

  function Upto(log: string, offset: nat): string {
    if offset <= |log| then log[..offset] else log
  }

  function Restarted(p: Progress, log: string): Progress {
    Progress(p.past + Events(Lines(Upto(log, p.offset))), 0)
  }

  /** How far the runs get when every rotation is noticed. A log with a line that is too long is not read
      on. */
  function Reached(runs: seq<Visit>): Progress {
    if runs == [] then Progress([], 0)
    else
      var init, r := runs[..|runs| - 1], runs[|runs| - 1];
      var p := if r.rotated then Restarted(Reached(init), LastLog(init)) else Reached(init);
      if Fits(r.log) then p.(offset := |r.log|) else p
  }

  /** A log that ends after a newline whenever a run reads it. It is only ever appended to or else replaced
      by a file that is smaller than what was read of the old one. */
  ghost predicate Followed(runs: seq<Visit>) {
    forall i | 0 <= i < |runs| ::
      && Terminated(runs[i].log) && runs[i].size <= |runs[i].log|
      && if runs[i].rotated then runs[i].size < Reached(runs[..i]).offset || Reached(runs[..i]).offset == 0
         else LastLog(runs[..i]) <= runs[i].log && |LastLog(runs[..i])| <= runs[i].size
  }

  /** No domain is reported without a request. */
  ghost predicate AllCount(reports: seq<map<string, Stat>>) {
    forall i, d | 0 <= i < |reports| && d in reports[i] :: reports[i][d].total > 0
  }

  /** Which reports were pushed: those that are not empty and whose push worked. */
  ghost predicate Pushed(reports: seq<map<string, Stat>>, sent: seq<bool>, pushOk: seq<bool>) {
    && |reports| == |sent| <= |pushOk| && AllCount(reports)
    && forall i | 0 <= i < |sent| :: sent[i] <==> pushOk[i] && reports[i] != map[]
  }

  lemma PushedSnoc(reports: seq<map<string, Stat>>, sent: seq<bool>, pushOk: seq<bool>, m: map<string, Stat>)
    requires Pushed(reports, sent, pushOk) && |reports| < |pushOk| && forall d | d in m :: m[d].total > 0
    ensures Pushed(reports + [m], sent + [pushOk[|reports|] && m != map[]], pushOk)
  {
  }

  /** What is so after some runs: their reports, merged, are one pass over what was read, which is all of
      the present log exactly when no line in it is too long; and sent says which of them were pushed. */
  ghost predicate Collected(reports: seq<map<string, Stat>>, sent: seq<bool>, pushOk: seq<bool>, past: seq<Event>,
                            log: string, offset: nat) {
    Pushed(reports, sent, pushOk) && CoversPrefix(reports, past, log, offset) && (offset == |log| <==> Fits(log))
  }

  lemma CollectedMore(reports: seq<map<string, Stat>>, sent: seq<bool>, pushOk: seq<bool>, past: seq<Event>,
                      before: string, offset: nat, log: string, report: map<string, Stat>)
    requires Collected(reports, sent, pushOk, past, before, offset) && |reports| < |pushOk|
    requires before <= log && Terminated(log) && Fits(log) && Counts(report, Events(Lines(log[offset..])))
    ensures Collected(reports + [report], sent + [pushOk[|reports|] && report != map[]], pushOk, past, log, |log|)
  {
    ReadOn(before, log, offset);
    CoversMore(reports, past, log, offset, report);
    PushedSnoc(reports, sent, pushOk, report);
  }

  lemma CollectedNothing(reports: seq<map<string, Stat>>, sent: seq<bool>, pushOk: seq<bool>, past: seq<Event>,
                         before: string, offset: nat, log: string)
    requires Collected(reports, sent, pushOk, past, before, offset) && |reports| < |pushOk|
    requires before <= log && !Fits(log)
    ensures Collected(reports + [map[]], sent + [false], pushOk, past, log, offset)
  {
    ReadOn(before, log, offset);
    CoversNoMore(reports, past, before, log, offset);
    PushedSnoc(reports, sent, pushOk, map[]);
  }

  lemma CollectedNext(reports: seq<map<string, Stat>>, sent: seq<bool>, pushOk: seq<bool>, past: seq<Event>,
                      before: string, offset: nat, log: string, offset': nat, report: map<string, Stat>)
    requires Collected(reports, sent, pushOk, past, before, offset) && |reports| < |pushOk|
    requires before <= log && Terminated(log)
    requires if Fits(log[offset..]) then offset' == |log| && Counts(report, Events(Lines(log[offset..])))
             else offset' == offset && report == map[]
    ensures Collected(reports + [report], sent + [pushOk[|reports|] && report != map[]], pushOk, past, log, offset')
    ensures offset' == if Fits(log) then |log| else offset
  {
    ReadOn(before, log, offset);
    if Fits(log) {
      CollectedMore(reports, sent, pushOk, past, before, offset, log, report);
    } else {
      CollectedNothing(reports, sent, pushOk, past, before, offset, log);
    }
  }

  /** A rotation puts what was read into the past. */
  lemma CollectedRotated(reports: seq<map<string, Stat>>, sent: seq<bool>, pushOk: seq<bool>, p: Progress, log: string)
    requires Collected(reports, sent, pushOk, p.past, log, p.offset)
    ensures Collected(reports, sent, pushOk, Restarted(p, log).past, "", 0)
  {
    var none, read := "", Events(Lines(log[..p.offset]));
    assert none[..0] == none && p.past + read + [] == p.past + read;
  }

  lemma ReachedNext(runs: seq<Visit>, i: nat)
    requires i < |runs|
    ensures LastLog(runs[..i + 1]) == runs[i].log
    ensures var p := if runs[i].rotated then Restarted(Reached(runs[..i]), LastLog(runs[..i])) else Reached(runs[..i]);
            Reached(runs[..i + 1]) == if Fits(runs[i].log) then p.(offset := |runs[i].log|) else p
  {
    assert runs[..i + 1][..i] == runs[..i];
  }

  /** One run more, whether or not the log has been rotated since the last. */
  lemma CollectedRun(reports: seq<map<string, Stat>>, sent: seq<bool>, pushOk: seq<bool>, runs: seq<Visit>,
                     report: map<string, Stat>, offset': nat)
    requires Followed(runs) && |reports| < |runs| == |pushOk|
    requires var p := Reached(runs[..|reports|]);
             Collected(reports, sent, pushOk, p.past, LastLog(runs[..|reports|]), p.offset)
    requires var p, r := Reached(runs[..|reports|]), runs[|reports|];
             var from := if r.size < p.offset then 0 else p.offset;
             if Fits(r.log[from..]) then offset' == |r.log| && Counts(report, Events(Lines(r.log[from..])))
             else offset' == from && report == map[]
    ensures var p := Reached(runs[..|reports| + 1]);
            && p.offset == offset'
            && Collected(reports + [report], sent + [pushOk[|reports|] && report != map[]], pushOk, p.past,
                         runs[|reports|].log, p.offset)
  {
    var n := |reports|;
    var p, log, r := Reached(runs[..n]), LastLog(runs[..n]), runs[n];
    ReachedNext(runs, n);
    if r.rotated {
      CollectedRotated(reports, sent, pushOk, p, log);
      p, log := Restarted(p, log), "";
    }
    CollectedNext(reports, sent, pushOk, p.past, log, p.offset, r.log, offset', report);
  }

  /** Any number of runs, one report each, over a log whose snapshots end at newlines and whose rotations
      are noticed: no line is counted twice or skipped. The reports, merged, equal one pass over all that
      was read of the files that are gone, and over the present log up to the offset, and that is all of it
      exactly when no line is too long. Each report that is not empty is pushed, once, and sent says
      whether that worked. */
  method CollectAll(c: Collector, runs: seq<Visit>, pushOk: seq<bool>)
    returns (reports: seq<map<string, Stat>>, sent: seq<bool>)
    requires c.offset == 0 && Followed(runs) && |pushOk| == |runs|
    modifies c
    ensures |sent| == |runs| && c.offset == Reached(runs).offset
    ensures Collected(reports, sent, pushOk, Reached(runs).past, LastLog(runs), c.offset)
  {
    reports, sent := [], [];
    ghost var none := "";
    assert none[..0] == none;
    for i := 0 to |runs|
      invariant |sent| == i && c.offset == Reached(runs[..i]).offset
      invariant Collected(reports, sent, pushOk, Reached(runs[..i]).past, LastLog(runs[..i]), c.offset)
    {
      var err, report, pushed := c.Collect(Some(Snapshot(runs[i].size, runs[i].log)), pushOk[i]);
      CollectedRun(reports, sent, pushOk, runs, report, c.offset);
      ReachedNext(runs, i);
      reports, sent := reports + [report], sent + [pushed];
    }
    assert runs[..|runs|] == runs;
  }

  lemma HasARequest(events: seq<Event>)
    requires events != []
    ensures exists d :: Summary(events, d).total > 0
  {
    var e := events[|events| - 1];
    assert Summary(events, e.domain).total > 0;
  }

  /** A run that meets a new file counts the whole of it exactly when the file is smaller than the offset
      left by the old one, or else what the offset makes it skip holds no request. */
  lemma RotationIsHarmlessExactlyWhenNoticed(log: string, size: nat, offset: nat, report: map<string, Stat>)
    requires Terminated(Upto(log, offset)) && Fits(log) && size <= |log|
    requires Counts(report, Events(Lines(log[if size < offset then 0 else offset..])))
    ensures Counts(report, Events(Lines(log))) <==> size < offset || Events(Lines(Upto(log, offset))) == []
  {
    assert log[0..] == log;
    if size >= offset {
      assert log == log[..offset] + log[offset..];
      LinesConcat(log[..offset], log[offset..]);
      ReadOn(log, log, offset);
      var skipped, rest := Events(Lines(log[..offset])), Events(Lines(log[offset..]));
      if skipped == [] {
        assert skipped + rest == rest;
      } else {
        HasARequest(skipped);
        var d :| Summary(skipped, d).total > 0;
        SummaryConcat(skipped, rest, d);
        assert At(report, d) != Summary(Events(Lines(log)), d);
      }
    }
  }

  /** The reports for which sent is as given, merged. */
  function MergeWhere(reports: seq<map<string, Stat>>, sent: seq<bool>, ok: bool, d: string): Stat
    requires |sent| == |reports|
  {
    if reports == [] then ZERO
    else
      var n := |reports| - 1;
      Plus(MergeWhere(reports[..n], sent[..n], ok, d), if sent[n] == ok then At(reports[n], d) else ZERO)
  }

  lemma PlusSwap(x: Stat, y: Stat, z: Stat)
    ensures Plus(Plus(x, z), Plus(y, ZERO)) == Plus(Plus(x, y), z) == Plus(Plus(x, ZERO), Plus(y, z))
  {
  }

  lemma {:induction false} SentPlusUnsent(reports: seq<map<string, Stat>>, sent: seq<bool>, d: string)
    requires |sent| == |reports|
    ensures Plus(MergeWhere(reports, sent, true, d), MergeWhere(reports, sent, false, d)) == Merge(reports, d)
    decreases |reports|
  {
    if reports == [] {
      PlusZero(ZERO);
    } else {
      var n := |reports| - 1;
      SentPlusUnsent(reports[..n], sent[..n], d);
      PlusSwap(MergeWhere(reports[..n], sent[..n], true, d), MergeWhere(reports[..n], sent[..n], false, d),
               At(reports[n], d));
    }
  }

  /** A report that was not sent is missing from what was. */
  lemma {:induction false} UnsentTotal(reports: seq<map<string, Stat>>, sent: seq<bool>, i: nat, d: string)
    requires |sent| == |reports| && i < |reports| && !sent[i]
    ensures MergeWhere(reports, sent, false, d).total >= At(reports[i], d).total
    decreases |reports|
  {
    var n := |reports| - 1;
    if i < n {
      UnsentTotal(reports[..n], sent[..n], i, d);
    }
  }

  lemma {:induction false} AllSent(reports: seq<map<string, Stat>>, sent: seq<bool>, d: string)
    requires |sent| == |reports| && forall i | 0 <= i < |reports| :: !sent[i] ==> reports[i] == map[]
    ensures MergeWhere(reports, sent, true, d) == Merge(reports, d)
    decreases |reports|
  {
    if reports != [] {
      AllSent(reports[..|reports| - 1], sent[..|reports| - 1], d);
    }
  }

  /** What the API has received, and what the failed pushes carried, add up to one pass over all that was
      read: nothing is sent twice, and nothing that failed is sent again. */
  lemma ReceivedPlusLost(reports: seq<map<string, Stat>>, sent: seq<bool>, past: seq<Event>, log: string, offset: nat,
                         d: string)
    requires |sent| == |reports| && CoversPrefix(reports, past, log, offset)
    ensures Plus(MergeWhere(reports, sent, true, d), MergeWhere(reports, sent, false, d))
            == Summary(past + Events(Lines(log[..offset])), d)
  {
    SentPlusUnsent(reports, sent, d);
  }

  /** So the API has the whole exactly when every push that was tried worked. */
  lemma ReceivedAllExactlyWhenPushesWorked(reports: seq<map<string, Stat>>, sent: seq<bool>, pushOk: seq<bool>,
                                           past: seq<Event>, log: string, offset: nat)
    requires Collected(reports, sent, pushOk, past, log, offset)
    ensures (forall d :: MergeWhere(reports, sent, true, d) == Summary(past + Events(Lines(log[..offset])), d))
            <==> forall i | 0 <= i < |reports| :: reports[i] != map[] ==> pushOk[i]
  {
    var all := past + Events(Lines(log[..offset]));
    if i :| 0 <= i < |reports| && reports[i] != map[] && !pushOk[i] {
      var d :| d in reports[i];
      ReceivedPlusLost(reports, sent, past, log, offset, d);
      UnsentTotal(reports, sent, i, d);
      assert MergeWhere(reports, sent, true, d) != Summary(all, d);
    } else {
      forall d ensures MergeWhere(reports, sent, true, d) == Summary(all, d) {
        AllSent(reports, sent, d);
      }
    }
  }

  /** A line that is too long stops the counting for good: until the file shrinks, however much is
      appended, every run fails at it. */
  lemma TooLongLineStopsCounting(log: string, more: string, offset: nat)
    requires offset <= |log| && !Fits(log[offset..])
    ensures !Fits((log + more)[offset..])
  {
    assert (log + more)[offset..] == log[offset..] + more;
    NeverFitsAgain(log[offset..], more);
  }
}
