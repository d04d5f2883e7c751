/** CPU percentages from counter differences, for the whole machine and for each site. Counters are 64-bit
    and wrap; percentages are real numbers, without rounding. */
module Cpu {
  import opened FileSystem

  const TWO_TO_THE_64 := 0x1_0000_0000_0000_0000

  type U64 = x: int | 0 <= x < TWO_TO_THE_64

  /** uint64 addition and subtraction. */
  function Add(a: U64, b: U64): U64 {
    if a + b < TWO_TO_THE_64 then a + b else a + b - TWO_TO_THE_64
  }

  function Sub(a: U64, b: U64): U64 {
    if a >= b then a - b else a - b + TWO_TO_THE_64
  }

  datatype Stat = Stat(user: U64, nice: U64, system: U64, idle: U64, iowait: U64, irq: U64, softirq: U64, steal: U64)

  /** The true sums, and the two kinds of time they are made of. */
  function BusyTime(s: Stat): nat {
    s.user + s.nice + s.system + s.irq + s.softirq + s.steal
  }

  function IdleTime(s: Stat): nat {
    s.idle + s.iowait
  }

  /** The sums as the code computes them. */
  function Total(s: Stat): U64 {
    Add(Add(Add(Add(Add(Add(Add(s.user, s.nice), s.system), s.idle), s.iowait), s.irq), s.softirq), s.steal)
  }

  function Busy(s: Stat): U64 {
    Add(Add(Add(Add(Add(s.user, s.nice), s.system), s.irq), s.softirq), s.steal)
  }

  /** The counters' sum fits 64 bits. */
  predicate Fits(s: Stat) {
    BusyTime(s) + IdleTime(s) < TWO_TO_THE_64
  }

  lemma SumsAreTrue(s: Stat)
    requires Fits(s)
    ensures Total(s) == BusyTime(s) + IdleTime(s) && Busy(s) == BusyTime(s)
  {
  }

  /** The two sums of one reading. */
  datatype Reading = Reading(busy: U64, total: U64)

  function ReadingOf(s: Stat): Reading {
    Reading(Busy(s), Total(s))
  }

  /** The percentage before it is clamped, for a total that has grown. */
  function Raw(last: Reading, curr: Reading): real
    requires curr.total > last.total
  {
    Sub(curr.busy, last.busy) as real / Sub(curr.total, last.total) as real * 100.0
  }

  function Percent(last: Reading, curr: Reading): (p: real)
    ensures 0.0 <= p <= 100.0
  {
    if curr.total <= last.total then 0.0
    else
      var p := Raw(last, curr);
      if p < 0.0 then 0.0 else if p > 100.0 then 100.0 else p
  }

  class Sampler {
    var last: Stat
    var initialized: bool

    constructor ()
      ensures !initialized
    {
      last, initialized := Stat(0, 0, 0, 0, 0, 0, 0, 0), false;
    }

    /** Sample, given what reading /proc/stat yields. */
    method Sample(reading: Option<Stat>) returns (pct: Option<real>)
      modifies this
      ensures reading.None? ==> pct == None && last == old(last) && initialized == old(initialized)
      ensures reading.Some? ==> initialized && last == reading.value
      ensures reading.Some? ==>
                pct == Some(if old(initialized) then Percent(ReadingOf(old(last)), ReadingOf(reading.value)) else 0.0)
      ensures reading.Some? && old(initialized) && Total(reading.value) <= Total(old(last)) ==> pct == Some(0.0)
    {
      if reading.None? {
        return None;
      }
      var curr := reading.value;
      if !initialized {
        last, initialized := curr, true;
        return Some(0.0);
      }
      if Total(curr) <= Total(last) {
        last := curr;
        return Some(0.0);
      }
      var deltaBusy, deltaTotal := Sub(Busy(curr), Busy(last)), Sub(Total(curr), Total(last));
      last := curr;
      var p := deltaBusy as real / deltaTotal as real * 100.0;
      if p < 0.0 {
        p := 0.0;
      }
      if p > 100.0 {
        p := 100.0;
      }
      return Some(p);
    }
  }

  lemma RatioBound(a: nat, b: nat)
    requires b > 0
    ensures a as real / b as real * 100.0 <= 100.0 <==> a <= b
    ensures a as real / b as real * 100.0 * b as real == 100.0 * a as real
  {
    var q := a as real / b as real;
    assert q * b as real == a as real;
    Scaled(q, b as real);
  }

  lemma Scaled(q: real, b: real)
    requires b > 0.0
    ensures q <= 1.0 <==> q * b <= b
  {
    if q > 1.0 {
      assert (q - 1.0) * b > 0.0;
    } else {
      assert (1.0 - q) * b >= 0.0;
    }
  }

  lemma RawExceedsExactly(last: Reading, curr: Reading)
    requires curr.total > last.total
    ensures Raw(last, curr) > 100.0 <==> Sub(curr.busy, last.busy) > Sub(curr.total, last.total)
  {
    RatioBound(Sub(curr.busy, last.busy), Sub(curr.total, last.total));
  }

  /** The clamp acts exactly when busy time or idle time has gone back: the one because the unsigned
      difference wraps, the other because more time was busy than passed. Either way 100 is reported. */
  lemma ClampActsExactlyOnStepBack(last: Stat, curr: Stat)
    requires Fits(last) && Fits(curr) && Total(curr) > Total(last)
    ensures Raw(ReadingOf(last), ReadingOf(curr)) > 100.0 <==>
            BusyTime(curr) < BusyTime(last) || IdleTime(curr) < IdleTime(last)
    ensures BusyTime(curr) < BusyTime(last) || IdleTime(curr) < IdleTime(last) ==>
              Percent(ReadingOf(last), ReadingOf(curr)) == 100.0
  {
    SumsAreTrue(last);
    SumsAreTrue(curr);
    RawExceedsExactly(ReadingOf(last), ReadingOf(curr));
  }

  /** Busy time has not gone back, nor has the rest. */
  predicate Forward(last: Reading, curr: Reading) {
    last.busy <= curr.busy && curr.busy - last.busy <= curr.total - last.total
  }

  /** A percentage times the time it covers. */
  function Share(last: Reading, curr: Reading): real {
    Percent(last, curr) * (curr.total - last.total) as real
  }

  lemma ShareIsBusyTime(last: Reading, curr: Reading)
    requires Forward(last, curr)
    ensures Share(last, curr) == 100.0 * (curr.busy - last.busy) as real
  {
    if curr.total > last.total {
      RawExceedsExactly(last, curr);
      RatioBound(curr.busy - last.busy, curr.total - last.total);
    }
  }

  function Sum(xs: seq<real>): real {
    if xs == [] then 0.0 else Sum(xs[..|xs| - 1]) + xs[|xs| - 1]
  }

  lemma {:induction false} SumTelescopes(xs: seq<real>, ys: seq<real>)
    requires |ys| == |xs| + 1
    requires forall i | 0 <= i < |xs| :: xs[i] == ys[i + 1] - ys[i]
    ensures Sum(xs) == ys[|xs|] - ys[0]
    decreases |xs|
  {
    if xs != [] {
      SumTelescopes(xs[..|xs| - 1], ys[..|xs|]);
    }
  }

  /** A measure taken over each step of a run. */
  function Steps<T>(run: seq<T>, measure: (T, T) -> real): seq<real> {
    seq(if run == [] then 0 else |run| - 1, i requires 0 <= i < |run| - 1 => measure(run[i], run[i + 1]))
  }

  lemma SameSteps<T>(run: seq<T>, f: (T, T) -> real, g: (T, T) -> real)
    requires forall i | 0 <= i < |run| - 1 :: f(run[i], run[i + 1]) == g(run[i], run[i + 1])
    ensures Sum(Steps(run, f)) == Sum(Steps(run, g))
  {
    assert Steps(run, f) == Steps(run, g);
  }

  function ShareOf(last: Stat, curr: Stat): real {
    Share(ReadingOf(last), ReadingOf(curr))
  }

  /** How much busy time has grown, in hundredths. */
  function BusyGrowth(last: Stat, curr: Stat): real {
    100.0 * Busy(curr) as real - 100.0 * Busy(last) as real
  }

  function Shares(run: seq<Stat>): seq<real> {
    Steps(run, ShareOf)
  }

  /** Time never goes back between two readings, and no sum overflows. */
  predicate NeverBack(last: Stat, curr: Stat) {
    Fits(last) && Fits(curr) && BusyTime(last) <= BusyTime(curr) && IdleTime(last) <= IdleTime(curr)
  }

  lemma NeverBackIsForward(last: Stat, curr: Stat)
    requires NeverBack(last, curr)
    ensures Forward(ReadingOf(last), ReadingOf(curr))
  {
    SumsAreTrue(last);
    SumsAreTrue(curr);
  }

  lemma ShareIsGrowth(last: Stat, curr: Stat)
    requires NeverBack(last, curr)
    ensures ShareOf(last, curr) == BusyGrowth(last, curr)
  {
    NeverBackIsForward(last, curr);
    ShareIsBusyTime(ReadingOf(last), ReadingOf(curr));
  }

  /** In terms of the eight counters, none of which has gone back: a percentage is taken of the time that has
      passed on all of them, and counts that on the six that are neither idle nor waiting. */
  lemma ShareOfCounters(last: Stat, curr: Stat)
    requires Fits(last) && Fits(curr)
    requires last.user <= curr.user && last.nice <= curr.nice && last.system <= curr.system && last.idle <= curr.idle
    requires last.iowait <= curr.iowait && last.irq <= curr.irq && last.softirq <= curr.softirq
    requires last.steal <= curr.steal
    ensures var busy := (curr.user - last.user) + (curr.nice - last.nice) + (curr.system - last.system)
                        + (curr.irq - last.irq) + (curr.softirq - last.softirq) + (curr.steal - last.steal);
            var idle := (curr.idle - last.idle) + (curr.iowait - last.iowait);
            && ReadingOf(curr).total - ReadingOf(last).total == busy + idle
            && Share(ReadingOf(last), ReadingOf(curr)) == 100.0 * busy as real
  {
    SumsAreTrue(last);
    SumsAreTrue(curr);
    ShareIsGrowth(last, curr);
  }

  lemma GrowthTelescopes(run: seq<Stat>)
    requires |run| > 0
    ensures Sum(Steps(run, BusyGrowth)) == 100.0 * Busy(run[|run| - 1]) as real - 100.0 * Busy(run[0]) as real
  {
    var ys := seq(|run|, i requires 0 <= i < |run| => 100.0 * Busy(run[i]) as real);
    SumTelescopes(Steps(run, BusyGrowth), ys);
  }

  /** When time never goes back the percentages reported over a run account for exactly the busy time of
      the whole run: nothing is counted twice, skipped or clamped. */
  lemma PercentagesTelescope(run: seq<Stat>)
    requires |run| > 0
    requires forall i | 0 < i < |run| :: NeverBack(run[i - 1], run[i])
    ensures Sum(Shares(run)) == 100.0 * Busy(run[|run| - 1]) as real - 100.0 * Busy(run[0]) as real
  {
    forall i | 0 <= i < |run| - 1 ensures ShareOf(run[i], run[i + 1]) == BusyGrowth(run[i], run[i + 1]) {
      ShareIsGrowth(run[i], run[i + 1]);
    }
    SameSteps(run, ShareOf, BusyGrowth);
    GrowthTelescopes(run);
  }

  // ------------------------------------------------------------------------------ sites

  /** A site's counter in microseconds, and when it was read, in seconds. */
  datatype Sample = Sample(usec: nat, at: real)

  function SitePercent(prev: Sample, curr: Sample): real {
    if curr.usec >= prev.usec && curr.at - prev.at > 0.0 then
      (curr.usec - prev.usec) as real / 1000000.0 / (curr.at - prev.at) * 100.0
    else 0.0
  }

  class UsageReporter {
    var samples: map<string, Sample>

    constructor ()
      ensures samples == map[]
    {
      samples := map[];
    }

    /** One site when the agent starts. A counter that cannot be read is remembered as 0. */
    method Seed(siteID: string, usec: Option<nat>, now: real)
      modifies this
      ensures samples == old(samples)[siteID := Sample(if usec.Some? then usec.value else 0, now)]
    {
      samples := samples[siteID := Sample(if usec.Some? then usec.value else 0, now)];
    }

    /** The CPU part of collectSite. */
    method Collect(siteID: string, usec: Option<nat>, now: real) returns (pct: real)
      modifies this
      ensures usec.None? ==> pct == 0.0 && samples == old(samples)
      ensures usec.Some? ==> samples == old(samples)[siteID := Sample(usec.value, now)]
      ensures usec.Some? ==>
                pct == if siteID in old(samples) then SitePercent(old(samples)[siteID], Sample(usec.value, now))
                       else 0.0
      ensures usec.Some? && siteID in old(samples) && now <= old(samples)[siteID].at ==> pct == 0.0
      ensures usec.Some? && siteID in old(samples) && usec.value < old(samples)[siteID].usec ==> pct == 0.0
    {
      pct := 0.0;
      if usec.Some? {
        var hasPrev := siteID in samples;
        var prev := if hasPrev then samples[siteID] else Sample(0, 0.0);
        samples := samples[siteID := Sample(usec.value, now)];
        if hasPrev && usec.value >= prev.usec {
          var elapsed := now - prev.at;
          if elapsed > 0.0 {
            var deltaUsec := (usec.value - prev.usec) as real;
            pct := deltaUsec / 1000000.0 / elapsed * 100.0;
          }
        }
      }
    }
  }

  /** A site's percentage times the seconds it covers, as microseconds of processor time. */
  function SiteShare(prev: Sample, curr: Sample): real {
    SitePercent(prev, curr) * (curr.at - prev.at) * 10000.0
  }

  /** What the counter gained, unless it fell. */
  function Gain(prev: Sample, curr: Sample): real {
    if curr.usec >= prev.usec then (curr.usec - prev.usec) as real else 0.0
  }

  lemma SiteShareIsGain(prev: Sample, curr: Sample)
    requires curr.at > prev.at
    ensures SiteShare(prev, curr) == Gain(prev, curr)
  {
    if curr.usec >= prev.usec {
      var d, e := (curr.usec - prev.usec) as real, curr.at - prev.at;
      var q := d / 1000000.0 / e;
      assert q * e == d / 1000000.0;
    }
  }

  function SiteShares(run: seq<Sample>): seq<real> {
    Steps(run, SiteShare)
  }

  function Gains(run: seq<Sample>): seq<real> {
    Steps(run, Gain)
  }

  /** Over any run of readings at increasing times, the percentages times the time between them add up to
      what the counter gained; a counter that is reset loses only the step in which it falls. */
  lemma SitePercentagesAddUp(run: seq<Sample>)
    requires forall i | 0 < i < |run| :: run[i - 1].at < run[i].at
    ensures Sum(SiteShares(run)) == Sum(Gains(run))
  {
    forall i | 0 <= i < |run| - 1 ensures SiteShare(run[i], run[i + 1]) == Gain(run[i], run[i + 1]) {
      SiteShareIsGain(run[i], run[i + 1]);
    }
    SameSteps(run, SiteShare, Gain);
  }

  lemma GainsTelescope(run: seq<Sample>)
    requires |run| > 0 && forall i | 0 < i < |run| :: run[i - 1].usec <= run[i].usec
    ensures Sum(Gains(run)) == run[|run| - 1].usec as real - run[0].usec as real
  {
    var ys := seq(|run|, i requires 0 <= i < |run| => run[i].usec as real);
    SumTelescopes(Gains(run), ys);
  }

  /** Without a reset that is the counter's whole growth. */
  lemma SitePercentagesTelescope(run: seq<Sample>)
    requires |run| > 0 && forall i | 0 < i < |run| :: run[i - 1].at < run[i].at && run[i - 1].usec <= run[i].usec
    ensures Sum(SiteShares(run)) == run[|run| - 1].usec as real - run[0].usec as real
  {
    SitePercentagesAddUp(run);
    GainsTelescope(run);
  }

  // ------------------------------------------------------------------------------ from the start

  /** One report: the counter, if it can be read, and when. */
  datatype Tick = Tick(usec: Option<nat>, at: real)

  function SeedSample(seed: Option<nat>, start: real): Sample {
    Sample(if seed.Some? then seed.value else 0, start)
  }

  /** The sample remembered after these reports. */
  function Last(seed: Option<nat>, start: real, ticks: seq<Tick>): Sample {
    if ticks == [] then SeedSample(seed, start)
    else
      var t := ticks[|ticks| - 1];
      if t.usec.Some? then Sample(t.usec.value, t.at) else Last(seed, start, ticks[..|ticks| - 1])
  }

  function TimeOf(start: real, ticks: seq<Tick>): real {
    if ticks == [] then start else ticks[|ticks| - 1].at
  }

  /** The counter could be read at one of these. */
  predicate Read(ticks: seq<Tick>) {
    ticks != [] && (ticks[|ticks| - 1].usec.Some? || Read(ticks[..|ticks| - 1]))
  }

  /** Reports come one after another, and the counter, atStart when the agent started, never goes back. */
  predicate Steady(atStart: nat, start: real, ticks: seq<Tick>) {
    ticks != [] ==>
      var init, t := ticks[..|ticks| - 1], ticks[|ticks| - 1];
      && Steady(atStart, start, init)
      && t.at > TimeOf(start, init)
      && (t.usec.Some? ==> t.usec.value >= Last(Some(atStart), start, init).usec)
  }

  lemma {:induction false} SteadyAt(atStart: nat, start: real, ticks: seq<Tick>, i: nat)
    requires Steady(atStart, start, ticks) && i < |ticks|
    ensures Steady(atStart, start, ticks[..i]) && ticks[i].at > TimeOf(start, ticks[..i])
    ensures ticks[i].usec.Some? ==> ticks[i].usec.value >= Last(Some(atStart), start, ticks[..i]).usec
    decreases |ticks|
  {
    var n := |ticks| - 1;
    if i < n {
      SteadyAt(atStart, start, ticks[..n], i);
      assert ticks[..n][..i] == ticks[..i];
    }
  }

  /** Reading the counter makes up for a sample that could not be taken at the start. */
  lemma {:induction false} LastIsKnown(seed: Option<nat>, atStart: nat, start: real, ticks: seq<Tick>)
    requires Steady(atStart, start, ticks) && (seed.Some? ==> seed.value == atStart)
    ensures Last(seed, start, ticks).at <= TimeOf(start, ticks)
    ensures Last(Some(atStart), start, ticks).usec >= atStart
    ensures if seed.Some? || Read(ticks) then Last(seed, start, ticks) == Last(Some(atStart), start, ticks)
            else Last(seed, start, ticks) == SeedSample(seed, start)
    decreases |ticks|
  {
    if ticks != [] {
      LastIsKnown(seed, atStart, start, ticks[..|ticks| - 1]);
    }
  }

  /** The percentages of a reporter that runs from its start on. */
  ghost predicate Reported(pcts: seq<real>, seed: Option<nat>, start: real, ticks: seq<Tick>) {
    && |pcts| == |ticks|
    && forall i | 0 <= i < |ticks| ::
         pcts[i] == if ticks[i].usec.None? then 0.0
                    else SitePercent(Last(seed, start, ticks[..i]), Sample(ticks[i].usec.value, ticks[i].at))
  }

  function Charge(pct: real, from: real, to: real): real {
    pct * (to - from) * 10000.0
  }

  /** What each reported percentage charges the site for, in microseconds: the time since the sample before
      at that rate. */
  function Charges(pcts: seq<real>, seed: Option<nat>, start: real, ticks: seq<Tick>): seq<real>
    requires |pcts| == |ticks|
  {
    seq(|ticks|, i requires 0 <= i < |ticks| => Charge(pcts[i], Last(seed, start, ticks[..i]).at, ticks[i].at))
  }

  lemma OneCharge(prev: Sample, curr: Sample)
    requires curr.at > prev.at && curr.usec >= prev.usec
    ensures Charge(SitePercent(prev, curr), prev.at, curr.at) == curr.usec as real - prev.usec as real
  {
    SiteShareIsGain(prev, curr);
  }

  lemma ChargeAt(pcts: seq<real>, seed: Option<nat>, atStart: nat, start: real, ticks: seq<Tick>, i: nat)
    requires Reported(pcts, seed, start, ticks) && Steady(atStart, start, ticks)
             && (seed.Some? ==> seed.value == atStart)
    requires i < |ticks|
    ensures Charges(pcts, seed, start, ticks)[i]
            == Last(seed, start, ticks[..i + 1]).usec as real - Last(seed, start, ticks[..i]).usec as real
  {
    SteadyAt(atStart, start, ticks, i);
    LastIsKnown(seed, atStart, start, ticks[..i]);
    assert ticks[..i + 1][..i] == ticks[..i];
    if ticks[i].usec.Some? {
      OneCharge(Last(seed, start, ticks[..i]), Sample(ticks[i].usec.value, ticks[i].at));
    }
  }

  /** Over any run the reports charge exactly what the counter gained on the sample taken at the start. */
  lemma ChargedFromSeed(pcts: seq<real>, seed: Option<nat>, atStart: nat, start: real, ticks: seq<Tick>)
    requires Reported(pcts, seed, start, ticks) && Steady(atStart, start, ticks)
             && (seed.Some? ==> seed.value == atStart)
    ensures Sum(Charges(pcts, seed, start, ticks))
            == Last(seed, start, ticks).usec as real - SeedSample(seed, start).usec as real
  {
    var xs := Charges(pcts, seed, start, ticks);
    var ys := seq(|ticks| + 1, i requires 0 <= i <= |ticks| => Last(seed, start, ticks[..i]).usec as real);
    forall i | 0 <= i < |xs| ensures xs[i] == ys[i + 1] - ys[i] {
      ChargeAt(pcts, seed, atStart, start, ticks, i);
    }
    SumTelescopes(xs, ys);
    assert ticks[..|ticks|] == ticks && ticks[..0] == [];
  }

  /** So once the counter has been read, the reports account for what it gained since the agent started
      exactly when it could be read then, or was 0; a site whose counter could not be read is charged its
      whole past as well. */
  lemma ChargesExactlyWhenSeedRead(pcts: seq<real>, seed: Option<nat>, atStart: nat, start: real, ticks: seq<Tick>)
    requires Reported(pcts, seed, start, ticks) && Steady(atStart, start, ticks)
             && (seed.Some? ==> seed.value == atStart)
    requires Read(ticks)
    ensures var now, charged := Last(Some(atStart), start, ticks).usec, Sum(Charges(pcts, seed, start, ticks));
            && (charged == now as real - atStart as real <==> seed.Some? || atStart == 0)
            && (seed.None? ==> charged == now as real)
  {
    ChargedFromSeed(pcts, seed, atStart, start, ticks);
    LastIsKnown(seed, atStart, start, ticks);
  }

  /** The reporter's loop, for one site: a sample at the start, then a report at each tick. */
  method Run(r: UsageReporter, siteID: string, seed: Option<nat>, start: real, ticks: seq<Tick>)
      returns (pcts: seq<real>)
    modifies r
    ensures Reported(pcts, seed, start, ticks)
    ensures r.samples == old(r.samples)[siteID := Last(seed, start, ticks)]
  {
    r.Seed(siteID, seed, start);
    pcts := [];
    for i := 0 to |ticks|
      invariant r.samples == old(r.samples)[siteID := Last(seed, start, ticks[..i])]
      invariant Reported(pcts, seed, start, ticks[..i])
    {
      assert ticks[..i + 1][..i] == ticks[..i];
      assert forall k | 0 <= k < i :: ticks[..i][..k] == ticks[..k] == ticks[..i + 1][..k];
      var pct := r.Collect(siteID, ticks[i].usec, ticks[i].at);
      pcts := pcts + [pct];
    }
    assert ticks[..|ticks|] == ticks;
  }
}
