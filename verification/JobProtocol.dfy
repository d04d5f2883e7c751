/** The job executor as a transition system: the heartbeat goroutine, which counts, updates and
    dispatches, and one goroutine per accepted job, interleaved in any order. */
module JobProtocol {

  const MAX_CONCURRENT := 4

  /** Where a job's goroutine stands. Recorded and Reported are the two halves of the completion
      callback; Released and Done the two halves of the deferred cleanup. */
  datatype Phase = Queued | Running | Finished | Recorded | Reported | Released | Done

  function Index(ph: Phase): nat {
    match ph
    case Queued => 0 case Running => 1 case Finished => 2 case Recorded => 3
    case Reported => 4 case Released => 5 case Done => 6
  }

  function PhaseAt(i: nat): Phase
    requires i < 7
  {
    [Queued, Running, Finished, Recorded, Reported, Released, Done][i]
  }

  function Next(ph: Phase): Phase
    requires ph != Done
  {
    PhaseAt(Index(ph) + 1)
  }

  /** The goroutine has put its token into the semaphore and not taken it out. */
  predicate Holding(ph: Phase) {
    1 <= Index(ph) <= 4
  }

  datatype Run = Run(id: string, phase: Phase)

  datatype Event = Entered(id: string, phase: Phase) | Installed

  /** The heartbeat goroutine between two points where others may run: waiting for a response; with a
      version on offer; with the active count read; with jobs still to dispatch. */
  datatype Heartbeat =
    | Idle
    | Offered(jobs: seq<string>)
    | Counted(count: nat, jobs: seq<string>)
    | Dispatching(rest: seq<string>)

  /** runs holds every goroutine ever started, finished ones included, in order of acceptance; log is
      the history of phase changes and installs. */
  datatype State = State(active: set<string>, slots: nat, runs: seq<Run>, hb: Heartbeat, log: seq<Event>)

  const INIT := State({}, 0, [], Idle, [])

  datatype Action =
    | Respond(jobs: seq<string>, offer: bool)
    | Count
    | Decide(install: bool)
    | Claim
    | Go(k: nat)

  predicate Enabled(s: State, a: Action) {
    match a
    case Respond(_, _) => s.hb.Idle?
    case Count => s.hb.Offered?
    case Decide(install) => s.hb.Counted? && (install ==> s.hb.count == 0)
    case Claim => s.hb.Dispatching?
    case Go(k) => k < |s.runs| && s.runs[k].phase != Done
                  && (s.runs[k].phase == Queued ==> s.slots < MAX_CONCURRENT)
  }

  /** The semaphore after goroutine phase ph is left. A release takes a token out of the channel. */
  function SlotsAfter(slots: nat, ph: Phase): nat {
    if ph == Queued then slots + 1
    else if ph == Reported && slots > 0 then slots - 1
    else slots
  }

  function Apply(s: State, a: Action): State
    requires Enabled(s, a)
  {
    match a
    case Respond(jobs, offer) => s.(hb := if offer then Offered(jobs) else Dispatching(jobs))
    case Count => s.(hb := Counted(|s.active|, s.hb.jobs))
    case Decide(install) =>
      s.(hb := Dispatching(s.hb.jobs), log := if install then s.log + [Installed] else s.log)
    case Claim =>
      if s.hb.rest == [] then s.(hb := Idle)
      else
        var id, rest := s.hb.rest[0], s.hb.rest[1..];
        if id in s.active then s.(hb := Dispatching(rest))
        else s.(active := s.active + {id}, runs := s.runs + [Run(id, Queued)],
                hb := Dispatching(rest), log := s.log + [Entered(id, Queued)])
    case Go(k) =>
      var r := s.runs[k];
      s.(active := if r.phase == Released then s.active - {r.id} else s.active,
         slots := SlotsAfter(s.slots, r.phase),
         runs := s.runs[k := Run(r.id, Next(r.phase))],
         log := s.log + [Entered(r.id, Next(r.phase))])
  }

  /** A schedule: actions that are not enabled when their turn comes do nothing. */
  function Exec(s: State, acts: seq<Action>): State {
    if acts == [] then s
    else
      var s' := Exec(s, acts[..|acts| - 1]);
      var a := acts[|acts| - 1];
      if Enabled(s', a) then Apply(s', a) else s'
  }

  lemma {:induction false} ExecConcat(s: State, a: seq<Action>, b: seq<Action>)
    ensures Exec(s, a + b) == Exec(Exec(s, a), b)
  {
    if b == [] {
      assert a + b == a;
    } else {
      var n := |b| - 1;
      assert (a + b)[..|a + b| - 1] == a + b[..n];
      ExecConcat(s, a, b[..n]);
    }
  }

  // ------------------------------------------------------------------------------ invariants

  function CountHolding(runs: seq<Run>): nat {
    if runs == [] then 0
    else CountHolding(runs[..|runs| - 1]) + (if Holding(runs[|runs| - 1].phase) then 1 else 0)
  }

  /** The phases one ID has gone through, over all its runs. */
  function History(log: seq<Event>, id: string): seq<Phase> {
    if log == [] then []
    else
      var e := log[|log| - 1];
      History(log[..|log| - 1], id) + (if e.Entered? && e.id == id then [e.phase] else [])
  }

  /** How far into its current run an ID is: 0 when none is under way. */
  function Progress(log: seq<Event>, id: string): nat {
    if log == [] then 0
    else
      var e, p := log[|log| - 1], Progress(log[..|log| - 1], id);
      if e.Entered? && e.id == id then (if p == 6 then 0 else p + 1) else p
  }

  /** The phase that follows ph in an ID's history: after Done comes a new run. */
  function Successor(ph: Phase): Phase {
    if ph == Done then Queued else Next(ph)
  }

  /** One full run after another, the last one possibly unfinished. */
  ghost predicate Cyclic(h: seq<Phase>) {
    && (h != [] ==> h[0] == Queued)
    && forall i | 0 < i < |h| :: h[i] == Successor(h[i - 1])
  }

  function ProgressOf(h: seq<Phase>): nat {
    if h == [] || h[|h| - 1] == Done then 0 else Index(h[|h| - 1]) + 1
  }

  lemma {:induction false} ProgressIsLastPhase(log: seq<Event>, id: string)
    requires Cyclic(History(log, id))
    ensures Progress(log, id) == ProgressOf(History(log, id)) < 7
  {
    if log != [] {
      var h := History(log[..|log| - 1], id);
      assert h <= History(log, id);
      ProgressIsLastPhase(log[..|log| - 1], id);
    }
  }

  ghost predicate SlotsExact(s: State) {
    s.slots == CountHolding(s.runs) && s.slots <= MAX_CONCURRENT
  }

  predicate Live(runs: seq<Run>, k: int) {
    0 <= k < |runs| && runs[k].phase != Done
  }

  ghost predicate ActiveExact(s: State) {
    && (forall k :: Live(s.runs, k) ==> s.runs[k].id in s.active)
    && (forall id :: id in s.active ==> exists k :: Live(s.runs, k) && s.runs[k].id == id)
  }

  ghost predicate NoSharedId(s: State) {
    forall j, k :: Live(s.runs, j) && Live(s.runs, k) && s.runs[j].id == s.runs[k].id ==> j == k
  }

  ghost predicate HistoriesExact(s: State) {
    && (forall id :: Cyclic(History(s.log, id)))
    && (forall k :: Live(s.runs, k) ==> Progress(s.log, s.runs[k].id) == Index(s.runs[k].phase) + 1)
    && (forall id :: id !in s.active ==> Progress(s.log, id) == 0)
  }

  /** No ID has a run under way: every run that started has also freed its ID. */
  ghost predicate Quiet(log: seq<Event>) {
    forall id :: Progress(log, id) == 0
  }

  /** Whenever a binary was installed, all was quiet. */
  ghost predicate QuietInstalls(log: seq<Event>) {
    forall i | 0 <= i < |log| && log[i].Installed? :: Quiet(log[..i])
  }

  ghost predicate CountStillTrue(s: State) {
    s.hb.Counted? && s.hb.count == 0 ==> s.active == {}
  }

  ghost predicate Inv(s: State) {
    SlotsExact(s) && ActiveExact(s) && NoSharedId(s) && HistoriesExact(s) && QuietInstalls(s.log) && CountStillTrue(s)
  }

  lemma {:induction false} CountHoldingUpdate(runs: seq<Run>, k: nat, r: Run)
    requires k < |runs|
    ensures CountHolding(runs[k := r]) + (if Holding(runs[k].phase) then 1 else 0)
            == CountHolding(runs) + (if Holding(r.phase) then 1 else 0)
  {
    var n := |runs| - 1;
    if k == n {
      assert runs[k := r][..n] == runs[..n];
    } else {
      assert runs[k := r][..n] == runs[..n][k := r];
      CountHoldingUpdate(runs[..n], k, r);
    }
  }

  lemma HistorySnoc(log: seq<Event>, e: Event, id: string)
    ensures History(log + [e], id) == History(log, id) + (if e.Entered? && e.id == id then [e.phase] else [])
    ensures Progress(log + [e], id) ==
            if e.Entered? && e.id == id then (if Progress(log, id) == 6 then 0 else Progress(log, id) + 1)
            else Progress(log, id)
  {
    assert (log + [e])[..|log|] == log;
  }

  lemma QuietInstallsSnoc(log: seq<Event>, e: Event)
    requires QuietInstalls(log)
    requires e.Installed? ==> Quiet(log)
    ensures QuietInstalls(log + [e])
  {
    var log' := log + [e];
    forall i | 0 <= i < |log'| && log'[i].Installed? ensures Quiet(log'[..i]) {
      if i < |log| {
        assert log'[..i] == log[..i];
      } else {
        assert log'[..i] == log;
      }
    }
  }

  /** Appending the phase that comes next keeps a history cyclic. */
  lemma CyclicSnoc(h: seq<Phase>, ph: Phase)
    requires Cyclic(h) && Index(ph) == ProgressOf(h)
    ensures Cyclic(h + [ph])
  {
  }

  /** What one more event does to each ID's history. */
  lemma HistoryGrows(log: seq<Event>, id: string, ph: Phase)
    requires forall x :: Cyclic(History(log, x))
    requires Progress(log, id) == Index(ph)
    ensures forall x :: Cyclic(History(log + [Entered(id, ph)], x))
    ensures Progress(log + [Entered(id, ph)], id) == if ph == Done then 0 else Index(ph) + 1
    ensures forall x :: x != id ==> Progress(log + [Entered(id, ph)], x) == Progress(log, x)
  {
    forall x
      ensures Cyclic(History(log + [Entered(id, ph)], x))
      ensures x != id ==> Progress(log + [Entered(id, ph)], x) == Progress(log, x)
    {
      HistorySnoc(log, Entered(id, ph), x);
      if x == id {
        ProgressIsLastPhase(log, id);
        CyclicSnoc(History(log, id), ph);
      }
    }
    HistorySnoc(log, Entered(id, ph), id);
  }

  lemma ClaimKeepsHistories(s: State, s': State, id: string)
    requires HistoriesExact(s) && ActiveExact(s) && id !in s.active
    requires s'.active == s.active + {id} && s'.runs == s.runs + [Run(id, Queued)]
             && s'.log == s.log + [Entered(id, Queued)]
    ensures HistoriesExact(s')
  {
    HistoryGrows(s.log, id, Queued);
    forall k | Live(s'.runs, k) ensures Progress(s'.log, s'.runs[k].id) == Index(s'.runs[k].phase) + 1 {
      if k < |s.runs| {
        assert Live(s.runs, k) && s'.runs[k] == s.runs[k];
        assert s.runs[k].id in s.active;
      } else {
        assert s'.runs[k] == Run(id, Queued);
      }
    }
  }

  lemma GoKeepsHistories(s: State, k: nat)
    requires HistoriesExact(s) && ActiveExact(s) && NoSharedId(s) && Enabled(s, Go(k))
    ensures HistoriesExact(Apply(s, Go(k)))
  {
    var r := s.runs[k];
    assert Live(s.runs, k);
    var s' := Apply(s, Go(k));
    HistoryGrows(s.log, r.id, Next(r.phase));
    forall j | Live(s'.runs, j) ensures Progress(s'.log, s'.runs[j].id) == Index(s'.runs[j].phase) + 1 {
      assert Live(s.runs, j);
    }
  }

  lemma GoKeepsActive(s: State, k: nat)
    requires ActiveExact(s) && NoSharedId(s) && Enabled(s, Go(k))
    ensures ActiveExact(Apply(s, Go(k))) && NoSharedId(Apply(s, Go(k)))
  {
    var s' := Apply(s, Go(k));
    assert Live(s.runs, k);
    forall j | Live(s'.runs, j) ensures Live(s.runs, j) && s'.runs[j].id == s.runs[j].id && s'.runs[j].id in s'.active {
    }
    forall id | id in s'.active ensures exists j :: Live(s'.runs, j) && s'.runs[j].id == id {
      var j :| Live(s.runs, j) && s.runs[j].id == id;
      assert Live(s'.runs, j);
    }
  }

  lemma ClaimKeepsActive(s: State, id: string)
    requires ActiveExact(s) && NoSharedId(s) && id !in s.active
    ensures var s' := State(s.active + {id}, s.slots, s.runs + [Run(id, Queued)], s.hb, s.log + [Entered(id, Queued)]);
            ActiveExact(s') && NoSharedId(s')
  {
    var runs := s.runs + [Run(id, Queued)];
    forall j | Live(runs, j)
      ensures if j < |s.runs| then Live(s.runs, j) && runs[j].id in s.active else runs[j].id == id
    {
    }
    forall x | x in s.active + {id} ensures exists j :: Live(runs, j) && runs[j].id == x {
      if x in s.active {
        var j :| Live(s.runs, j) && s.runs[j].id == x;
        assert Live(runs, j) && runs[j].id == x;
      } else {
        assert Live(runs, |s.runs|) && runs[|s.runs|].id == id;
      }
    }
  }

  lemma ActiveEmptyMeansQuiet(s: State)
    requires HistoriesExact(s) && s.active == {}
    ensures Quiet(s.log)
  {
  }

  lemma InstallKeepsInv(s: State)
    requires Inv(s) && s.hb.Counted? && s.hb.count == 0
    ensures Inv(Apply(s, Decide(true)))
  {
    var s' := Apply(s, Decide(true));
    ActiveEmptyMeansQuiet(s);
    QuietInstallsSnoc(s.log, Installed);
    forall id ensures History(s'.log, id) == History(s.log, id) && Progress(s'.log, id) == Progress(s.log, id) {
      HistorySnoc(s.log, Installed, id);
    }
    assert HistoriesExact(s');
  }

  lemma ClaimKeepsInv(s: State)
    requires Inv(s) && s.hb.Dispatching? && s.hb.rest != [] && s.hb.rest[0] !in s.active
    ensures Inv(Apply(s, Claim))
  {
    var id := s.hb.rest[0];
    var s' := State(s.active + {id}, s.slots, s.runs + [Run(id, Queued)], s.hb, s.log + [Entered(id, Queued)]);
    ClaimKeepsHistories(s, s', id);
    ClaimKeepsActive(s, id);
    QuietInstallsSnoc(s.log, Entered(id, Queued));
    assert s'.runs[..|s.runs|] == s.runs;
    assert Apply(s, Claim) == s'.(hb := Dispatching(s.hb.rest[1..]));
  }

  lemma GoKeepsInv(s: State, k: nat)
    requires Inv(s) && Enabled(s, Go(k))
    ensures Inv(Apply(s, Go(k)))
  {
    GoKeepsHistories(s, k);
    GoKeepsActive(s, k);
    GoKeepsSlots(s, k);
    QuietInstallsSnoc(s.log, Entered(s.runs[k].id, Next(s.runs[k].phase)));
  }

  /** Every action keeps the invariant. */
  lemma InvKept(s: State, a: Action)
    requires Inv(s) && Enabled(s, a)
    ensures Inv(Apply(s, a))
  {
    match a {
      case Decide(install) =>
        if install {
          InstallKeepsInv(s);
        }
      case Claim =>
        if s.hb.rest != [] && s.hb.rest[0] !in s.active {
          ClaimKeepsInv(s);
        }
      case Go(k) => GoKeepsInv(s, k);
      case _ =>
    }
  }

  lemma GoKeepsSlots(s: State, k: nat)
    requires SlotsExact(s) && Enabled(s, Go(k))
    ensures SlotsExact(Apply(s, Go(k)))
  {
    CountHoldingUpdate(s.runs, k, Run(s.runs[k].id, Next(s.runs[k].phase)));
  }

  /** The invariant holds after every schedule: slots held are exactly the goroutines between acquire
      and release and never more than four, the active IDs are exactly those of unfinished goroutines,
      no two unfinished goroutines share an ID, and every ID's history is one whole run after another. */
  lemma InvAlways(acts: seq<Action>)
    ensures Inv(Exec(INIT, acts))
  {
    EveryStateReachedIsGood(INIT, acts);
  }

  // ------------------------------------------------------------------------------ accounting

  /** How often a phase was entered. */
  function Times(h: seq<Phase>, ph: Phase): nat {
    if h == [] then 0 else Times(h[..|h| - 1], ph) + (if h[|h| - 1] == ph then 1 else 0)
  }

  lemma {:induction false} CyclicTimes(h: seq<Phase>, ph: Phase)
    requires Cyclic(h) && ph != Queued
    ensures Times(h, Queued) == Times(h, ph) + (if 0 < ProgressOf(h) <= Index(ph) then 1 else 0)
  {
    if h != [] {
      var n := |h| - 1;
      assert Cyclic(h[..n]);
      CyclicTimes(h[..n], ph);
      if n > 0 {
        assert h[n] == Successor(h[n - 1]) && h[..n][n - 1] == h[n - 1];
      }
    }
  }

  /** A run of id is under way and has not yet come as far as ph. */
  ghost predicate UnderWayBefore(s: State, id: string, ph: Phase) {
    exists k :: Live(s.runs, k) && s.runs[k].id == id && Index(s.runs[k].phase) < Index(ph)
  }

  /** After any schedule, and for any ID: it has been accepted exactly as often as its completion was
      recorded, or its report attempt returned, or its ID was freed, and once more if a run is under
      way that has not come that far. */
  lemma Accounting(acts: seq<Action>, id: string, ph: Phase)
    requires ph != Queued
    ensures var s := Exec(INIT, acts);
            Times(History(s.log, id), Queued)
            == Times(History(s.log, id), ph) + (if UnderWayBefore(s, id, ph) then 1 else 0)
  {
    InvAlways(acts);
    var s := Exec(INIT, acts);
    CyclicTimes(History(s.log, id), ph);
    ProgressIsLastPhase(s.log, id);
    ProgressIsLive(s, id, ph);
  }

  lemma ProgressIsLive(s: State, id: string, ph: Phase)
    requires Inv(s)
    ensures UnderWayBefore(s, id, ph) <==> 0 < Progress(s.log, id) <= Index(ph)
  {
    if id in s.active {
      var k :| Live(s.runs, k) && s.runs[k].id == id;
      assert Progress(s.log, s.runs[k].id) == Index(s.runs[k].phase) + 1;
      forall j | Live(s.runs, j) && s.runs[j].id == id ensures j == k {
      }
    }
  }

  /** Runs of one ID never overlap: between two acceptances of it lie its completion callback, the
      return of its report attempt, and the release of its ID, in this order. */
  lemma RunsOfOneIdNeverOverlap(acts: seq<Action>, id: string, a: nat, b: nat)
    requires var h := History(Exec(INIT, acts).log, id);
             a < b < |h| && h[a] == Queued && h[b] == Queued
    ensures var h := History(Exec(INIT, acts).log, id);
            a + 6 < b && h[a + 3] == Recorded && h[a + 4] == Reported && h[a + 5] == Released && h[a + 6] == Done
  {
    InvAlways(acts);
    CycleFrom(History(Exec(INIT, acts).log, id), a, b);
  }

  lemma CycleFrom(h: seq<Phase>, a: nat, b: nat)
    requires Cyclic(h) && a < b < |h| && h[a] == Queued && h[b] == Queued
    ensures a + 6 < b && h[a + 3] == Recorded && h[a + 4] == Reported && h[a + 5] == Released && h[a + 6] == Done
  {
    assert h[a + 1] == Running;
    assert h[a + 2] == Finished;
    assert h[a + 3] == Recorded;
    assert h[a + 4] == Reported;
    assert h[a + 5] == Released;
    assert h[a + 6] == Done;
  }

  /** At every install every run accepted before it had also freed its ID: no heartbeat job was queued,
      running or reporting. */
  lemma InstallsAreQuiet(acts: seq<Action>, i: nat, id: string)
    requires i < |Exec(INIT, acts).log| && Exec(INIT, acts).log[i].Installed?
    ensures var h := History(Exec(INIT, acts).log[..i], id);
            Times(h, Queued) == Times(h, Reported) == Times(h, Done)
  {
    InvAlways(acts);
    var log := Exec(INIT, acts).log;
    assert Quiet(log[..i]);
    HistoryOfPrefixCyclic(log, i, id);
    var h := History(log[..i], id);
    ProgressIsLastPhase(log[..i], id);
    CyclicTimes(h, Reported);
    CyclicTimes(h, Done);
  }

  lemma {:induction false} HistoryOfPrefixCyclic(log: seq<Event>, i: nat, id: string)
    requires i <= |log| && Cyclic(History(log, id))
    ensures Cyclic(History(log[..i], id))
    decreases |log|
  {
    if i == |log| {
      assert log[..i] == log;
    } else {
      var n := |log| - 1;
      assert History(log[..n], id) <= History(log, id);
      assert log[..n][..i] == log[..i];
      HistoryOfPrefixCyclic(log[..n], i, id);
    }
  }

  // ------------------------------------------------------------------------------ draining

  /** Steps the goroutines still have to take. */
  function Remaining(runs: seq<Run>): nat {
    if runs == [] then 0
    else Remaining(runs[..|runs| - 1]) + 6 - Index(runs[|runs| - 1].phase)
  }

  lemma {:induction false} RemainingUpdate(runs: seq<Run>, k: nat, r: Run)
    requires k < |runs|
    ensures Remaining(runs[k := r]) + Index(r.phase) == Remaining(runs) + Index(runs[k].phase)
  {
    var n := |runs| - 1;
    if k == n {
      assert runs[k := r][..n] == runs[..n];
    } else {
      assert runs[k := r][..n] == runs[..n][k := r];
      RemainingUpdate(runs[..n], k, r);
    }
  }

  lemma {:induction false} NothingRemaining(runs: seq<Run>)
    ensures Remaining(runs) == 0 <==> forall k :: !Live(runs, k)
  {
    if runs != [] {
      var n := |runs| - 1;
      NothingRemaining(runs[..n]);
      if Remaining(runs) == 0 {
        forall k ensures !Live(runs, k) {
          assert !Live(runs[..n], k);
        }
      }
      if forall k :: !Live(runs, k) {
        assert !Live(runs, n);
        forall k ensures !Live(runs[..n], k) {
          assert !Live(runs, k);
        }
      }
    }
  }

  lemma {:induction false} NobodyHolding(runs: seq<Run>)
    requires forall k | 0 <= k < |runs| :: !Holding(runs[k].phase)
    ensures CountHolding(runs) == 0
  {
    if runs != [] {
      NobodyHolding(runs[..|runs| - 1]);
    }
  }

  /** Every goroutine step brings the end one step closer. */
  lemma GoDecreases(s: State, k: nat)
    requires Enabled(s, Go(k))
    ensures Remaining(Apply(s, Go(k)).runs) + 1 == Remaining(s.runs)
  {
    RemainingUpdate(s.runs, k, Run(s.runs[k].id, Next(s.runs[k].phase)));
  }

  /** No deadlock: while any ID is active, some goroutine can take its next step. A queue of waiting
      goroutines cannot block itself, because then nobody holds the semaphore. */
  lemma SomeoneCanGo(s: State) returns (k: nat)
    requires Inv(s) && s.active != {}
    ensures Enabled(s, Go(k))
  {
    var id :| id in s.active;
    var j :| Live(s.runs, j) && s.runs[j].id == id;
    k := j;
    if s.runs[j].phase == Queued && s.slots == MAX_CONCURRENT {
      if forall i | 0 <= i < |s.runs| :: !Holding(s.runs[i].phase) {
        NobodyHolding(s.runs);
      }
      var i :| 0 <= i < |s.runs| && Holding(s.runs[i].phase);
      k := i;
    }
  }

  predicate OnlyGoroutines(acts: seq<Action>) {
    forall i | 0 <= i < |acts| :: acts[i].Go?
  }

  /** With no further deliveries the executor drains: from any reachable state there is a schedule of
      exactly Remaining steps, all of goroutines, after which no ID is active and every slot is
      free. */
  lemma {:induction false} Drains(s: State) returns (acts: seq<Action>)
    requires Inv(s)
    ensures OnlyGoroutines(acts) && |acts| == Remaining(s.runs)
    ensures Exec(s, acts).active == {} && Exec(s, acts).slots == 0
    decreases Remaining(s.runs)
  {
    NothingRemaining(s.runs);
    if s.active == {} {
      acts := [];
      forall k | 0 <= k < |s.runs| ensures !Holding(s.runs[k].phase) {
        assert !Live(s.runs, k);
      }
      NobodyHolding(s.runs);
    } else {
      var k := SomeoneCanGo(s);
      GoDecreases(s, k);
      InvKept(s, Go(k));
      var rest := Drains(Apply(s, Go(k)));
      acts := [Go(k)] + rest;
      ExecConcat(s, [Go(k)], rest);
      assert [Go(k)][..0] == [];
      assert Exec(s, [Go(k)]) == Apply(s, Go(k));
    }
  }

  /** How many actions of a schedule are enabled when their turn comes. */
  function Effective(s: State, acts: seq<Action>): nat {
    if acts == [] then 0
    else
      Effective(s, acts[..|acts| - 1])
      + (if Enabled(Exec(s, acts[..|acts| - 1]), acts[|acts| - 1]) then 1 else 0)
  }

  /** However the scheduler chooses, each effective goroutine step uses up one of the remaining ones, so
      no schedule can go on for ever; and it is stuck only when everything has drained. */
  lemma {:induction false} EveryScheduleDrains(s: State, acts: seq<Action>)
    requires Inv(s) && OnlyGoroutines(acts)
    ensures Effective(s, acts) + Remaining(Exec(s, acts).runs) == Remaining(s.runs)
    ensures (forall k: nat :: !Enabled(Exec(s, acts), Go(k))) <==> Exec(s, acts).active == {}
  {
    EveryStateReachedIsGood(s, acts);
    var e := Exec(s, acts);
    if e.active != {} {
      var k := SomeoneCanGo(e);
    } else {
      forall k: nat ensures !Enabled(e, Go(k)) {
        assert !Live(e.runs, k);
      }
    }
    if acts != [] {
      var n := |acts| - 1;
      EveryScheduleDrains(s, acts[..n]);
      var s' := Exec(s, acts[..n]);
      if Enabled(s', acts[n]) {
        GoDecreases(s', acts[n].k);
      }
    }
  }

  lemma {:induction false} EveryStateReachedIsGood(s: State, acts: seq<Action>)
    requires Inv(s)
    ensures Inv(Exec(s, acts))
  {
    if acts != [] {
      var n := |acts| - 1;
      EveryStateReachedIsGood(s, acts[..n]);
      if Enabled(Exec(s, acts[..n]), acts[n]) {
        InvKept(Exec(s, acts[..n]), acts[n]);
      }
    }
  }
}
