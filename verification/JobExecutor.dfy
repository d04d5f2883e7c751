/** The executor object itself: its critical sections and the heartbeat goroutine's code, each proved
    to be a path of the transition system in JobProtocol. Other goroutines run at the points where the
    code lets them, as a schedule dictates. */
module JobExecutor {
  import opened JobProtocol

  class Executor {
    var activeJobs: set<string>
    /** The number of tokens in the semaphore channel. */
    var semaphore: nat
    /** One entry per goroutine started. */
    var goroutines: seq<Run>
    var heartbeat: Heartbeat
    ghost var log: seq<Event>

    ghost function Snapshot(): State
      reads this
    {
      State(activeJobs, semaphore, goroutines, heartbeat, log)
    }

    ghost predicate Valid()
      reads this
    {
      Inv(Snapshot())
    }

    /** NewExecutor. */
    constructor ()
      ensures Snapshot() == INIT && Valid()
    {
      activeJobs, semaphore, goroutines, heartbeat, log := {}, 0, [], Idle, [];
      new;
      InvAlways([]);
    }

    /** ActiveJobCount: every ID whose goroutine has not finished its cleanup, the queued ones
        included. */
    method ActiveJobCount() returns (n: nat)
      ensures n == |activeJobs|
      ensures Valid() ==> (n == 0 <==> forall k :: !Live(goroutines, k))
    {
      n := |activeJobs|;
      if Valid() {
        forall k | Live(goroutines, k) ensures goroutines[k].id in activeJobs {
        }
      }
    }

    /** The next statement of goroutine k: its wait for a slot, its handler, the two halves of the
        callback, and the two halves of the deferred cleanup. Nothing happens when it has to wait. */
    method Advance(k: nat)
      modifies this
      ensures Snapshot() == Step(old(Snapshot()), Go(k))
      ensures SameIds(old(goroutines), goroutines) && activeJobs <= old(activeJobs)
    {
      if k >= |goroutines| || goroutines[k].phase == Done {
        return;
      }
      var j := goroutines[k];
      var next := Done;
      match j.phase {
        case Queued =>
          if semaphore >= MAX_CONCURRENT {
            return;
          }
          semaphore := semaphore + 1;
          next := Running;
        case Running => next := Finished;
        case Finished => next := Recorded;
        case Recorded => next := Reported;
        case Reported =>
          if semaphore > 0 {
            semaphore := semaphore - 1;
          }
          next := Released;
        case Released =>
          activeJobs := activeJobs - {j.id};
      }
      goroutines := goroutines[k := Run(j.id, next)];
      log := log + [Entered(j.id, next)];
    }

    /** Whoever the scheduler picks, between two steps of the heartbeat goroutine. */
    method Others(picks: seq<nat>) returns (ghost acts: seq<Action>)
      modifies this
      ensures heartbeat == old(heartbeat)
      ensures OnlyGoroutines(acts) && Snapshot() == Exec(old(Snapshot()), acts)
      ensures SameIds(old(goroutines), goroutines) && activeJobs <= old(activeJobs)
    {
      ghost var s := Snapshot();
      acts := [];
      var i := 0;
      while i < |picks|
        invariant heartbeat == old(heartbeat)
        invariant 0 <= i <= |picks|
        invariant OnlyGoroutines(acts) && Snapshot() == Exec(s, acts)
        invariant SameIds(old(goroutines), goroutines) && activeJobs <= old(activeJobs)
      {
        Advance(picks[i]);
        ExecSnoc(s, acts, Go(picks[i]));
        acts := acts + [Go(picks[i])];
        i := i + 1;
      }
    }

    /** One critical section of ProcessJobs: skip the job if its ID is active, else claim the ID and
        start its goroutine. */
    method ClaimNext(jobs: seq<string>)
      requires heartbeat == Dispatching(jobs)
      modifies this
      ensures Snapshot() == Apply(old(Snapshot()), Claim)
      ensures heartbeat == if jobs == [] then Idle else Dispatching(jobs[1..])
      ensures jobs == [] || jobs[0] in old(activeJobs) ==>
                goroutines == old(goroutines) && activeJobs == old(activeJobs)
      ensures jobs != [] && jobs[0] !in old(activeJobs) ==>
                goroutines == old(goroutines) + [Run(jobs[0], Queued)] && activeJobs == old(activeJobs) + {jobs[0]}
    {
      if jobs == [] {
        heartbeat := Idle;
        return;
      }
      var id := jobs[0];
      heartbeat := Dispatching(jobs[1..]);
      if id !in activeJobs {
        activeJobs := activeJobs + {id};
        goroutines := goroutines + [Run(id, Queued)];
        log := log + [Entered(id, Queued)];
      }
    }

    /** ProcessJobs: one critical section for each job of the batch, in order. schedule[i] runs before
        the i-th job is looked at. Every job of the batch that was not active gets a goroutine, and
        nobody else does. */
    method ProcessJobs(jobs: seq<string>, schedule: seq<seq<nat>>) returns (ghost acts: seq<Action>)
      requires heartbeat == Dispatching(jobs)
      modifies this
      ensures heartbeat == Idle
      ensures Snapshot() == Exec(old(Snapshot()), acts)
      ensures Decide(true) !in acts
      ensures forall id | id in jobs && id !in old(activeJobs) ::
                exists k :: |old(goroutines)| <= k < |goroutines| && goroutines[k].id == id
      ensures forall k | |old(goroutines)| <= k < |goroutines| :: goroutines[k].id in jobs
      ensures |old(goroutines)| <= |goroutines|
      ensures forall k | 0 <= k < |old(goroutines)| :: goroutines[k].id == old(goroutines)[k].id
    {
      ghost var s, before, active := Snapshot(), goroutines, activeJobs;
      acts := [];
      var i := 0;
      while i < |jobs|
        invariant 0 <= i <= |jobs|
        invariant Started(before, goroutines, jobs[..i], active, activeJobs)
        invariant Decide(true) !in acts
        invariant heartbeat == Dispatching(jobs[i..])
        invariant Snapshot() == Exec(s, acts)
      {
        ghost var g0, a0 := goroutines, activeJobs;
        ghost var more := Others(if i < |schedule| then schedule[i] else []);
        ExecConcat(s, acts, more);
        acts := acts + more;
        StillStarted(before, g0, goroutines, jobs[..i], active, a0, activeJobs);
        ghost var g1, a1 := goroutines, activeJobs;
        ClaimNext(jobs[i..]);
        OneMoreStarted(before, g1, jobs[..i], jobs[i], active, a1);
        assert jobs[..i + 1] == jobs[..i] + [jobs[i]];
        ExecSnoc(s, acts, Claim);
        acts := acts + [Claim];
        i := i + 1;
      }
      assert jobs[..i] == jobs;
      ClaimNext([]);
      ExecSnoc(s, acts, Claim);
      acts := acts + [Claim];
    }

    /** The updater's decision, from the count it was handed: the gate is the count, not the executor. */
    method Decided(count: nat, jobs: seq<string>, isNewer: bool, downloadOk: bool) returns (installed: bool)
      requires heartbeat == Counted(count, jobs)
      modifies `heartbeat, `log
      ensures heartbeat == Dispatching(jobs)
      ensures Snapshot() == Step(old(Snapshot()), Decide(installed))
      ensures installed <==> isNewer && downloadOk && count == 0
    {
      heartbeat := Dispatching(jobs);
      if !isNewer || count > 0 || !downloadOk {
        return false;
      }
      log := log + [Installed];
      return true;
    }

    /** The sync half of a heartbeat: read the active count, then CheckAndUpdate. Other goroutines run
        while the binary downloads. The install goes ahead exactly when the version is newer, the
        download succeeds and nothing was active at the count, and then nothing is active at the
        install either. */
    method CheckAndUpdate(jobs: seq<string>, isNewer: bool, downloadOk: bool, picks: seq<nat>)
      returns (installed: bool, ghost acts: seq<Action>)
      requires Valid() && heartbeat == Offered(jobs)
      modifies this
      ensures heartbeat == Dispatching(jobs)
      ensures Snapshot() == Exec(old(Snapshot()), acts)
      ensures installed <==> isNewer && downloadOk && old(activeJobs) == {}
      ensures installed ==> activeJobs == {} && forall k :: !Live(goroutines, k)
      ensures Decide(true) in acts <==> installed
      ensures SameIds(old(goroutines), goroutines) && activeJobs <= old(activeJobs)
    {
      ghost var s := Snapshot();
      var count := ActiveJobCount();
      heartbeat := Counted(count, jobs);
      ExecSnoc(s, [], Count);
      ghost var more := Others(picks);
      ExecConcat(s, [Count], more);
      ghost var before := [Count] + more;
      assert Decide(true) !in before;
      installed := Decided(count, jobs, isNewer, downloadOk);
      ExecSnoc(s, before, Decide(installed));
      acts := before + [Decide(installed)];
      if installed {
        NothingActiveAtInstall(s, before);
      }
    }

    /** sendHeartbeat, once the response is in: when a version is on offer the updater decides, before
        the pending jobs are dispatched. */
    method SendHeartbeat(jobs: seq<string>, offer: bool, isNewer: bool, downloadOk: bool, schedule: seq<seq<nat>>)
      returns (installed: bool, ghost acts: seq<Action>)
      requires Valid() && heartbeat == Idle
      modifies this
      ensures Valid() && heartbeat == Idle
      ensures Snapshot() == Exec(old(Snapshot()), acts)
      ensures installed <==> offer && isNewer && downloadOk && old(activeJobs) == {}
      ensures Decide(true) in acts <==> installed
      ensures forall id | id in jobs && id !in old(activeJobs) ::
                exists k :: |old(goroutines)| <= k < |goroutines| && goroutines[k].id == id
      ensures forall k | |old(goroutines)| <= k < |goroutines| :: goroutines[k].id in jobs
      ensures |old(goroutines)| <= |goroutines|
      ensures forall k | 0 <= k < |old(goroutines)| :: goroutines[k].id == old(goroutines)[k].id
    {
      ghost var s := Snapshot();
      installed := false;
      heartbeat := if offer then Offered(jobs) else Dispatching(jobs);
      ExecSnoc(s, [], Respond(jobs, offer));
      acts := [Respond(jobs, offer)];
      if offer {
        EveryStateReachedIsGood(s, acts);
        ghost var more;
        installed, more := CheckAndUpdate(jobs, isNewer, downloadOk, if |schedule| > 0 then schedule[0] else []);
        ExecConcat(s, acts, more);
        acts := acts + more;
      }
      ghost var rest := ProcessJobs(jobs, if |schedule| > 1 then schedule[1..] else []);
      ExecConcat(s, acts, rest);
      acts := acts + rest;
      EveryStateReachedIsGood(s, acts);
    }
  }

  /** The same goroutines, wherever they stand. */
  predicate SameIds(before: seq<Run>, after: seq<Run>) {
    |after| == |before| && forall k | 0 <= k < |before| :: after[k].id == before[k].id
  }

  /** Since before, when the IDs in active were, goroutines have been started for all of these jobs that
      were not among them, and for no others; and whatever is active now was then, or has been started. */
  ghost predicate Started(before: seq<Run>, after: seq<Run>, jobs: seq<string>, active: set<string>, now: set<string>) {
    && |before| <= |after|
    && (forall k | 0 <= k < |before| :: after[k].id == before[k].id)
    && (forall k | |before| <= k < |after| :: after[k].id in jobs)
    && (forall id | id in jobs && id !in active :: StartedFor(before, after, id))
    && (forall id | id in now && id !in active :: StartedFor(before, after, id))
  }

  ghost predicate StartedFor(before: seq<Run>, after: seq<Run>, id: string) {
    exists k :: |before| <= k < |after| && after[k].id == id
  }

  lemma StillStarted(before: seq<Run>, g: seq<Run>, g': seq<Run>, jobs: seq<string>, active: set<string>,
                     now: set<string>, now': set<string>)
    requires Started(before, g, jobs, active, now) && SameIds(g, g') && now' <= now
    ensures Started(before, g', jobs, active, now')
  {
    forall id | StartedFor(before, g, id) ensures StartedFor(before, g', id) {
      var k :| |before| <= k < |g| && g[k].id == id;
      assert g'[k].id == id;
    }
  }

  lemma OneMoreStarted(before: seq<Run>, g: seq<Run>, jobs: seq<string>, id: string, active: set<string>,
                       now: set<string>)
    requires Started(before, g, jobs, active, now)
    ensures id in now ==> Started(before, g, jobs + [id], active, now)
    ensures id !in now ==> Started(before, g + [Run(id, Queued)], jobs + [id], active, now + {id})
  {
    var g' := g + [Run(id, Queued)];
    assert g'[|g|].id == id;
    forall x | StartedFor(before, g, x) ensures StartedFor(before, g', x) {
      var k :| |before| <= k < |g| && g[k].id == x;
      assert g'[k].id == x;
    }
  }

  /** One turn of a schedule. */
  ghost function Step(s: State, a: Action): State {
    if Enabled(s, a) then Apply(s, a) else s
  }

  lemma ExecSnoc(s: State, acts: seq<Action>, a: Action)
    ensures Exec(s, acts + [a]) == Step(Exec(s, acts), a)
  {
    assert (acts + [a])[..|acts|] == acts;
  }

  /** Between a count of zero and the decision only goroutines move, so nothing has become active. */
  lemma NothingActiveAtInstall(s: State, acts: seq<Action>)
    requires Inv(s)
    requires Exec(s, acts).hb.Counted? && Exec(s, acts).hb.count == 0
    ensures var e := Exec(s, acts); e.active == {} && forall k :: !Live(e.runs, k)
  {
    EveryStateReachedIsGood(s, acts);
    var e := Exec(s, acts);
    assert ActiveExact(e);
  }
}
