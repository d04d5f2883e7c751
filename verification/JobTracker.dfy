/** The in-memory record of finished jobs that status queries are answered from. */
module JobTracker {

  /** One hour in nanoseconds, the clock's unit. */
  const HOUR := 3_600_000_000_000

  datatype Status = Running | Done | Failed

  datatype Entry = Entry(status: Status, error: string, finishedAt: int)

  /** One call of record; the entry's finish time is the time of the call. */
  datatype Call = Call(id: string, entry: Entry)

  /** The position of the last call for id, or -1. */
  function Last(calls: seq<Call>, id: string): (i: int)
    ensures -1 <= i < |calls|
    ensures i >= 0 ==> calls[i].id == id
    ensures forall j | i < j < |calls| :: calls[j].id != id
  {
    if calls == [] then -1
    else if calls[|calls| - 1].id == id then |calls| - 1
    else Last(calls[..|calls| - 1], id)
  }

  /** No later call came more than an hour after call i. */
  ghost predicate Survives(calls: seq<Call>, i: nat)
    requires i < |calls|
  {
    forall j | i <= j < |calls| :: calls[j].entry.finishedAt - calls[i].entry.finishedAt <= HOUR
  }

  /** What is remembered of id after these calls. */
  ghost predicate Remembered(calls: seq<Call>, id: string) {
    Last(calls, id) >= 0 && Survives(calls, Last(calls, id))
  }

  ghost predicate Exact(results: map<string, Entry>, calls: seq<Call>) {
    forall id :: (id in results <==> Remembered(calls, id))
              && (id in results ==> results[id] == calls[Last(calls, id)].entry)
  }

  /** The eviction loop's outcome. */
  function Fresh(results: map<string, Entry>, now: int): map<string, Entry> {
    map id | id in results && now - results[id].finishedAt <= HOUR :: results[id]
  }

  /** One more call: what becomes of an earlier entry of another job. */
  lemma SurvivesSnoc(calls: seq<Call>, i: nat, c: Call)
    requires i < |calls|
    ensures Survives(calls + [c], i) <==>
            Survives(calls, i) && c.entry.finishedAt - calls[i].entry.finishedAt <= HOUR
  {
    var calls' := calls + [c];
    if Survives(calls', i) {
      forall j | i <= j < |calls| ensures calls[j].entry.finishedAt - calls[i].entry.finishedAt <= HOUR {
        assert calls'[j] == calls[j];
      }
      assert calls'[|calls|] == c;
    }
  }

  lemma RememberedSnoc(calls: seq<Call>, c: Call, id: string)
    ensures Last(calls + [c], id) == if id == c.id then |calls| else Last(calls, id)
    ensures Remembered(calls + [c], id) <==>
            id == c.id || (Remembered(calls, id)
                && c.entry.finishedAt - calls[Last(calls, id)].entry.finishedAt <= HOUR)
  {
    assert (calls + [c])[..|calls|] == calls;
    if id != c.id && Last(calls, id) >= 0 {
      SurvivesSnoc(calls, Last(calls, id), c);
    }
  }

  /** Storing a result and evicting the stale ones keeps the map exact. */
  lemma RecordKeepsExact(results: map<string, Entry>, calls: seq<Call>, c: Call)
    requires Exact(results, calls)
    ensures Exact(Fresh(results[c.id := c.entry], c.entry.finishedAt), calls + [c])
  {
    forall id
      ensures Last(calls + [c], id) == if id == c.id then |calls| else Last(calls, id)
      ensures Remembered(calls + [c], id) <==>
              id == c.id || (Remembered(calls, id)
                  && c.entry.finishedAt - calls[Last(calls, id)].entry.finishedAt <= HOUR)
    {
      RememberedSnoc(calls, c, id);
    }
  }

  /** When the clock does not run backwards, a result is remembered exactly as long as no call of record
      for any job has come more than an hour after its own. */
  lemma RememberedForAnHour(calls: seq<Call>, id: string)
    requires forall i, j | 0 <= i < j < |calls| :: calls[i].entry.finishedAt <= calls[j].entry.finishedAt
    ensures Remembered(calls, id) <==>
            exists i :: 0 <= i < |calls| && calls[i].id == id
                        && calls[|calls| - 1].entry.finishedAt - calls[i].entry.finishedAt <= HOUR
  {
    var i := Last(calls, id);
    if i >= 0 {
      assert Survives(calls, i) <==> calls[|calls| - 1].entry.finishedAt - calls[i].entry.finishedAt <= HOUR;
      forall k | 0 <= k < |calls| && calls[k].id == id ensures k <= i {
      }
    }
  }

  class Tracker {
    var results: map<string, Entry>
    ghost var calls: seq<Call>

    ghost predicate Valid()
      reads this
    {
      Exact(results, calls)
    }

    constructor ()
      ensures Valid() && calls == []
    {
      results, calls := map[], [];
    }

    /** The eviction loop: whatever order the map is walked in. */
    method Evict(now: int)
      modifies `results
      ensures results == Fresh(old(results), now)
    {
      ghost var stored := results;
      var keys := results.Keys;
      while keys != {}
        invariant keys <= stored.Keys
        invariant results.Keys <= stored.Keys && forall k | k in results :: results[k] == stored[k]
        invariant forall k | k in keys :: k in results
        invariant forall k | k in stored && k !in keys :: k in results <==> now - stored[k].finishedAt <= HOUR
        decreases |keys|
      {
        var k :| k in keys;
        if now - results[k].finishedAt > HOUR {
          results := results - {k};
        }
        keys := keys - {k};
      }
    }

    /** Store the result, then delete every entry more than an hour old. */
    method Record(now: int, id: string, status: Status, error: string)
      requires Valid()
      modifies this
      ensures Valid() && calls == old(calls) + [Call(id, Entry(status, error, now))]
    {
      ghost var c := Call(id, Entry(status, error, now));
      RecordKeepsExact(results, calls, c);
      calls := calls + [c];
      results := results[id := Entry(status, error, now)];
      Evict(now);
    }

    /** The status of the last completion still remembered, RUNNING when there is none: also for a job
        never seen, forgotten, or running for the first time. A job running once more is still answered
        with the result of its last run. */
    method Get(id: string) returns (status: Status, error: string)
      requires Valid()
      ensures Remembered(calls, id) ==>
                status == calls[Last(calls, id)].entry.status && error == calls[Last(calls, id)].entry.error
      ensures !Remembered(calls, id) ==> status == Running && error == ""
    {
      if id in results {
        return results[id].status, results[id].error;
      }
      return Running, "";
    }
  }
}
