/** The counter table the library's callers hold, updated in place by
    `createCounters`, `cullCounters`, `readCounters` and `getPidDelta`; each
    operation is specified by the functions of `CounterMaps`. */
module CounterTable {
  import opened PerfTypes
  import opened CounterSetup
  import opened GroupRead
  import opened TaskIds
  import opened Wrappers
  import opened CounterMaps

  class CounterTable {
    /** The records, keyed by task id. */
    var counters: map<Pid, PCounter>
    /** The descriptors opened through this table and not yet closed. */
    ghost var open: set<int>

    ghost predicate Valid()
      reads this
    {
      TableInvariant(counters, open)
    }

    constructor ()
      ensures Valid() && counters == map[] && open == {}
    {
      counters := map[];
      open := {};
    }

    /** `createCounters`: sets up a record for every task in `pids` and inserts
        it unless the task already has one. The descriptors opened for a task
        that already had a record are not closed: they stay open and owned by
        no record. `failures` holds, per task, the `errno` of each failed open,
        whose message is printed. */
    method CreateCounters(pids: set<Pid>, openAt: Pid -> GroupOpen) returns (failures: map<Pid, seq<int>>)
      requires Valid() && FreshOpens(pids, openAt, open)
      modifies this
      ensures Valid()
      ensures counters == CreatedTable(old(counters), pids, openAt)
      ensures open == old(open) + OpenedBy(pids, openAt)
      ensures failures == SetupFailures(pids, openAt)
    {
      var todo := pids;
      ghost var done: set<Pid> := {};
      failures := map[];
      CreateLoopStart(counters, open, pids, openAt);
      while todo != {}
        invariant CreateLoopInv(old(counters), old(open), pids, openAt, todo, done, counters, open, failures)
        decreases todo
      {
        var p :| p in todo;
        MoveOne(pids, todo, done, p);
        var setup := SetupCounter(NewPCounter(p), openAt(p));
        // `map::insert` keeps an existing record.
        var inserted := if p !in counters then counters[p := setup.counter] else counters;
        ghost var grown := open + OpenedFds(openAt(p));
        var reported := failures[p := setup.failures];
        CreateLoopStep(old(counters), old(open), pids, openAt, todo, done, counters, open, failures, p,
                       todo - {p}, done + {p}, inserted, grown, reported);
        counters, open, failures := inserted, grown, reported;
        todo := todo - {p};
        done := done + {p};
      }
      AllDone(pids, todo, done);
    }

    /** `cullCounters`: for each task in `pids` that has a record, closes the
        record's valid descriptors and erases it; other tasks are ignored.
        `closeErrors` are the descriptors whose close reported an error; they
        are reported and the culling goes on. */
    method CullCounters(pids: set<Pid>, closeResult: int -> int) returns (closeErrors: set<int>)
      requires Valid()
      modifies this
      ensures Valid()
      ensures counters == old(counters) - pids
      ensures open == old(open) - CulledFds(old(counters), pids)
      ensures closeErrors == FailedCloses(CulledFds(old(counters), pids), closeResult)
    {
      CullPreservesInvariant(counters, open, pids);
      var todo := pids;
      ghost var done: set<Pid> := {};
      closeErrors := {};
      assert CulledFds(counters, {}) == {};
      while todo != {}
        invariant CullLoopInv(old(counters), old(open), pids, closeResult, todo, done, counters, open, closeErrors)
        decreases todo
      {
        var p :| p in todo;
        MoveOne(pids, todo, done, p);
        if p in counters {
          var closed, errors := CloseCounterFds(counters[p].groupFd, closeResult);
          ClosedAreOwned(counters[p], closed, errors, closeResult);
          CullLoopStep(old(counters), old(open), pids, closeResult, todo, done, counters, open, closeErrors,
                       p, set fd | fd in closed, set fd | fd in errors);
          open := open - (set fd | fd in closed);
          closeErrors := closeErrors + (set fd | fd in errors);
          counters := counters - {p};
        } else {
          CullLoopStep(old(counters), old(open), pids, closeResult, todo, done, counters, open, closeErrors, p, {}, {});
        }
        todo := todo - {p};
        done := done + {p};
      }
      AllDone(pids, todo, done);
    }

    /** `readCounters`: reads every record's group as `ReadRecord` describes;
        no record is added or removed and nothing but the read values and
        buffers changes. */
    method ReadCounters(readAt: Pid -> ReadOutcome) returns (reports: map<Pid, ReadReport>)
      requires Valid() && ReadsWellFormed(counters, readAt)
      modifies this
      ensures Valid() && open == old(open)
      ensures counters == ReadTable(old(counters), readAt)
      ensures reports == ReadReports(old(counters), old(counters).Keys, readAt)
    {
      ReadPreservesInvariant(counters, open, readAt);
      ReadLoopEnds(counters, readAt);
      var todo := counters.Keys;
      ghost var done: set<Pid> := {};
      reports := map[];
      while todo != {}
        invariant ReadLoopInv(old(counters), readAt, todo, done, counters, reports)
        invariant open == old(open)
        decreases todo
      {
        var p :| p in todo;
        MoveOne(old(counters).Keys, todo, done, p);
        UnreadRecord(old(counters), readAt, todo, done, counters, reports, p);
        var c, report := ReadCounter(counters[p], readAt(p));
        var updated := counters[p := c];
        var reported := reports[p := report];
        ReadLoopStep(old(counters), readAt, todo, done, counters, reports, p, RecordRead(c, report),
                     todo - {p}, done + {p}, updated, reported);
        counters, reports := updated, reported;
        todo := todo - {p};
        done := done + {p};
      }
      AllDone(old(counters).Keys, todo, done);
    }

    /** `getPidDelta`: lists the tasks (`getProcessChildPids`, whose failure
        ends the program before the table changes), creates counters for the
        tasks that arrived, culls those of the tasks that departed (both taken
        against the previous `currentPids`), and returns the new `currentPids`. */
    method GetPidDelta(currentPids: set<Pid>, taskDirExists: bool, entries: seq<string>,
                       openAt: Pid -> GroupOpen, closeResult: int -> int)
      returns (r: Result<set<Pid>, string>)
      requires Valid() && EntriesFitPid(entries)
      requires FreshOpens(ListedPids(taskDirExists, entries) - currentPids, openAt, open)
      modifies this
      ensures Valid()
      ensures r.Failure? <==> taskDirExists && !AllConvert(entries)
      ensures r.Failure? ==> counters == old(counters) && open == old(open)
      ensures r.Success? ==> r.value == ListedPids(taskDirExists, entries)
      ensures r.Success? ==> counters == Reconciled(old(counters), currentPids, r.value, openAt)
      ensures r.Success? ==>
        open == old(open) + OpenedBy(r.value - currentPids, openAt)
                - CulledFds(CreatedTable(old(counters), r.value - currentPids, openAt), currentPids - r.value)
    {
      r := GetProcessChildPids(taskDirExists, entries);
      if r.Failure? {
        return;
      }
      var newPids := r.value;
      var arrived := newPids - currentPids;
      var _ := CreateCounters(arrived, openAt);
      var departed := currentPids - newPids;
      var _ := CullCounters(departed, closeResult);
    }
  }

}
