/** The per-task counter table (`std::map<pid_t, pcounter>`) as a value:
    what `createCounters`, `cullCounters`, `readCounters` and `getPidDelta`
    make of it, the invariant they keep, and `close_counter_fds`. The kernel
    is an input: `openAt(p)` answers the opens for task `p`, `readAt(p)` the
    read of its group, and `closeResult(fd)` is what `close(fd)` returns. */
module CounterMaps {
  import opened PerfTypes
  import opened CounterSetup
  import opened GroupRead
  import opened TaskIds
  import opened Wrappers

  /** Every record is filed under its own task id, owns only descriptors that
      are open, and no two records share a descriptor. */
  ghost predicate TableInvariant(m: map<Pid, PCounter>, open: set<int>) {
    && (forall p | p in m :: m[p].pid == p && OwnedFds(m[p]) <= open)
    && (forall p, q | p in m && q in m && p != q :: OwnedFds(m[p]) !! OwnedFds(m[q]))
  }

  /** The kernel hands out descriptors that are not open yet, and never the same
      one twice. */
  ghost predicate FreshOpens(pids: set<Pid>, openAt: Pid -> GroupOpen, open: set<int>) {
    && (forall p | p in pids :: OpenedFds(openAt(p)) !! open)
    && (forall p, q | p in pids && q in pids && p != q :: OpenedFds(openAt(p)) !! OpenedFds(openAt(q)))
  }

  /** Every descriptor opened while creating counters for `pids`. */
  ghost function OpenedBy(pids: set<Pid>, openAt: Pid -> GroupOpen): (fds: set<int>)
    ensures forall p | p in pids :: OpenedFds(openAt(p)) <= fds
    ensures forall fd | fd in fds :: exists p :: p in pids && fd in OpenedFds(openAt(p))
  {
    set p, fd | p in pids && fd in OpenedFds(openAt(p)) :: fd
  }

  /** The record `createCounters` builds for a task. */
  function NewRecord(p: Pid, openAt: Pid -> GroupOpen): (c: PCounter)
    ensures c.pid == p && OwnedFds(c) == OpenedFds(openAt(p))
  {
    SetupCounter(NewPCounter(p), openAt(p)).counter
  }

  /** The table after `createCounters(m, pids)`: `map::insert` adds a record
      for each task not yet in the table and never replaces an existing one. */
  function CreatedTable(m: map<Pid, PCounter>, pids: set<Pid>, openAt: Pid -> GroupOpen): (t: map<Pid, PCounter>)
    ensures t.Keys == m.Keys + pids
    ensures forall p | p in m :: t[p] == m[p]
    ensures forall p | p in pids && p !in m :: t[p] == NewRecord(p, openAt)
  {
    Filled(m, pids, p => NewRecord(p, openAt))
  }

  /** `m` with an entry `f(k)` added for every `k` in `s` it lacks. */
  function Filled<K, V>(m: map<K, V>, s: set<K>, f: K -> V): (t: map<K, V>)
    ensures t.Keys == m.Keys + s
  {
    map k | k in m.Keys + s :: if k in m then m[k] else f(k)
  }

  lemma FilledStep<K, V>(m: map<K, V>, done: set<K>, x: K, f: K -> V)
    requires x !in done
    ensures Filled(m, done + {x}, f) == if x !in m then Filled(m, done, f)[x := f(x)] else Filled(m, done, f)
  {
    var a := Filled(m, done + {x}, f);
    var t := Filled(m, done, f);
    var b := if x !in m then t[x := f(x)] else t;
    assert a.Keys == b.Keys by {
      AddOne(m.Keys, done, x);
    }
    forall k | k in a
      ensures a[k] == b[k]
    {
      if k != x && k !in m {
        assert k in done;
      }
    }
  }

  /** The failed opens `createCounters` reports, per task. */
  function SetupFailures(pids: set<Pid>, openAt: Pid -> GroupOpen): (fails: map<Pid, seq<int>>)
    ensures fails.Keys == pids
  {
    map p | p in pids :: FailedErrnos(openAt(p))
  }

  /** One more task handled by `createCounters`: its record is inserted
      unless the table already has one. */
  lemma CreatedTableStep(m: map<Pid, PCounter>, done: set<Pid>, p: Pid, openAt: Pid -> GroupOpen)
    requires p !in done
    ensures CreatedTable(m, done + {p}, openAt)
      == if p !in m then CreatedTable(m, done, openAt)[p := NewRecord(p, openAt)] else CreatedTable(m, done, openAt)
  {
    FilledStep(m, done, p, q => NewRecord(q, openAt));
  }

  /** One more task handled by `createCounters`: its descriptors join the
      opened ones. */
  lemma OpenedByStep(done: set<Pid>, p: Pid, openAt: Pid -> GroupOpen)
    ensures OpenedBy(done + {p}, openAt) == OpenedBy(done, openAt) + OpenedFds(openAt(p))
  {
    var a := OpenedBy(done + {p}, openAt);
    var b := OpenedBy(done, openAt) + OpenedFds(openAt(p));
    forall fd | fd in a
      ensures fd in b
    {
      var q :| q in done + {p} && fd in OpenedFds(openAt(q));
    }
  }

  /** One more task handled by `createCounters`: its failed opens join the
      others. */
  lemma SetupFailuresStep(done: set<Pid>, p: Pid, openAt: Pid -> GroupOpen)
    ensures SetupFailures(done + {p}, openAt) == SetupFailures(done, openAt)[p := FailedErrnos(openAt(p))]
  {
    var a := SetupFailures(done + {p}, openAt);
    var b := SetupFailures(done, openAt)[p := FailedErrnos(openAt(p))];
    assert a.Keys == b.Keys;
    forall q | q in a
      ensures a[q] == b[q]
    {
      if q != p {
        assert a[q] == FailedErrnos(openAt(q)) == b[q];
      }
    }
  }

  /** What holds after `createCounters(m0, pids)` has handled the tasks in
      `done`, with those in `todo` still to come. */
  ghost predicate CreateLoopInv(m0: map<Pid, PCounter>, open0: set<int>, pids: set<Pid>, openAt: Pid -> GroupOpen,
                                todo: set<Pid>, done: set<Pid>,
                                m: map<Pid, PCounter>, open: set<int>, msgs: map<Pid, seq<int>>)
  {
    && done == pids - todo && todo <= pids
    && TableInvariant(m, open) && FreshOpens(todo, openAt, open)
    && m == CreatedTable(m0, done, openAt)
    && open == open0 + OpenedBy(done, openAt)
    && msgs == SetupFailures(done, openAt)
  }

  lemma CreateLoopStart(m0: map<Pid, PCounter>, open0: set<int>, pids: set<Pid>, openAt: Pid -> GroupOpen)
    requires TableInvariant(m0, open0) && FreshOpens(pids, openAt, open0)
    ensures CreateLoopInv(m0, open0, pids, openAt, pids, {}, m0, open0, map[])
  {
    assert OpenedBy({}, openAt) == {};
    assert CreatedTable(m0, {}, openAt) == m0;
  }

  /** The state after `createCounters` handles task `p`: `setupCounter` on a
      fresh record, `map::insert` of the result, and its failure lines. */
  lemma CreateLoopStep(m0: map<Pid, PCounter>, open0: set<int>, pids: set<Pid>, openAt: Pid -> GroupOpen,
                       todo: set<Pid>, done: set<Pid>,
                       m: map<Pid, PCounter>, open: set<int>, msgs: map<Pid, seq<int>>, p: Pid,
                       todo': set<Pid>, done': set<Pid>,
                       m': map<Pid, PCounter>, open': set<int>, msgs': map<Pid, seq<int>>)
    requires CreateLoopInv(m0, open0, pids, openAt, todo, done, m, open, msgs) && p in todo
    requires todo' == todo - {p} && done' == done + {p}
    requires var setup := SetupCounter(NewPCounter(p), openAt(p));
      && m' == (if p !in m then m[p := setup.counter] else m)
      && open' == open + OpenedFds(openAt(p))
      && msgs' == msgs[p := setup.failures]
    ensures CreateLoopInv(m0, open0, pids, openAt, todo', done', m', open', msgs')
  {
    var setup := SetupCounter(NewPCounter(p), openAt(p));
    assert setup.counter == NewRecord(p, openAt) && setup.failures == FailedErrnos(openAt(p));
    InsertKeepsInvariant(m, open, todo, p, openAt);
    CreatedTableStep(m0, done, p, openAt);
    OpenedByStep(done, p, openAt);
    SetupFailuresStep(done, p, openAt);
    MoveOne(pids, todo, done, p);
    UnionAssoc(open0, OpenedBy(done, openAt), OpenedFds(openAt(p)));
  }

  /** Moving one task from the ones to come to the ones handled. */
  lemma MoveOne<T>(all: set<T>, todo: set<T>, done: set<T>, x: T)
    requires done == all - todo && todo <= all && x in todo
    ensures done + {x} == all - (todo - {x}) && todo - {x} <= all && x !in done && todo - {x} < todo
  {
  }

  lemma AddOne<T>(keys: set<T>, done: set<T>, x: T)
    ensures keys + (done + {x}) == if x in keys then keys + done else (keys + done) + {x}
  {
  }

  /** Nothing left to come: every task has been handled. */
  lemma AllDone<T>(all: set<T>, todo: set<T>, done: set<T>)
    requires done == all - todo && todo == {}
    ensures done == all
  {
  }

  lemma UnionAssoc<T>(a: set<T>, b: set<T>, c: set<T>)
    ensures (a + b) + c == a + (b + c)
  {
  }

  /** Handling one task keeps the invariant, and the tasks still to be handled
      still get fresh descriptors. */
  lemma InsertKeepsInvariant(m: map<Pid, PCounter>, open: set<int>, todo: set<Pid>, p: Pid, openAt: Pid -> GroupOpen)
    requires TableInvariant(m, open) && FreshOpens(todo, openAt, open) && p in todo
    ensures TableInvariant(if p !in m then m[p := NewRecord(p, openAt)] else m, open + OpenedFds(openAt(p)))
    ensures FreshOpens(todo - {p}, openAt, open + OpenedFds(openAt(p)))
  {
  }

  /** Creating counters keeps the table invariant, opened descriptors and
      leaked ones included. */
  lemma CreatePreservesInvariant(m: map<Pid, PCounter>, open: set<int>, pids: set<Pid>, openAt: Pid -> GroupOpen)
    requires TableInvariant(m, open) && FreshOpens(pids, openAt, open)
    ensures TableInvariant(CreatedTable(m, pids, openAt), open + OpenedBy(pids, openAt))
  {
    var t := CreatedTable(m, pids, openAt);
    forall p, q | p in t && q in t && p != q
      ensures OwnedFds(t[p]) !! OwnedFds(t[q])
    {
      if p !in m && q !in m {
        assert OpenedFds(openAt(p)) !! OpenedFds(openAt(q));
      }
    }
  }

  /** Every descriptor `cullCounters(m, pids)` closes: the valid descriptors of
      the culled records. */
  ghost function CulledFds(m: map<Pid, PCounter>, pids: set<Pid>): (fds: set<int>)
    ensures forall p | p in pids && p in m :: OwnedFds(m[p]) <= fds
    ensures forall fd | fd in fds :: ValidFd(fd) && exists p :: p in pids && p in m && fd in OwnedFds(m[p])
  {
    set p, fd | p in pids && p in m && fd in OwnedFds(m[p]) :: fd
  }

  /** The descriptors whose `close` reports an error. */
  ghost function FailedCloses(fds: set<int>, closeResult: int -> int): set<int> {
    set fd | fd in fds && closeResult(fd) != 0
  }

  /** One more task handled by `cullCounters`. */
  lemma CullStep(m: map<Pid, PCounter>, done: set<Pid>, p: Pid)
    requires p !in done
    ensures CulledFds(m, done + {p}) == CulledFds(m, done) + (if p in m then OwnedFds(m[p]) else {})
  {
  }

  /** What holds after `cullCounters(m0, pids)` has handled the tasks in
      `done`, with those in `todo` still to come. */
  ghost predicate CullLoopInv(m0: map<Pid, PCounter>, open0: set<int>, pids: set<Pid>, closeResult: int -> int,
                              todo: set<Pid>, done: set<Pid>, m: map<Pid, PCounter>, open: set<int>, errs: set<int>)
  {
    && done == pids - todo && todo <= pids
    && m == m0 - done
    && open == open0 - CulledFds(m0, done)
    && errs == FailedCloses(CulledFds(m0, done), closeResult)
  }

  lemma CullLoopStep(m0: map<Pid, PCounter>, open0: set<int>, pids: set<Pid>, closeResult: int -> int,
                     todo: set<Pid>, done: set<Pid>, m: map<Pid, PCounter>, open: set<int>, errs: set<int>,
                     p: Pid, closed: set<int>, failed: set<int>)
    requires CullLoopInv(m0, open0, pids, closeResult, todo, done, m, open, errs) && p in todo
    requires p in m ==> closed == OwnedFds(m[p]) && failed == FailedCloses(closed, closeResult)
    ensures p in m <==> p in m0
    ensures CullLoopInv(m0, open0, pids, closeResult, todo - {p}, done + {p},
                        if p in m then m - {p} else m,
                        if p in m then open - closed else open,
                        if p in m then errs + failed else errs)
  {
    MoveOne(pids, todo, done, p);
    CullStep(m0, done, p);
    var culled := CulledFds(m0, done);
    var extra := if p in m0 then OwnedFds(m0[p]) else {};
    assert m0 - (done + {p}) == if p in m0 then (m0 - done) - {p} else m0 - done;
    assert open0 - (culled + extra) == (open0 - culled) - extra;
    assert FailedCloses(culled + extra, closeResult) == FailedCloses(culled, closeResult) + FailedCloses(extra, closeResult);
  }

  /** The descriptors `close_counter_fds` closed are the record's own. */
  lemma ClosedAreOwned(c: PCounter, closed: seq<int>, errors: seq<int>, closeResult: int -> int)
    requires forall fd :: fd in closed <==> fd in c.groupFd && ValidFd(fd)
    requires forall fd :: fd in errors <==> fd in closed && closeResult(fd) != 0
    ensures (set fd | fd in closed) == OwnedFds(c)
    ensures (set fd | fd in errors) == FailedCloses(OwnedFds(c), closeResult)
  {
    assert forall fd :: fd in (set fd | fd in closed) <==> fd in OwnedFds(c);
    assert forall fd :: fd in (set fd | fd in errors) <==> fd in FailedCloses(OwnedFds(c), closeResult);
  }

  /** Culling keeps the invariant; the culled records' descriptors are no
      longer open while every surviving record's descriptors still are, and no
      console descriptor is ever closed. */
  lemma CullPreservesInvariant(m: map<Pid, PCounter>, open: set<int>, pids: set<Pid>)
    requires TableInvariant(m, open)
    ensures TableInvariant(m - pids, open - CulledFds(m, pids))
    ensures forall p | p in m && p !in pids :: OwnedFds(m[p]) !! CulledFds(m, pids)
    ensures forall fd | fd in CulledFds(m, pids) :: fd > STDERR_FILENO
  {
  }

  /** Culling tasks that have no record changes nothing and closes nothing. */
  lemma CullAbsentIsNoOp(m: map<Pid, PCounter>, pids: set<Pid>)
    requires pids !! m.Keys
    ensures m - pids == m && CulledFds(m, pids) == {}
  {
    assert (m - pids).Keys == m.Keys;
  }

  /** A record whose counters were never opened owns no descriptor, so culling
      it closes nothing. */
  lemma CullFreshRecord(m: map<Pid, PCounter>, p: Pid)
    requires p in m && m[p] == NewPCounter(p)
    ensures CulledFds(m, {p}) == {}
  {
    NewPCounterOwnsNothing(p);
  }

  /** Culling the tasks that were just created closes exactly the descriptors
      their creation opened. */
  lemma CulledCreatedFds(m: map<Pid, PCounter>, pids: set<Pid>, openAt: Pid -> GroupOpen)
    requires pids !! m.Keys
    ensures CulledFds(CreatedTable(m, pids, openAt), pids) == OpenedBy(pids, openAt)
  {
    var t := CreatedTable(m, pids, openAt);
    forall fd | fd in CulledFds(t, pids)
      ensures fd in OpenedBy(pids, openAt)
    {
      var p :| p in pids && p in t && fd in OwnedFds(t[p]);
      assert t[p] == NewRecord(p, openAt);
    }
    forall fd | fd in OpenedBy(pids, openAt)
      ensures fd in CulledFds(t, pids)
    {
      var p :| p in pids && fd in OpenedFds(openAt(p));
      assert t[p] == NewRecord(p, openAt);
    }
  }

  /** Creating counters for tasks the table does not hold and culling the same
      tasks straight after gives back the table, and closes every descriptor
      the creation opened and no other, so the open descriptors are as before. */
  lemma CreateThenCull(m: map<Pid, PCounter>, open: set<int>, pids: set<Pid>, openAt: Pid -> GroupOpen)
    requires FreshOpens(pids, openAt, open) && pids !! m.Keys
    ensures CreatedTable(m, pids, openAt) - pids == m
    ensures CulledFds(CreatedTable(m, pids, openAt), pids) == OpenedBy(pids, openAt)
    ensures (open + OpenedBy(pids, openAt)) - CulledFds(CreatedTable(m, pids, openAt), pids) == open
  {
    var t := CreatedTable(m, pids, openAt);
    assert (t - pids).Keys == m.Keys;
    CulledCreatedFds(m, pids, openAt);
    assert OpenedBy(pids, openAt) !! open;
  }

  /** `close_counter_fds`: closes each valid descriptor of the pair in order,
      whatever an earlier close returned; `errors` are the ones whose close
      reported an error (printed, not fatal). */
  method CloseCounterFds(fds: FdPair, closeResult: int -> int) returns (closed: seq<int>, errors: seq<int>)
    ensures forall fd :: fd in closed <==> fd in fds && ValidFd(fd)
    ensures closed == (if ValidFd(fds[0]) then [fds[0]] else []) + (if ValidFd(fds[1]) then [fds[1]] else [])
    ensures forall fd :: fd in errors <==> fd in closed && closeResult(fd) != 0
  {
    closed, errors := [], [];
    for i := 0 to OBSERVED_EVENTS
      invariant forall fd :: fd in closed <==> fd in fds[..i] && ValidFd(fd)
      invariant closed == (if i > 0 && ValidFd(fds[0]) then [fds[0]] else [])
                        + (if i > 1 && ValidFd(fds[1]) then [fds[1]] else [])
      invariant forall fd :: fd in errors <==> fd in closed && closeResult(fd) != 0
    {
      var fd := fds[i];
      if ValidFd(fd) {
        closed := closed + [fd];
        if closeResult(fd) != 0 {
          errors := errors + [fd];
        }
      }
      assert fds[..i + 1] == fds[..i] + [fds[i]];
    }
    assert fds[..OBSERVED_EVENTS] == fds;
  }

  /** The kernel answers a full-size read of every valid group leader in the
      table with a well-formed buffer. */
  predicate ReadsWellFormed(m: map<Pid, PCounter>, readAt: Pid -> ReadOutcome) {
    forall p | p in m && ValidFd(m[p].groupFd[CYCLES]) :: WellFormedRead(readAt(p))
  }

  /** The table after `readCounters`: each record read as `ReadRecord` says. */
  function ReadTable(m: map<Pid, PCounter>, readAt: Pid -> ReadOutcome): (t: map<Pid, PCounter>)
    requires ReadsWellFormed(m, readAt)
    ensures t.Keys == m.Keys
  {
    map p | p in m :: ReadRecord(m[p], readAt(p)).counter
  }

  /** Reading keeps the invariant: no record changes its task id or its
      descriptors. */
  lemma ReadPreservesInvariant(m: map<Pid, PCounter>, open: set<int>, readAt: Pid -> ReadOutcome)
    requires TableInvariant(m, open) && ReadsWellFormed(m, readAt)
    ensures TableInvariant(ReadTable(m, readAt), open)
    ensures forall p | p in m :: OwnedFds(ReadTable(m, readAt)[p]) == OwnedFds(m[p])
  {
    forall p | p in m
      ensures OwnedFds(ReadTable(m, readAt)[p]) == OwnedFds(m[p])
    {
      assert ReadTable(m, readAt)[p].groupFd == m[p].groupFd;
    }
  }

  /** The table part-way through `readCounters`: the records in `done` read,
      the others as they were. */
  function PartlyRead(m: map<Pid, PCounter>, done: set<Pid>, readAt: Pid -> ReadOutcome): (t: map<Pid, PCounter>)
    requires ReadsWellFormed(m, readAt)
    ensures t.Keys == m.Keys
  {
    map p | p in m :: if p in done then ReadRecord(m[p], readAt(p)).counter else m[p]
  }

  /** The reports for the records in `done`. */
  function ReadReports(m: map<Pid, PCounter>, done: set<Pid>, readAt: Pid -> ReadOutcome): (r: map<Pid, ReadReport>)
    requires ReadsWellFormed(m, readAt) && done <= m.Keys
    ensures r.Keys == done
  {
    map p | p in done :: ReadRecord(m[p], readAt(p)).report
  }

  /** One more record read: the table part-way through gains its new value. */
  lemma PartlyReadStep(m: map<Pid, PCounter>, done: set<Pid>, p: Pid, readAt: Pid -> ReadOutcome)
    requires ReadsWellFormed(m, readAt) && p in m && p !in done
    ensures PartlyRead(m, done, readAt)[p] == m[p]
    ensures PartlyRead(m, done + {p}, readAt) == PartlyRead(m, done, readAt)[p := ReadRecord(m[p], readAt(p)).counter]
  {
    var a, b := PartlyRead(m, done + {p}, readAt), PartlyRead(m, done, readAt)[p := ReadRecord(m[p], readAt(p)).counter];
    assert a.Keys == b.Keys;
    forall q | q in a
      ensures a[q] == b[q]
    {
    }
  }

  /** One more record read: its report joins the others. */
  lemma ReadReportsStep(m: map<Pid, PCounter>, done: set<Pid>, p: Pid, readAt: Pid -> ReadOutcome)
    requires ReadsWellFormed(m, readAt) && done <= m.Keys && p in m && p !in done
    ensures ReadReports(m, done + {p}, readAt) == ReadReports(m, done, readAt)[p := ReadRecord(m[p], readAt(p)).report]
  {
    var x, y := ReadReports(m, done + {p}, readAt), ReadReports(m, done, readAt)[p := ReadRecord(m[p], readAt(p)).report];
    assert x.Keys == y.Keys;
    forall q | q in x
      ensures x[q] == y[q]
    {
    }
  }

  /** What holds after `readCounters(m0)` has read the records in `done`, with
      those in `todo` still to come. */
  ghost predicate ReadLoopInv(m0: map<Pid, PCounter>, readAt: Pid -> ReadOutcome, todo: set<Pid>, done: set<Pid>,
                              m: map<Pid, PCounter>, reports: map<Pid, ReadReport>)
  {
    && done == m0.Keys - todo && todo <= m0.Keys
    && ReadsWellFormed(m0, readAt)
    && m == PartlyRead(m0, done, readAt)
    && reports == ReadReports(m0, done, readAt)
  }

  /** A record still to be read is as it was. */
  lemma UnreadRecord(m0: map<Pid, PCounter>, readAt: Pid -> ReadOutcome, todo: set<Pid>, done: set<Pid>,
                     m: map<Pid, PCounter>, reports: map<Pid, ReadReport>, p: Pid)
    requires ReadLoopInv(m0, readAt, todo, done, m, reports) && p in todo
    ensures p in m0 && p in m && m[p] == m0[p]
  {
  }

  /** The state after `readCounters` reads the record of task `p`. */
  lemma ReadLoopStep(m0: map<Pid, PCounter>, readAt: Pid -> ReadOutcome, todo: set<Pid>, done: set<Pid>,
                     m: map<Pid, PCounter>, reports: map<Pid, ReadReport>, p: Pid, read: RecordRead,
                     todo': set<Pid>, done': set<Pid>, m': map<Pid, PCounter>, reports': map<Pid, ReadReport>)
    requires ReadLoopInv(m0, readAt, todo, done, m, reports) && p in todo
    requires p in m0 && read == ReadRecord(m0[p], readAt(p))
    requires todo' == todo - {p} && done' == done + {p}
    requires m' == m[p := read.counter] && reports' == reports[p := read.report]
    ensures ReadLoopInv(m0, readAt, todo', done', m', reports')
  {
    MoveOne(m0.Keys, todo, done, p);
    PartlyReadStep(m0, done, p, readAt);
    ReadReportsStep(m0, done, p, readAt);
  }

  lemma ReadLoopEnds(m: map<Pid, PCounter>, readAt: Pid -> ReadOutcome)
    requires ReadsWellFormed(m, readAt)
    ensures PartlyRead(m, {}, readAt) == m
    ensures PartlyRead(m, m.Keys, readAt) == ReadTable(m, readAt)
    ensures ReadReports(m, {}, readAt) == map[]
  {
  }

  /** The tasks a listing names: none without a task directory, and the
      converted names when every one converts. */
  function ListedPids(taskDirExists: bool, entries: seq<string>): (pids: set<Pid>)
    requires EntriesFitPid(entries)
    ensures !taskDirExists ==> pids == {}
    ensures taskDirExists && AllConvert(entries) ==> pids == TaskIdSet(entries)
  {
    if taskDirExists && AllConvert(entries) then TaskIdSet(entries) else {}
  }

  /** The table after `getPidDelta`: counters created for the arrived tasks,
      then those of the departed tasks culled. */
  function Reconciled(m: map<Pid, PCounter>, current: set<Pid>, listed: set<Pid>, openAt: Pid -> GroupOpen): (t: map<Pid, PCounter>)
    ensures t.Keys == (m.Keys + (listed - current)) - (current - listed)
  {
    CreatedTable(m, listed - current, openAt) - (current - listed)
  }

  /** While the table's keys are the known tasks, reconciling makes them the
      newly listed tasks, and tasks listed both times keep their records. */
  lemma ReconciledKeys(m: map<Pid, PCounter>, current: set<Pid>, listed: set<Pid>, openAt: Pid -> GroupOpen)
    requires m.Keys == current
    ensures Reconciled(m, current, listed, openAt).Keys == listed
    ensures forall p | p in current && p in listed :: Reconciled(m, current, listed, openAt)[p] == m[p]
    ensures forall p | p in listed && p !in current :: Reconciled(m, current, listed, openAt)[p] == NewRecord(p, openAt)
    ensures (listed - current) !! (current - listed)
  {
    var t := Reconciled(m, current, listed, openAt);
    assert t.Keys == listed;
  }

  /** Reconciling again against an unchanged listing changes nothing. */
  lemma ReconcileIdempotent(m: map<Pid, PCounter>, current: set<Pid>, listed: set<Pid>, openAt: Pid -> GroupOpen)
    ensures var t := Reconciled(m, current, listed, openAt);
      Reconciled(t, listed, listed, openAt) == t
  {
    var t := Reconciled(m, current, listed, openAt);
    NothingNew(t, openAt);
    NothingRemoved(CreatedTable(t, {}, openAt), listed);
  }

  /** Creating counters for no task changes nothing. */
  lemma NothingNew(m: map<Pid, PCounter>, openAt: Pid -> GroupOpen)
    ensures CreatedTable(m, {}, openAt) == m
  {
    var t := CreatedTable(m, {}, openAt);
    assert t.Keys == m.Keys;
  }

  lemma NothingRemoved<K, V>(m: map<K, V>, s: set<K>)
    ensures s - s == {} && m - (s - s) == m
  {
    assert s - s == {};
    assert (m - {}).Keys == m.Keys;
  }

  /** Known tasks {1, 2, 3}, listed tasks {2, 3, 4}: task 1 is culled, task 4
      created, tasks 2 and 3 untouched. */
  lemma ReconcileScenario(m: map<Pid, PCounter>, openAt: Pid -> GroupOpen)
    requires m.Keys == {1, 2, 3}
    ensures var t := Reconciled(m, {1, 2, 3}, {2, 3, 4}, openAt);
      t.Keys == {2, 3, 4} && t[2] == m[2] && t[3] == m[3] && t[4] == NewRecord(4, openAt)
  {
    ReconciledKeys(m, {1, 2, 3}, {2, 3, 4}, openAt);
  }

  /** Twenty tasks 0 … 19, task i holding descriptors 3 + 2i and 4 + 2i. */
  function TwentyRecords(): (m: map<Pid, PCounter>)
    ensures forall p: Pid :: p in m <==> 0 <= p < 20
  {
    map p: Pid | 0 <= p < 20 :: NewPCounter(p).(groupFd := [STDERR_FILENO + 2 * p + 1, STDERR_FILENO + 2 * p + 2])
  }

  lemma TwentyRecordsFds(p: Pid)
    requires 0 <= p < 20
    ensures OwnedFds(TwentyRecords()[p]) == {STDERR_FILENO + 2 * p + 1, STDERR_FILENO + 2 * p + 2}
  {
    assert TwentyRecords()[p].groupFd == [STDERR_FILENO + 2 * p + 1, STDERR_FILENO + 2 * p + 2];
  }

  /** The even ids 0, 2, …, 38. */
  function EvenIds(): (s: set<Pid>)
  {
    set i: Pid | 0 <= i < 20 :: (2 * i) as Pid
  }

  lemma EvenIdsAreEven()
    ensures forall p: Pid :: p in EvenIds() <==> 0 <= p < 40 && p % 2 == 0
  {
    forall p: Pid | 0 <= p < 40 && p % 2 == 0
      ensures p in EvenIds()
    {
      var i: Pid := p / 2;
      assert p == (2 * i) as Pid;
    }
  }

  /** The odd ids below 20. */
  const ODD_IDS: set<Pid> := {1, 3, 5, 7, 9, 11, 13, 15, 17, 19}

  lemma OddIdsAreOdd()
    ensures forall p: int :: p in ODD_IDS <==> 0 <= p < 20 && p % 2 == 1
  {
  }

  /** Culling the even ids 0 … 38 from the twenty tasks leaves the ten odd
      tasks. */
  lemma CullEvenTasksLeavesOdd()
    ensures (TwentyRecords() - EvenIds()).Keys == ODD_IDS
  {
    EvenIdsAreEven();
    OddIdsAreOdd();
    var m := TwentyRecords() - EvenIds();
    assert forall p: Pid :: p in m <==> p in ODD_IDS;
  }

  /** Ten records are left. */
  lemma CullEvenTasksLeavesTen()
    ensures |TwentyRecords() - EvenIds()| == 10
  {
    CullEvenTasksLeavesOdd();
    OddIdsCount();
    CardOfKeys(TwentyRecords() - EvenIds());
  }

  lemma OddIdsCount()
    ensures |ODD_IDS| == 10
  {
  }

  lemma CardOfKeys<K, V>(m: map<K, V>)
    ensures |m| == |m.Keys|
  {
  }

  /** Culling the even ids closes exactly the descriptors of the even tasks
      among the twenty. */
  lemma CullEvenTasksClosesEven()
    ensures forall p: Pid | 0 <= p < 20 ::
      && (STDERR_FILENO + 2 * p + 1 in CulledFds(TwentyRecords(), EvenIds()) <==> p % 2 == 0)
      && (STDERR_FILENO + 2 * p + 2 in CulledFds(TwentyRecords(), EvenIds()) <==> p % 2 == 0)
  {
    forall p: Pid | 0 <= p < 20
      ensures STDERR_FILENO + 2 * p + 1 in CulledFds(TwentyRecords(), EvenIds()) <==> p % 2 == 0
      ensures STDERR_FILENO + 2 * p + 2 in CulledFds(TwentyRecords(), EvenIds()) <==> p % 2 == 0
    {
      TwentyRecordsFds(p);
      CulledTwentyFd(p, STDERR_FILENO + 2 * p + 1);
      CulledTwentyFd(p, STDERR_FILENO + 2 * p + 2);
    }
  }

  /** A descriptor of task `p` is culled exactly when `p` is even. */
  lemma CulledTwentyFd(p: Pid, fd: int)
    requires 0 <= p < 20 && fd in OwnedFds(TwentyRecords()[p])
    ensures fd in CulledFds(TwentyRecords(), EvenIds()) <==> p % 2 == 0
  {
    EvenIdsAreEven();
    var m := TwentyRecords();
    TwentyRecordsFds(p);
    if p % 2 == 0 {
      assert p in EvenIds();
    } else {
      forall q | q in EvenIds() && q in m
        ensures fd !in OwnedFds(m[q])
      {
        TwentyRecordsFds(q);
      }
    }
  }
}
