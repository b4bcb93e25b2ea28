/** Opening the counter group of one task: `configureStruct`, `setupEvent` and
    `setupCounter`. The kernel's answers are inputs: for each
    `perf_event_open` the descriptor it returns and `errno` afterwards, and the
    event id that `ioctl(PERF_EVENT_IOC_ID)` writes (`None` when that ioctl
    fails and writes nothing). */
module CounterSetup {
  import opened PerfTypes
  import opened ErrorMessages
  import opened Wrappers

  const PERF_TYPE_HARDWARE: nat := 0
  const PERF_COUNT_HW_CPU_CYCLES: nat := 0
  const PERF_COUNT_HW_INSTRUCTIONS: nat := 1
  const PERF_FORMAT_ID: bv64 := 4
  const PERF_FORMAT_GROUP: bv64 := 8

  /** `configureStruct`: a disabled event of the given type whose reads return
      the whole group, each value tagged with its event id. */
  function ConfigureStruct(perftype: nat, config: nat): (attr: EventAttr)
    ensures attr.typ == perftype && attr.config == config
    ensures attr.disabled
    ensures attr.readFormat == PERF_FORMAT_GROUP | PERF_FORMAT_ID
    ensures attr.readFormat & PERF_FORMAT_GROUP != 0 && attr.readFormat & PERF_FORMAT_ID != 0
  {
    EventAttr(perftype, config, true, PERF_FORMAT_GROUP | PERF_FORMAT_ID)
  }

  /** The kernel's answer to one `perf_event_open` and the id query after it. */
  datatype OpenOutcome = OpenOutcome(fd: int, errno: int, kernelId: Option<u64>)

  /** The kernel's answers for the two events of one task's group. */
  datatype GroupOpen = GroupOpen(cycles: OpenOutcome, instructions: OpenOutcome)

  /** The arguments of one `perf_event_open(attr, pid, cpu, group_fd, flags)`. */
  datatype OpenCall = OpenCall(attr: EventAttr, pid: Pid, cpu: int, groupFd: int, flags: int)

  /** The updated record, the call that was made and, when the open failed,
      the `errno` whose `lookupErrorMessage` line is printed. */
  datatype EventSetup = EventSetup(counter: PCounter, call: OpenCall, failure: Option<int>)

  /** `setupEvent(s, k, group_fd)`: stores the returned descriptor in slot `k`;
      only a valid descriptor has its event id fetched into `event_id[k]`, an
      invalid one leaves the id alone and reports `lookupErrorMessage(errno)`. */
  function SetupEvent(s: PCounter, k: nat, groupFd: int, outcome: OpenOutcome): (r: EventSetup)
    requires k < OBSERVED_EVENTS
    ensures r.call == OpenCall(s.perfstruct[k], s.pid, -1, groupFd, 0)
    ensures r.counter.groupFd == s.groupFd[k := outcome.fd]
    ensures r.counter.pid == s.pid && r.counter.perfstruct == s.perfstruct
    ensures r.counter.eventValue == s.eventValue && r.counter.eventData == s.eventData
    ensures forall j :: 0 <= j < OBSERVED_EVENTS && j != k ==> r.counter.eventId[j] == s.eventId[j]
    ensures r.counter.eventId[k] == (if ValidFd(outcome.fd) && outcome.kernelId.Some?
                                     then outcome.kernelId.value else s.eventId[k])
    ensures r.failure == (if ValidFd(outcome.fd) then None else Some(outcome.errno))
  {
    var withFd := s.(groupFd := s.groupFd[k := outcome.fd]);
    var call := OpenCall(s.perfstruct[k], s.pid, -1, groupFd, 0);
    if ValidFd(outcome.fd) then
      var withId := if outcome.kernelId.Some? then withFd.(eventId := withFd.eventId[k := outcome.kernelId.value]) else withFd;
      EventSetup(withId, call, None)
    else
      EventSetup(withFd, call, Some(outcome.errno))
  }

  /** The record after `setupCounter`, the two calls in the order they were
      made and the `errno` of each failed open in the order its line was
      printed. */
  datatype CounterSetupResult = CounterSetupResult(counter: PCounter, calls: seq<OpenCall>, failures: seq<int>)

  function Failures(f: Option<int>): seq<int> {
    if f.Some? then [f.value] else []
  }

  /** The `errno` of each event of a group whose open failed, cycles first. */
  function FailedErrnos(g: GroupOpen): (errnos: seq<int>)
    ensures |errnos| <= 2
    ensures errnos == [] <==> ValidFd(g.cycles.fd) && ValidFd(g.instructions.fd)
  {
    (if ValidFd(g.cycles.fd) then [] else [g.cycles.errno])
    + (if ValidFd(g.instructions.fd) then [] else [g.instructions.errno])
  }

  /** The lines `setupEvent` prints for the failed opens, in order. */
  function PrintedLines(errnos: seq<int>): (lines: seq<string>)
    ensures |lines| == |errnos|
  {
    seq(|errnos|, i requires 0 <= i < |errnos| => LookupErrorMessage(errnos[i]))
  }

  /** Each printed line names the code it was printed for. */
  lemma PrintedLinesNameErrnos(errnos: seq<int>)
    ensures forall i :: 0 <= i < |errnos| ==> ErrnoOfMessage(PrintedLines(errnos)[i]) == Some(errnos[i])
  {
    forall i | 0 <= i < |errnos|
      ensures ErrnoOfMessage(PrintedLines(errnos)[i]) == Some(errnos[i])
    {
      ErrnoOfLookupErrorMessage(errnos[i]);
    }
  }

  /** The descriptors the kernel handed out for one group. */
  function OpenedFds(g: GroupOpen): (fds: set<int>)
    ensures forall fd :: fd in fds <==> ValidFd(fd) && (fd == g.cycles.fd || fd == g.instructions.fd)
  {
    (if ValidFd(g.cycles.fd) then {g.cycles.fd} else {}) + (if ValidFd(g.instructions.fd) then {g.instructions.fd} else {})
  }

  /** `setupCounter`: the cycles event is opened first with no group (-1) and
      becomes the group leader; the instructions event is opened with the
      leader's descriptor as its group. Both are created disabled with the
      group-and-id read format. */
  function SetupCounter(s: PCounter, g: GroupOpen): (r: CounterSetupResult)
    ensures |r.calls| == 2
    ensures r.calls[0].groupFd == -1
    ensures r.calls[1].groupFd == r.counter.groupFd[CYCLES] == g.cycles.fd
    ensures r.counter.groupFd[INSTRUCTIONS] == g.instructions.fd
    ensures r.calls[0].attr.config == PERF_COUNT_HW_CPU_CYCLES
    ensures r.calls[1].attr.config == PERF_COUNT_HW_INSTRUCTIONS
    ensures forall i :: 0 <= i < 2 ==>
      r.calls[i].pid == s.pid && r.calls[i].cpu == -1 && r.calls[i].attr.typ == PERF_TYPE_HARDWARE
      && r.calls[i].attr.disabled && r.calls[i].attr.readFormat == PERF_FORMAT_GROUP | PERF_FORMAT_ID
    ensures r.counter.pid == s.pid && r.counter.eventValue == s.eventValue && r.counter.eventData == s.eventData
    ensures OwnedFds(r.counter) == OpenedFds(g)
    ensures ValidFd(g.cycles.fd) && g.cycles.kernelId.Some? ==> r.counter.eventId[CYCLES] == g.cycles.kernelId.value
    ensures !(ValidFd(g.cycles.fd) && g.cycles.kernelId.Some?) ==> r.counter.eventId[CYCLES] == s.eventId[CYCLES]
    ensures ValidFd(g.instructions.fd) && g.instructions.kernelId.Some? ==>
      r.counter.eventId[INSTRUCTIONS] == g.instructions.kernelId.value
    ensures !(ValidFd(g.instructions.fd) && g.instructions.kernelId.Some?) ==>
      r.counter.eventId[INSTRUCTIONS] == s.eventId[INSTRUCTIONS]
    ensures r.failures == FailedErrnos(g)
  {
    var s1 := s.(perfstruct := s.perfstruct[CYCLES := ConfigureStruct(PERF_TYPE_HARDWARE, PERF_COUNT_HW_CPU_CYCLES)]);
    var e1 := SetupEvent(s1, CYCLES, -1, g.cycles);
    var s2 := e1.counter.(perfstruct := e1.counter.perfstruct[INSTRUCTIONS := ConfigureStruct(PERF_TYPE_HARDWARE, PERF_COUNT_HW_INSTRUCTIONS)]);
    var e2 := SetupEvent(s2, INSTRUCTIONS, s2.groupFd[CYCLES], g.instructions);
    CounterSetupResult(e2.counter, [e1.call, e2.call], Failures(e1.failure) + Failures(e2.failure))
  }

  /** A fully successful setup of a fresh record holds two distinct event ids
      when the kernel hands out distinct ids. */
  lemma SetupCounterIds(p: Pid, g: GroupOpen)
    requires ValidFd(g.cycles.fd) && ValidFd(g.instructions.fd)
    requires g.cycles.kernelId.Some? && g.instructions.kernelId.Some?
    requires g.cycles.kernelId != g.instructions.kernelId
    ensures var c := SetupCounter(NewPCounter(p), g).counter;
      c.eventId[CYCLES] != c.eventId[INSTRUCTIONS] && SetupCounter(NewPCounter(p), g).failures == []
  {
  }
}
