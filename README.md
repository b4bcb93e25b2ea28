# Per-task performance counters, modelled in Dafny

This project models the core of a small Linux library that measures cycles and
instructions for every task (thread) of a process. The library has three parts:

- **Task discovery.** It lists the process's task directory under procfs and
  turns each entry name into a task id (`getProcessChildPids`, `safe_strtoul`).
- **Counter groups.** For each task it opens a perf event group. The cycles
  event leads the group and the instructions event joins it (`configureStruct`,
  `setupEvent`, `setupCounter`). On failure it prints a fixed message per
  `errno` (`lookupErrorMessage`).
- **The counter table.** It keeps a `std::map<pid_t, pcounter>` of
  per-task records, which the following operations update:
  - `createCounters`;
  - `cullCounters`, which closes descriptors through `close_counter_fds`;
  - `readCounters`, which does one group read per record and matches each
    (value, id) pair by event id;
  - `getPidDelta`, which creates counters for arrived tasks and culls those of
    departed ones.

The kernel and the file system are inputs of the model, never called:

- `perf_event_open` and its `PERF_EVENT_IOC_ID` query are answered by
  `openAt: Pid -> GroupOpen`.
- The group `read` is answered by `readAt: Pid -> ReadOutcome`.
- `close` is answered by `closeResult: int -> int`.
- The task directory is given as a flag (whether it exists) plus the entry
  names, already stripped of their directory prefix.

The modules, in dependency order:

| module | file | models |
|---|---|---|
| `Wrappers` | `wrappers.dfy` | `Option` and `Result` |
| `PerfTypes` | `perf_types.dfy` | constants, `pcounter`, `read_format` and the byte layout of the read buffer |
| `Numeric` | `numeric.dfy` | decimal text as written by `std::to_string` and read by `strtoul` |
| `ErrorMessages` | `error_messages.dfy` | `lookupErrorMessage` and its inverse |
| `TaskIds` | `task_ids.dfy` | `safe_strtoul` and `getProcessChildPids` |
| `CounterSetup` | `counter_setup.dfy` | `configureStruct`, `setupEvent`, `setupCounter` |
| `GroupRead` | `group_read.dfy` | one iteration of `readCounters` |
| `CounterMaps` | `counter_maps.dfy` | the table as a value: what each table operation makes of it, the invariant they keep, `close_counter_fds`, and the test scenarios |
| `CounterTable` | `counter_table.dfy` | class `CounterTable`, whose map field is updated in place by `CreateCounters`, `CullCounters`, `ReadCounters` and `GetPidDelta` |

The class has two fields:

- `counters`, the map;
- a ghost set `open`, the descriptors opened through the table and not yet
  closed.

Its invariant `Valid` says three things:

- each record is filed under its own task id;
- each record owns only open descriptors;
- no two records share a descriptor.

A record "owns" its descriptors greater than `STDERR_FILENO`, which are the ones
`close_counter_fds` would close.

## Model

| member | source | states |
|---|---|---|
| `PerfTypes.EventSlots` | performance_counter_lib.hpp:23-26 | `CYCLES` and `INSTRUCTIONS` are distinct slots below `OBSERVED_EVENTS` = 2, and `COUNTER_READSIZE` = 2·16 + 8 = 40 |
| `PerfTypes.NewPCounter` | performance_counter_lib.hpp:56-58 | `pcounter(p)` has pid `p`; every id, value, descriptor, attribute and buffer byte is zero |
| `PerfTypes.OwnedFds` | performance_counter_lib.cpp:20-22 | a descriptor is owned by a record iff it is one of its two descriptors and greater than `STDERR_FILENO` |
| `PerfTypes.NewPCounterOwnsNothing` | performance_counter_lib.hpp:70 | a fresh record owns no descriptor and its group leader is not a valid descriptor |
| `PerfTypes.DecodeReadFormat` | performance_counter_lib.hpp:72-75 | the `read_format` view of the 40-byte buffer: `nr` is word 0, and pair i's value and id are words 1+2i and 2+2i (little-endian) |
| `PerfTypes.DecodeEncode` | performance_counter_lib.hpp:41-52 | decoding the bytes of any `read_format` gives back that structure |
| `PerfTypes.EncodeDecode` | performance_counter_lib.hpp:72-75 | encoding the decoded view gives back the whole buffer, so every byte belongs to exactly one field |
| `Numeric.IntToString` | performance_counter_lib.cpp:69 | the decimal text of an `int` starts with a minus sign iff the number is negative |
| `Numeric.IntToStringRoundTrip` | performance_counter_lib.cpp:69 | the decimal text reads back as the number it was written from |
| `ErrorMessages.LookupErrorMessage` | performance_counter_lib.cpp:39-71 | a code is one of the thirteen named ones iff its message does not start with the fallback prefix; any other code gives the prefix followed by its decimal text |
| `ErrorMessages.LookupErrorMessageTable` | performance_counter_lib.cpp:40-69 | each named code gets exactly its fixed message from the table, and every other code gets the fallback |
| `ErrorMessages.ErrnoOfLookupErrorMessage` | performance_counter_lib.cpp:39-71 | every code, named or not, can be read back from its message |
| `ErrorMessages.ErrnoOfFixedMessage` | performance_counter_lib.cpp:41-67 | each of the thirteen fixed messages reads back as its own code |
| `ErrorMessages.ErrnoOfFallbackMessage` | performance_counter_lib.cpp:68-69 | a fallback message reads back as the code it was printed for |
| `ErrorMessages.LookupErrorMessageInjective` | performance_counter_lib.cpp:39-71 | distinct codes give distinct messages |
| `ErrorMessages.FixedMessagesDistinct` | performance_counter_lib.cpp:41-67 | the thirteen fixed messages are pairwise distinct |
| `TaskIds.SafeStrtoul` | performance_counter_lib.cpp:8-18 | a failed conversion carries `ULONG_MAX` (the out-of-range result) |
| `TaskIds.SafeStrtoulIgnoresTrailingText` | performance_counter_lib.cpp:8-18 | without an end-pointer check, a number followed by text that does not start with a digit converts exactly as the number alone: n when it fits in 64 bits, a failure otherwise |
| `TaskIds.SafeStrtoulOfDecimal` | performance_counter_lib.cpp:8-18 | the decimal text of n converts to n when n fits in 64 bits, and fails otherwise |
| `TaskIds.NonNumericNameIsTaskZero` | performance_counter_lib.cpp:10-16 | since the end pointer is not checked, a name with no leading digits or sign converts successfully to 0 |
| `TaskIds.GetProcessChildPids` | performance_counter_lib.cpp:73-100 | no task directory gives the empty set; otherwise: (a) the result is a success iff every entry converts; (b) a success is the set of converted ids; (c) a failure names the first entry that does not convert |
| `TaskIds.TaskIdSetOfDecimalNames` | performance_counter_lib.cpp:83-97 | a listing of the decimal names of some ids yields exactly those ids |
| `TaskIds.TwentyTasks` | performance_counter_lib_test.cpp:57-61 | entries "0" … "19" yield exactly the ids 0 … 19, so 0 and 19 are in the set and 20 is not |
| `CounterSetup.ConfigureStruct` | performance_counter_lib.cpp:122-138 | the attribute has the given type and config, is disabled, and its read format is exactly group plus id, so a read returns `nr` and (value, id) pairs and nothing else |
| `CounterSetup.SetupEvent` | performance_counter_lib.cpp:104-118 | (a) the call uses slot k's attribute, the record's pid, cpu -1, the given group and flags 0; (b) slot k gets the returned descriptor; (c) `event_id[k]` is written only for a valid descriptor whose id query answered; (d) an invalid descriptor reports its `errno`; (e) nothing else changes |
| `CounterSetup.FailedErrnos` | performance_counter_lib.cpp:116 | at most two codes are reported, and none iff both opens returned valid descriptors |
| `CounterSetup.PrintedLinesNameErrnos` | performance_counter_lib.cpp:116 | each printed failure line names the code it was printed for |
| `CounterSetup.SetupCounter` | performance_counter_lib.cpp:140-156 | (a) cycles is opened first with group -1; (b) instructions is opened second with the cycles descriptor as its group; (c) both are hardware events, disabled, with the group-and-id read format; (d) the record owns exactly the valid descriptors returned; (e) each id is set only by a successful open; (f) the failures are reported cycles first |
| `CounterSetup.SetupCounterIds` | performance_counter_lib.cpp:140-156 | a fully successful setup with distinct kernel ids holds two distinct event ids and reports nothing |
| `GroupRead.StoreRead` | performance_counter_lib.cpp:220-222 | a full-size read replaces the whole buffer |
| `GroupRead.ReadRecord` | performance_counter_lib.cpp:215-251 | (a) pid, descriptors, ids and attributes never change; (b) a read is accepted iff the leader is valid and exactly `COUNTER_READSIZE` bytes came back; (c) otherwise the values are unchanged; (d) an invalid leader reports a bad descriptor; (e) an accepted read matches the first `nr` pairs by id |
| `GroupRead.ReadCounter` | performance_counter_lib.cpp:215-251 | the loop body of `readCounters`, with its pair-matching loop, computes exactly `ReadRecord` |
| `GroupRead.MatchPairsBySlot` | performance_counter_lib.cpp:225-238 | (a) the cycles slot holds the last value tagged with the cycles id; (b) the instructions slot holds the last value tagged with the instructions id, unless both ids are equal, in which case it is untouched |
| `GroupRead.MatchPairsOrderFree` | performance_counter_lib.cpp:225-238 | two pairs with distinct ids give the same result in either order |
| `GroupRead.UnknownIdIgnored` | performance_counter_lib.cpp:229-237 | a pair whose id is neither event's changes nothing |
| `GroupRead.AcceptedGroupRead` | performance_counter_lib.cpp:224-238 | a full read of a group with distinct ids sets both values, whichever pair the kernel wrote first |
| `GroupRead.NewRecordIsNotRead` | performance_counter_lib.cpp:215 | a never-opened record is skipped with a bad-descriptor report |
| `CounterMaps.NewRecord` | performance_counter_lib.cpp:161-162 | the record built for a task carries its pid and owns exactly the descriptors opened for it |
| `CounterMaps.CreatedTable` | performance_counter_lib.cpp:158-167 | (a) the keys become the old keys plus `pids`; (b) every existing record is kept, since `map::insert` does not overwrite; (c) new tasks get a freshly set-up record |
| `CounterMaps.SetupFailures` | performance_counter_lib.cpp:160-163 | one report entry per task set up |
| `CounterMaps.CreatePreservesInvariant` | performance_counter_lib.cpp:158-167 | creating counters keeps the table invariant, counting leaked descriptors as open |
| `CounterMaps.CulledFds` | performance_counter_lib.cpp:171-181 | the descriptors closed by a cull are the valid descriptors of the culled tasks that have a record, and all of them |
| `CounterMaps.CullPreservesInvariant` | performance_counter_lib.cpp:169-185 | (a) culling keeps the invariant; (b) no survivor's descriptor is closed; (c) no descriptor ≤ `STDERR_FILENO` is ever closed |
| `CounterMaps.CullAbsentIsNoOp` | performance_counter_lib.cpp:171-183 | culling tasks without a record changes nothing and closes nothing |
| `CounterMaps.CullFreshRecord` | performance_counter_lib.cpp:22 | culling a never-opened record closes nothing |
| `CounterMaps.CulledCreatedFds` | performance_counter_lib.cpp:158-181 | culling tasks just created closes exactly the descriptors their creation opened |
| `CounterMaps.CreateThenCull` | performance_counter_lib.cpp:158-185 | creating counters for new tasks and then culling the same tasks gives back the table and the set of open descriptors: every descriptor opened is released exactly once |
| `CounterMaps.CloseCounterFds` | performance_counter_lib.cpp:20-35 | (a) exactly the valid descriptors are closed, in slot order, whatever an earlier close returned; (b) the reported errors are exactly the closes that failed |
| `CounterMaps.ClosedAreOwned` | performance_counter_lib.cpp:20-35 | the closed descriptors are the record's owned ones, and the errors are those whose close failed |
| `CounterMaps.ReadTable` | performance_counter_lib.cpp:209-253 | reading never adds or removes a key |
| `CounterMaps.ReadPreservesInvariant` | performance_counter_lib.cpp:209-253 | reading keeps the invariant and every record's descriptors |
| `CounterMaps.ListedPids` | performance_counter_lib.cpp:268 | the new task set is empty without a task directory, and the converted names otherwise |
| `CounterMaps.Reconciled` | performance_counter_lib.cpp:270-284 | the keys after `getPidDelta` are the old keys, plus the arrived tasks, minus the departed ones |
| `CounterMaps.ReconciledKeys` | performance_counter_lib.cpp:262-286 | when the keys equal the known tasks: (a) they become the listed tasks; (b) tasks in both sets keep their records; (c) arrived tasks get fresh records; (d) arrived and departed are disjoint |
| `CounterMaps.ReconcileIdempotent` | performance_counter_lib.cpp:262-286 | reconciling again against the same listing changes nothing |
| `CounterMaps.ReconcileScenario` | performance_counter_lib.cpp:270-284 | from tasks {1, 2, 3} to {2, 3, 4}: 1 is culled, 4 is created, 2 and 3 are untouched |
| `CounterMaps.TwentyRecords` | performance_counter_lib_test.cpp:27-41 | the fixture holds exactly the tasks 0 … 19 |
| `CounterMaps.TwentyRecordsFds` | performance_counter_lib_test.cpp:36-39 | task i owns descriptors 3 + 2i and 4 + 2i |
| `CounterMaps.CullEvenTasksLeavesOdd` | performance_counter_lib_test.cpp:69-80 | culling the ids 0, 2, …, 38 leaves exactly the odd tasks below 20 |
| `CounterMaps.CullEvenTasksLeavesTen` | performance_counter_lib_test.cpp:80 | ten records are left |
| `CounterMaps.CullEvenTasksClosesEven` | performance_counter_lib_test.cpp:82-101 | both descriptors of task i are closed iff i is even |
| `CounterMaps.CulledTwentyFd` | performance_counter_lib_test.cpp:84-99 | a descriptor of task i is closed iff i is even |
| `CounterTable.CounterTable.CreateCounters` | performance_counter_lib.cpp:158-167 | (a) the invariant is kept; (b) the map becomes `CreatedTable`; (c) the open descriptors grow by those opened, including those leaked for tasks already present; (d) the failures are reported per task |
| `CounterTable.CounterTable.CullCounters` | performance_counter_lib.cpp:169-185 | (a) the invariant is kept; (b) the culled tasks' records are erased; (c) exactly their valid descriptors are closed; (d) the reported errors are exactly the failed closes |
| `CounterTable.CounterTable.ReadCounters` | performance_counter_lib.cpp:209-253 | (a) the invariant is kept and no descriptor is opened or closed; (b) every record becomes `ReadRecord` of its read; (c) one report per record |
| `CounterTable.CounterTable.GetPidDelta` | performance_counter_lib.cpp:262-286 | (a) a failed listing changes nothing; (b) otherwise the result is the listed set; (c) the map is `Reconciled`; (d) the open descriptors grow by those opened for arrived tasks and lose those of departed ones |

## Left out

- `printResults` is not modelled. It only prints floating-point rates.
- `resetAndEnableCounters` and `disableCounters` are not modelled. Their bodies
  are nothing but `ioctl` calls.
- `Demo.cpp` is not part of this model. It is a single-file snapshot of the same
  library.
- The system calls are not executed. `perf_event_open`, the id `ioctl`, `read`
  and `close` are input functions, and `errno` is a field of their answers.
  The remaining fields of `perf_event_attr`, its `size` and the `memset` are
  not modelled.
- Output is not written anywhere. Instead:
  - a failed open is reported as the `errno` whose `lookupErrorMessage` line
    is printed, and `PrintedLines` gives the text;
  - a read is reported as a `ReadReport`;
  - close errors are reported as the descriptors whose close failed;
  - the `strerror` text is not modelled.
- Directory iteration and the `regex_replace` stripping of the directory prefix
  are not modelled. The listing is an input of entry names.
- Iteration order over `std::set`/`std::map` is not modelled. The table loops
  take tasks in any order, and per-task reports are maps keyed by task. As a
  result, the relative order of lines printed for different tasks is not
  captured.
- `exit(EXIT_FAILURE)` on a failed conversion is modelled as a `Failure`
  result that leaves the table unchanged. Any further loss of state is not
  modelled.
- TaskIds.GetProcessChildPids: does not model the narrowing of the converted
  `uint64_t` to `pid_t`. It requires (`EntriesFitPid`) that converted ids fit.
- CounterTable.CounterTable.CreateCounters: assumes kernel behaviour rather
  than modelling it. It requires (`FreshOpens`) that the kernel hands out
  descriptors that are not already open and never the same one twice.
- CounterTable.CounterTable.ReadCounters: assumes kernel behaviour rather than
  modelling it. It requires (`ReadsWellFormed`) that a read returns -1 or at
  most the requested byte count, and that a full read reports `nr` ≤ 2.
- CounterTable.CounterTable.GetPidDelta: inherits the two assumptions above
  for the tasks it creates.
- A 16-byte header in front of the values (a 48-byte read) would not match
  `COUNTER_READSIZE`, which is 40: an 8-byte `nr` and two 16-byte pairs. The
  model follows the code.
- An entry of the task directory that is not a number is not fatal: it
  converts to task 0, because `safe_strtoul` never checks the end pointer
  (`TaskIds.NonNumericNameIsTaskZero`), and text after a number is ignored
  (`TaskIds.SafeStrtoulIgnoresTrailingText`). The model follows the code.
- The read buffer is decoded little-endian. The source reads it through a
  union, in the host's byte order, so the model assumes a little-endian host.
- `setupEvent` and `setupCounter` are modelled as functions from the old record
  to the new one. In the source the `pcounter` is updated through a reference.
  No aliasing is involved, since the record is a fresh local copy.
