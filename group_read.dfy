/** Reading one record's counter group (the body of the loop in
    `readCounters`): one `read` of `COUNTER_READSIZE` bytes from the group
    leader, accepted only when it returned exactly that many bytes, and then
    each (value, id) pair assigned to the slot whose event id it carries. */
module GroupRead {
  import opened PerfTypes

  /** What one `read(group_fd[CYCLES], buf, COUNTER_READSIZE)` did: its return
      value, `errno` afterwards and the bytes it stored at the start of the
      buffer. */
  datatype ReadOutcome = ReadOutcome(size: int, errno: int, data: seq<byte>)

  /** What the kernel can answer: -1 or a byte count no larger than asked for,
      with exactly that many bytes stored, and (for a full group read) a count
      `nr` no larger than the number of events in the group. */
  predicate WellFormedRead(r: ReadOutcome) {
    && -1 <= r.size <= COUNTER_READSIZE
    && |r.data| == (if r.size < 0 then 0 else r.size)
    && (r.size == COUNTER_READSIZE ==> DecodeReadFormat(r.data).nr <= OBSERVED_EVENTS)
  }

  /** The line `readCounters` prints for a record, if any. */
  datatype ReadReport =
    | Accepted
    | ReadError(errno: int, fd: int)
    | ShortRead(size: int, fd: int)
    | BadDescriptor(pid: Pid)

  datatype RecordRead = RecordRead(counter: PCounter, report: ReadReport)

  /** The buffer after the read stored its bytes at the front. */
  function StoreRead(buf: ReadBuffer, r: ReadOutcome): (b: ReadBuffer)
    requires WellFormedRead(r)
    ensures r.size == COUNTER_READSIZE ==> b == r.data
  {
    r.data + buf[|r.data|..]
  }

  /** One pair: the cycles slot if its id is the cycles event's, otherwise the
      instructions slot if its id is the instructions event's, otherwise nothing. */
  function MatchPair(ids: U64Pair, vals: U64Pair, p: ValueId): U64Pair {
    if p.id == ids[CYCLES] then vals[CYCLES := p.value]
    else if p.id == ids[INSTRUCTIONS] then vals[INSTRUCTIONS := p.value]
    else vals
  }

  /** The pairs applied in buffer order. */
  function MatchPairs(ids: U64Pair, vals: U64Pair, pairs: seq<ValueId>): U64Pair {
    if pairs == [] then vals
    else MatchPair(ids, MatchPairs(ids, vals, pairs[..|pairs| - 1]), pairs[|pairs| - 1])
  }

  /** The record after one read: nothing is read through an invalid leader; a
      read of any other size than `COUNTER_READSIZE` leaves `event_value` as it
      was; an accepted read decodes the buffer and matches its first `nr`
      pairs by id. Only `event_value` and the buffer ever change. */
  function ReadRecord(c: PCounter, r: ReadOutcome): (res: RecordRead)
    requires ValidFd(c.groupFd[CYCLES]) ==> WellFormedRead(r)
    ensures res.counter.pid == c.pid && res.counter.groupFd == c.groupFd
    ensures res.counter.eventId == c.eventId && res.counter.perfstruct == c.perfstruct
    ensures res.report == Accepted <==> ValidFd(c.groupFd[CYCLES]) && r.size == COUNTER_READSIZE
    ensures res.report != Accepted ==> res.counter.eventValue == c.eventValue
    ensures !ValidFd(c.groupFd[CYCLES]) ==> res == RecordRead(c, BadDescriptor(c.pid))
    ensures res.report == Accepted ==>
      var rf := DecodeReadFormat(r.data);
      res.counter.eventValue == MatchPairs(c.eventId, c.eventValue, rf.values[..rf.nr])
  {
    var leader := c.groupFd[CYCLES];
    if !ValidFd(leader) then RecordRead(c, BadDescriptor(c.pid))
    else
      var stored := c.(eventData := StoreRead(c.eventData, r));
      if r.size == COUNTER_READSIZE then
        var rf := DecodeReadFormat(stored.eventData);
        RecordRead(stored.(eventValue := MatchPairs(c.eventId, c.eventValue, rf.values[..rf.nr])), Accepted)
      else if r.errno != 0 then RecordRead(stored, ReadError(r.errno, leader))
      else RecordRead(stored, ShortRead(r.size, leader))
  }

  /** The loop body of `readCounters` for one record, with the pair-matching
      loop over the `nr` entries of the decoded buffer. */
  method ReadCounter(c: PCounter, r: ReadOutcome) returns (c': PCounter, report: ReadReport)
    requires ValidFd(c.groupFd[CYCLES]) ==> WellFormedRead(r)
    ensures RecordRead(c', report) == ReadRecord(c, r)
  {
    var leader := c.groupFd[CYCLES];
    if !ValidFd(leader) {
      return c, BadDescriptor(c.pid);
    }
    c' := c.(eventData := StoreRead(c.eventData, r));
    if r.size == COUNTER_READSIZE {
      var rf := DecodeReadFormat(c'.eventData);
      var values := c.eventValue;
      for i := 0 to rf.nr
        invariant values == MatchPairs(c.eventId, c.eventValue, rf.values[..i])
      {
        var pair := rf.values[i];
        if pair.id == c.eventId[CYCLES] {
          values := values[CYCLES := pair.value];
        } else if pair.id == c.eventId[INSTRUCTIONS] {
          values := values[INSTRUCTIONS := pair.value];
        }
        assert rf.values[..i + 1][..i] == rf.values[..i];
      }
      c' := c'.(eventValue := values);
      report := Accepted;
    } else if r.errno != 0 {
      report := ReadError(r.errno, leader);
    } else {
      report := ShortRead(r.size, leader);
    }
  }

  /** The value of the last pair carrying `id`, or `dflt` when none does. */
  function LastValueWithId(pairs: seq<ValueId>, id: u64, dflt: u64): u64 {
    if pairs == [] then dflt
    else if pairs[|pairs| - 1].id == id then pairs[|pairs| - 1].value
    else LastValueWithId(pairs[..|pairs| - 1], id, dflt)
  }

  /** Matching by id, slot by slot: the cycles slot holds the value of the last
      pair tagged with the cycles id; the instructions slot holds the value of
      the last pair tagged with the instructions id, unless both events share
      one id, in which case the cycles slot takes every such pair. */
  lemma {:induction false} MatchPairsBySlot(ids: U64Pair, vals: U64Pair, pairs: seq<ValueId>)
    ensures MatchPairs(ids, vals, pairs)[CYCLES] == LastValueWithId(pairs, ids[CYCLES], vals[CYCLES])
    ensures ids[CYCLES] != ids[INSTRUCTIONS] ==>
      MatchPairs(ids, vals, pairs)[INSTRUCTIONS] == LastValueWithId(pairs, ids[INSTRUCTIONS], vals[INSTRUCTIONS])
    ensures ids[CYCLES] == ids[INSTRUCTIONS] ==> MatchPairs(ids, vals, pairs)[INSTRUCTIONS] == vals[INSTRUCTIONS]
  {
    if pairs != [] {
      MatchPairsBySlot(ids, vals, pairs[..|pairs| - 1]);
    }
  }

  /** Pairs with different ids can come in either order. */
  lemma MatchPairsOrderFree(ids: U64Pair, vals: U64Pair, a: ValueId, b: ValueId)
    requires a.id != b.id
    ensures MatchPairs(ids, vals, [a, b]) == MatchPairs(ids, vals, [b, a])
  {
    MatchPairsBySlot(ids, vals, [a, b]);
    MatchPairsBySlot(ids, vals, [b, a]);
    assert [a, b][..1] == [a] && [b, a][..1] == [b];
    var x, y := MatchPairs(ids, vals, [a, b]), MatchPairs(ids, vals, [b, a]);
    assert x[CYCLES] == y[CYCLES] && x[INSTRUCTIONS] == y[INSTRUCTIONS];
    assert x == [x[0], x[1]] && y == [y[0], y[1]];
  }

  /** A pair whose id is neither event's changes nothing. */
  lemma UnknownIdIgnored(ids: U64Pair, vals: U64Pair, pairs: seq<ValueId>, p: ValueId)
    requires p.id != ids[CYCLES] && p.id != ids[INSTRUCTIONS]
    ensures MatchPairs(ids, vals, pairs + [p]) == MatchPairs(ids, vals, pairs)
  {
    assert (pairs + [p])[..|pairs|] == pairs;
  }

  /** A full read of a group whose two events have distinct ids sets both slots
      from the buffer, whichever pair the kernel wrote first. */
  lemma AcceptedGroupRead(c: PCounter, cycles: u64, instructions: u64, swapped: bool)
    requires ValidFd(c.groupFd[CYCLES]) && c.eventId[CYCLES] != c.eventId[INSTRUCTIONS]
    ensures
      var first := ValueId(cycles, c.eventId[CYCLES]);
      var second := ValueId(instructions, c.eventId[INSTRUCTIONS]);
      var buf := EncodeReadFormat(ReadFormat(2, if swapped then [second, first] else [first, second]));
      WellFormedRead(ReadOutcome(COUNTER_READSIZE, 0, buf))
      && ReadRecord(c, ReadOutcome(COUNTER_READSIZE, 0, buf)).counter.eventValue == [cycles, instructions]
  {
    var first := ValueId(cycles, c.eventId[CYCLES]);
    var second := ValueId(instructions, c.eventId[INSTRUCTIONS]);
    var rf := ReadFormat(2, if swapped then [second, first] else [first, second]);
    DecodeEncode(rf);
    assert rf.values[..rf.nr] == rf.values;
    MatchPairsBySlot(c.eventId, c.eventValue, rf.values);
    var v := MatchPairs(c.eventId, c.eventValue, rf.values);
    assert v == [v[0], v[1]];
  }

  /** A record that never opened its counters is skipped. */
  lemma NewRecordIsNotRead(p: Pid, r: ReadOutcome)
    ensures ReadRecord(NewPCounter(p), r) == RecordRead(NewPCounter(p), BadDescriptor(p))
  {
  }
}
