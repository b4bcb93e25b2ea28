/** Constants, value types and the per-task counter record declared in
    performance_counter_lib.hpp, together with the byte layout of the
    group-read buffer (`read_format` overlaid on `char buf[COUNTER_READSIZE]`). */
module PerfTypes {

  /** `uint64_t`. */
  type u64 = x: int | 0 <= x < 0x1_0000_0000_0000_0000

  /** One byte of the raw read buffer. */
  type byte = x: int | 0 <= x < 0x100

  /** `pid_t`: a signed 32-bit integer. */
  type Pid = x: int | -0x8000_0000 <= x < 0x8000_0000

  const PID_MAX: int := 0x7fff_ffff
  const U64_MAX: int := 0xffff_ffff_ffff_ffff

  /** Descriptors 0, 1 and 2 are the console streams; a counter descriptor is
      valid only when it is strictly greater than this. */
  const STDERR_FILENO: int := 2

  // The two kinds of perf events that are observed and the slot each uses.
  const CYCLES: nat := 0
  const INSTRUCTIONS: nat := 1
  const OBSERVED_EVENTS: nat := 2
  /** An 8-byte `nr` followed by `OBSERVED_EVENTS` 16-byte (value, id) pairs. */
  const COUNTER_READSIZE: nat := OBSERVED_EVENTS * 16 + 8

  lemma EventSlots()
    ensures CYCLES < OBSERVED_EVENTS && INSTRUCTIONS < OBSERVED_EVENTS && CYCLES != INSTRUCTIONS
    ensures OBSERVED_EVENTS == 2 && COUNTER_READSIZE == 40
  {
  }

  /** A per-event array (`std::array<_, 2>`) of 64-bit ids or values. */
  type U64Pair = s: seq<u64> | |s| == OBSERVED_EVENTS witness [0, 0]

  /** A per-event array of file descriptors (`std::array<int, 2>`). */
  type FdPair = s: seq<int> | |s| == OBSERVED_EVENTS witness [0, 0]

  /** The part of `perf_event_attr` this program sets; everything else stays zero. */
  datatype EventAttr = EventAttr(typ: nat, config: nat, disabled: bool, readFormat: bv64)

  const ZERO_ATTR := EventAttr(0, 0, false, 0)

  type AttrPair = s: seq<EventAttr> | |s| == OBSERVED_EVENTS witness [ZERO_ATTR, ZERO_ATTR]

  /** The raw buffer of a group read. */
  type ReadBuffer = s: seq<byte> | |s| == COUNTER_READSIZE witness seq(COUNTER_READSIZE, _ => 0)

  /** One entry of `read_format.values`. */
  datatype ValueId = ValueId(value: u64, id: u64)

  type GroupValues = s: seq<ValueId> | |s| == OBSERVED_EVENTS witness [ValueId(0, 0), ValueId(0, 0)]

  /** `struct read_format` with PERF_FORMAT_GROUP | PERF_FORMAT_ID: the number of
      events, then one (value, id) pair per event. */
  datatype ReadFormat = ReadFormat(nr: u64, values: GroupValues)

  /** `struct pcounter`: the counter group of one task. */
  datatype PCounter = PCounter(
    pid: Pid,
    perfstruct: AttrPair,
    eventId: U64Pair,
    eventValue: U64Pair,
    groupFd: FdPair,
    eventData: ReadBuffer)

  /** `pcounter(p)`: every field but the pid is zero-initialised. */
  function NewPCounter(p: Pid): (c: PCounter)
    ensures c.pid == p
    ensures forall k :: 0 <= k < OBSERVED_EVENTS ==>
      c.eventId[k] == 0 && c.eventValue[k] == 0 && c.groupFd[k] == 0 && c.perfstruct[k] == ZERO_ATTR
    ensures forall i :: 0 <= i < COUNTER_READSIZE ==> c.eventData[i] == 0
  {
    PCounter(p, [ZERO_ATTR, ZERO_ATTR], [0, 0], [0, 0], [0, 0], seq(COUNTER_READSIZE, _ => 0))
  }

  /** A descriptor the program treats as a real, open counter. */
  predicate ValidFd(fd: int) {
    fd > STDERR_FILENO
  }

  /** The descriptors of a record that `close_counter_fds` would close. */
  function OwnedFds(c: PCounter): (fds: set<int>)
    ensures forall fd :: fd in fds <==> (fd in c.groupFd && ValidFd(fd))
  {
    set k | 0 <= k < OBSERVED_EVENTS && ValidFd(c.groupFd[k]) :: c.groupFd[k]
  }

  /** A freshly constructed record owns no descriptor, so it is neither read nor closed. */
  lemma NewPCounterOwnsNothing(p: Pid)
    ensures OwnedFds(NewPCounter(p)) == {}
    ensures !ValidFd(NewPCounter(p).groupFd[CYCLES])
  {
  }

  // ---------------------------------------------------------------------------
  // Byte layout of the read buffer (host byte order: little-endian).

  function Pow256(n: nat): (r: nat)
    ensures r > 0
  {
    if n == 0 then 1 else 256 * Pow256(n - 1)
  }

  lemma Pow256Eight()
    ensures Pow256(8) == U64_MAX + 1
  {
  }

  /** The unsigned number stored little-endian in `bs`. */
  function LittleEndian(bs: seq<byte>): (x: nat)
    ensures x < Pow256(|bs|)
  {
    if bs == [] then 0 else bs[0] + 256 * LittleEndian(bs[1..])
  }

  /** The `n` little-endian bytes of `x`. */
  function ToLittleEndian(x: nat, n: nat): (bs: seq<byte>)
    requires x < Pow256(n)
    ensures |bs| == n
  {
    if n == 0 then [] else [x % 256] + ToLittleEndian(x / 256, n - 1)
  }

  lemma {:induction false} LittleEndianOfBytes(x: nat, n: nat)
    requires x < Pow256(n)
    ensures LittleEndian(ToLittleEndian(x, n)) == x
  {
    if n > 0 {
      LittleEndianOfBytes(x / 256, n - 1);
      assert ToLittleEndian(x, n)[1..] == ToLittleEndian(x / 256, n - 1);
    }
  }

  lemma {:induction false} BytesOfLittleEndian(bs: seq<byte>)
    ensures ToLittleEndian(LittleEndian(bs), |bs|) == bs
  {
    if bs != [] {
      var x := LittleEndian(bs);
      assert x % 256 == bs[0] && x / 256 == LittleEndian(bs[1..]);
      BytesOfLittleEndian(bs[1..]);
    }
  }

  /** The `k`-th 8-byte word of a read buffer. */
  function Word(buf: ReadBuffer, k: nat): (w: u64)
    requires k < 1 + 2 * OBSERVED_EVENTS
  {
    Pow256Eight();
    LittleEndian(buf[8 * k .. 8 * k + 8])
  }

  /** The 8 bytes of a 64-bit field. */
  function Bytes(x: u64): (bs: seq<byte>)
    ensures |bs| == 8
  {
    Pow256Eight();
    ToLittleEndian(x, 8)
  }

  /** Reads the buffer through its `read_format` view: word 0 is `nr`, words
      1 + 2i and 2 + 2i are `values[i].value` and `values[i].id`. */
  function DecodeReadFormat(buf: ReadBuffer): (rf: ReadFormat)
    ensures rf.nr == Word(buf, 0)
    ensures forall i :: 0 <= i < OBSERVED_EVENTS ==>
      rf.values[i] == ValueId(Word(buf, 1 + 2 * i), Word(buf, 2 + 2 * i))
  {
    ReadFormat(Word(buf, 0), [ValueId(Word(buf, 1), Word(buf, 2)), ValueId(Word(buf, 3), Word(buf, 4))])
  }

  /** The bytes the kernel writes for a `read_format`. */
  function EncodeReadFormat(rf: ReadFormat): (buf: ReadBuffer)
  {
    Bytes(rf.nr) + Bytes(rf.values[0].value) + Bytes(rf.values[0].id)
      + Bytes(rf.values[1].value) + Bytes(rf.values[1].id)
  }

  lemma WordOfBytes(x: u64)
    ensures LittleEndian(Bytes(x)) == x
  {
    Pow256Eight();
    LittleEndianOfBytes(x, 8);
  }

  /** Decoding what was encoded gives back the structure. */
  lemma DecodeEncode(rf: ReadFormat)
    ensures DecodeReadFormat(EncodeReadFormat(rf)) == rf
  {
    var buf := EncodeReadFormat(rf);
    assert buf[0..8] == Bytes(rf.nr);
    assert buf[8..16] == Bytes(rf.values[0].value);
    assert buf[16..24] == Bytes(rf.values[0].id);
    assert buf[24..32] == Bytes(rf.values[1].value);
    assert buf[32..40] == Bytes(rf.values[1].id);
    WordOfBytes(rf.nr);
    WordOfBytes(rf.values[0].value);
    WordOfBytes(rf.values[0].id);
    WordOfBytes(rf.values[1].value);
    WordOfBytes(rf.values[1].id);
    assert rf.values == [rf.values[0], rf.values[1]];
  }

  lemma BytesOfWord(buf: ReadBuffer, k: nat)
    requires k < 1 + 2 * OBSERVED_EVENTS
    ensures Bytes(Word(buf, k)) == buf[8 * k .. 8 * k + 8]
  {
    Pow256Eight();
    BytesOfLittleEndian(buf[8 * k .. 8 * k + 8]);
  }

  /** Every byte of the buffer belongs to exactly one field of the structure:
      encoding what was decoded gives back the whole buffer. */
  lemma EncodeDecode(buf: ReadBuffer)
    ensures EncodeReadFormat(DecodeReadFormat(buf)) == buf
  {
    BytesOfWord(buf, 0);
    BytesOfWord(buf, 1);
    BytesOfWord(buf, 2);
    BytesOfWord(buf, 3);
    BytesOfWord(buf, 4);
    assert buf == buf[0..8] + buf[8..16] + buf[16..24] + buf[24..32] + buf[32..40];
  }
}
