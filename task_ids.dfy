/** Task discovery: `safe_strtoul` and the parsing loop of `getProcessChildPids`.
    The listing of `<proc_path><pid>/task` is an input: whether the directory
    exists and the names of its entries, already stripped of the directory
    prefix. */
module TaskIds {
  import opened Numeric
  import opened PerfTypes
  import opened Wrappers

  /** `isspace` in the C locale. */
  predicate IsSpace(c: char) {
    c == ' ' || c == '\t' || c == '\n' || c == '\r' || c == '\U{000B}' || c == '\U{000C}'
  }

  /** The string after its leading white space. */
  function SkipSpace(s: string): (t: string)
    ensures t == [] || !IsSpace(t[0])
  {
    if s != [] && IsSpace(s[0]) then SkipSpace(s[1..]) else s
  }

  /** The longest prefix of decimal digits. */
  function DigitRun(s: string): (d: string)
    ensures AllDigits(d)
  {
    if s != [] && IsDigit(s[0]) then [s[0]] + DigitRun(s[1..]) else []
  }

  /** `strtoul(str, NULL, 10)` on a 64-bit `unsigned long`: skip white space,
      take an optional sign, convert the digits that follow and stop at the
      first other character. A value beyond `ULONG_MAX` gives `ULONG_MAX` and
      sets `errno` to ERANGE; a minus sign negates modulo 2^64; no digits at all
      is no conversion, which returns 0 without setting `errno`. */
  datatype StrtoulResult = StrtoulResult(value: u64, erange: bool)

  function Strtoul(s: string): (r: StrtoulResult)
  {
    var t := SkipSpace(s);
    var negative := t != [] && t[0] == '-';
    var unsigned := if t != [] && (t[0] == '-' || t[0] == '+') then t[1..] else t;
    var v := DigitsValue(DigitRun(unsigned));
    if v > U64_MAX then StrtoulResult(U64_MAX, true)
    else if negative then StrtoulResult((U64_MAX + 1 - v) % (U64_MAX + 1), false)
    else StrtoulResult(v, false)
  }

  /** `std::pair<bool, uint64_t>` returned by `safe_strtoul`. */
  datatype Conversion = Conversion(ok: bool, value: u64)

  /** `safe_strtoul`: clears `errno`, converts, and reports failure exactly when
      the conversion set `errno`. The end pointer is not checked, so trailing
      or wholly non-numeric text is not a failure. */
  function SafeStrtoul(str: string): (r: Conversion)
    ensures !r.ok ==> r.value == U64_MAX
  {
    var res := Strtoul(str);
    Conversion(!res.erange, res.value)
  }

  /** The decimal text of a number converts back to that number, and fails
      exactly when it does not fit in 64 bits. */
  lemma SafeStrtoulOfDecimal(n: nat)
    ensures SafeStrtoul(NatToString(n)) ==
      if n <= U64_MAX then Conversion(true, n) else Conversion(false, U64_MAX)
  {
    var s := NatToString(n);
    assert SkipSpace(s) == s;
    AllDigitsIsDigitRun(s);
    DigitsValueOfNatToString(n);
  }

  /** A string of digits is its own longest digit prefix. */
  lemma {:induction false} AllDigitsIsDigitRun(s: string)
    requires AllDigits(s)
    ensures DigitRun(s) == s
  {
    if s != [] {
      AllDigitsIsDigitRun(s[1..]);
    }
  }

  /** Digits followed by anything that is not a digit: the run stops where
      the digits do. */
  lemma {:induction false} DigitRunStopsAtNonDigit(digits: string, rest: string)
    requires AllDigits(digits) && (rest == [] || !IsDigit(rest[0]))
    ensures DigitRun(digits + rest) == digits
  {
    if digits != [] {
      assert (digits + rest)[1..] == digits[1..] + rest;
      DigitRunStopsAtNonDigit(digits[1..], rest);
    }
  }

  /** Without the end-pointer check, text after the number is ignored: a
      number followed by a non-digit converts as the number alone does. */
  lemma SafeStrtoulIgnoresTrailingText(n: nat, rest: string)
    requires rest == [] || !IsDigit(rest[0])
    ensures SafeStrtoul(NatToString(n) + rest) == SafeStrtoul(NatToString(n))
    ensures SafeStrtoul(NatToString(n) + rest) ==
      if n <= U64_MAX then Conversion(true, n) else Conversion(false, U64_MAX)
  {
    var s := NatToString(n);
    var t := s + rest;
    assert t[0] == s[0] && IsDigit(t[0]);
    assert SkipSpace(t) == t;
    DigitRunStopsAtNonDigit(s, rest);
    assert Strtoul(t) == Strtoul(s) by {
      assert SkipSpace(s) == s;
      AllDigitsIsDigitRun(s);
    }
    SafeStrtoulOfDecimal(n);
  }

  /** Without the end-pointer check, an entry with no digits converts to task 0. */
  lemma NonNumericNameIsTaskZero(s: string)
    requires s != [] && !IsSpace(s[0]) && !IsDigit(s[0]) && s[0] != '-' && s[0] != '+'
    ensures SafeStrtoul(s) == Conversion(true, 0)
  {
  }

  /** Entries whose conversion succeeds name a task id that fits in `pid_t`. */
  predicate EntriesFitPid(entries: seq<string>) {
    forall i :: 0 <= i < |entries| && SafeStrtoul(entries[i]).ok ==> SafeStrtoul(entries[i]).value <= PID_MAX
  }

  predicate AllConvert(entries: seq<string>) {
    forall i :: 0 <= i < |entries| ==> SafeStrtoul(entries[i]).ok
  }

  /** The task ids named by the first `n` entries of a listing whose entries convert. */
  function TaskIdPrefix(entries: seq<string>, n: nat): (pids: set<Pid>)
    requires n <= |entries| && EntriesFitPid(entries)
    requires forall i :: 0 <= i < n ==> SafeStrtoul(entries[i]).ok
  {
    set i | 0 <= i < n :: SafeStrtoul(entries[i]).value as Pid
  }

  /** The task ids named by a listing whose every entry converts. */
  function TaskIdSet(entries: seq<string>): (pids: set<Pid>)
    requires AllConvert(entries) && EntriesFitPid(entries)
  {
    TaskIdPrefix(entries, |entries|)
  }

  /** `getProcessChildPids`: no task directory gives the empty set; otherwise
      every entry is converted and the first entry that fails ends the
      program (`exit(EXIT_FAILURE)`), which is the `Failure` naming it. */
  method GetProcessChildPids(taskDirExists: bool, entries: seq<string>) returns (r: Result<set<Pid>, string>)
    requires EntriesFitPid(entries)
    ensures !taskDirExists ==> r == Success({})
    ensures taskDirExists ==> (r.Success? <==> AllConvert(entries))
    ensures taskDirExists && r.Success? ==> r.value == TaskIdSet(entries)
    ensures r.Failure? ==>
      exists i :: 0 <= i < |entries| && entries[i] == r.error && !SafeStrtoul(entries[i]).ok && AllConvert(entries[..i])
  {
    var pids: set<Pid> := {};
    if !taskDirExists {
      return Success(pids);
    }
    var i := 0;
    while i < |entries|
      invariant 0 <= i <= |entries|
      invariant forall j :: 0 <= j < i ==> SafeStrtoul(entries[j]).ok
      invariant pids == TaskIdPrefix(entries, i)
    {
      var res := SafeStrtoul(entries[i]);
      if !res.ok {
        return Failure(entries[i]);
      }
      pids := pids + {res.value as Pid};
      assert pids == TaskIdPrefix(entries, i + 1);
      i := i + 1;
    }
    return Success(pids);
  }

  /** A listing of the decimal names of some task ids yields exactly those ids. */
  lemma TaskIdSetOfDecimalNames(ids: seq<nat>)
    requires forall i :: 0 <= i < |ids| ==> ids[i] <= PID_MAX
    ensures var entries := seq(|ids|, i requires 0 <= i < |ids| => NatToString(ids[i]));
      AllConvert(entries) && EntriesFitPid(entries)
      && forall p: int :: p in TaskIdSet(entries) <==> p in ids
  {
    var entries := seq(|ids|, i requires 0 <= i < |ids| => NatToString(ids[i]));
    forall i | 0 <= i < |ids|
      ensures SafeStrtoul(entries[i]) == Conversion(true, ids[i])
    {
      SafeStrtoulOfDecimal(ids[i]);
    }
  }

  /** The scenario of a task directory holding entries "0" … "19": exactly
      the twenty ids 0 … 19 and no other. */
  lemma TwentyTasks()
    ensures var entries := seq(20, i requires 0 <= i < 20 => NatToString(i));
      AllConvert(entries) && EntriesFitPid(entries)
      && forall p: int :: p in TaskIdSet(entries) <==> 0 <= p < 20
  {
    var ids := seq(20, i requires 0 <= i < 20 => i as nat);
    TaskIdSetOfDecimalNames(ids);
    assert seq(|ids|, i requires 0 <= i < |ids| => NatToString(ids[i]))
      == seq(20, i requires 0 <= i < 20 => NatToString(i));
    forall p: int ensures p in ids <==> 0 <= p < 20 {
      if 0 <= p < 20 {
        assert ids[p] == p;
      }
    }
  }
}
