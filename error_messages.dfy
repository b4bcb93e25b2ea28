/** `lookupErrorMessage`: the closed table from the `errno` values that
    `perf_event_open` documents to fixed messages, with a numeric fallback. */
module ErrorMessages {
  import opened Numeric
  import opened Wrappers

  // Linux errno values.
  const EPERM: int := 1
  const ENOENT: int := 2
  const ESRCH: int := 3
  const E2BIG: int := 7
  const EBADF: int := 9
  const EACCES: int := 13
  const EFAULT: int := 14
  const EBUSY: int := 16
  const ENODEV: int := 19
  const EINVAL: int := 22
  const EMFILE: int := 24
  const ENOSPC: int := 28
  const EOPNOTSUPP: int := 95

  const MSG_E2BIG := "Event perfstruct is too small"
  // The two longest messages are written in pieces: the verifier looks inside
  // a short literal only, and the proofs below need their first letters.
  const MSG_EACCES := "Performance counters not permitted " + "or available; try using a "
    + "newer Linux kernel or assigning the CAP_PERFMON capability"
  const MSG_EBADF := "Event group_fd not valid"
  const MSG_EBUSY := "Another process has exclusive access " + "to performance counters"
  const MSG_EFAULT := "Invalid memory address"
  const MSG_EINVAL := "Invalid event"
  const MSG_EMFILE := "Not enough file descriptors available"
  const MSG_ENODEV := "Event not supported on this CPU"
  const MSG_ENOENT := "Invalid event type"
  const MSG_ENOSPC := "Too many hardware breakpoint events"
  const MSG_EOPNOTSUPP := "Hardware support not available"
  const MSG_EPERM := "Unsupported event exclusion setting"
  const MSG_ESRCH := "Invalid PID for event"

  /** The fallback message is this prefix followed by the code in decimal. */
  const OTHER_PREFIX := "Other performance counter error; errno = "

  /** The fixed message of each code the table names. */
  const MESSAGES: map<int, string> := map[
    E2BIG := MSG_E2BIG, EACCES := MSG_EACCES, EBADF := MSG_EBADF, EBUSY := MSG_EBUSY,
    EFAULT := MSG_EFAULT, EINVAL := MSG_EINVAL, EMFILE := MSG_EMFILE, ENODEV := MSG_ENODEV,
    ENOENT := MSG_ENOENT, ENOSPC := MSG_ENOSPC, EOPNOTSUPP := MSG_EOPNOTSUPP, EPERM := MSG_EPERM,
    ESRCH := MSG_ESRCH]

  /** The codes the table names. */
  predicate IsKnownErrno(errnum: int) {
    errnum in MESSAGES
  }

  predicate HasPrefix(s: string, prefix: string) {
    |prefix| <= |s| && s[..|prefix|] == prefix
  }

  /** A message whose first letter differs from the fallback's is not a fallback. */
  lemma NotFallbackMessage(msg: string)
    requires |msg| > 0 && msg[0] != 'O'
    ensures !HasPrefix(msg, OTHER_PREFIX)
  {
    assert OTHER_PREFIX[0] == 'O';
  }

  function LookupErrorMessage(errnum: int): (msg: string)
    ensures IsKnownErrno(errnum) <==> !HasPrefix(msg, OTHER_PREFIX)
    ensures !IsKnownErrno(errnum) ==> msg == OTHER_PREFIX + IntToString(errnum)
  {
    if errnum == E2BIG then MSG_E2BIG
    else if errnum == EACCES then
      assert MSG_EACCES[0] == 'P';
      NotFallbackMessage(MSG_EACCES);
      MSG_EACCES
    else if errnum == EBADF then MSG_EBADF
    else if errnum == EBUSY then
      assert MSG_EBUSY[0] == 'A';
      NotFallbackMessage(MSG_EBUSY);
      MSG_EBUSY
    else if errnum == EFAULT then MSG_EFAULT
    else if errnum == EINVAL then MSG_EINVAL
    else if errnum == EMFILE then MSG_EMFILE
    else if errnum == ENODEV then MSG_ENODEV
    else if errnum == ENOENT then MSG_ENOENT
    else if errnum == ENOSPC then MSG_ENOSPC
    else if errnum == EOPNOTSUPP then MSG_EOPNOTSUPP
    else if errnum == EPERM then MSG_EPERM
    else if errnum == ESRCH then MSG_ESRCH
    else
      var msg := OTHER_PREFIX + IntToString(errnum);
      assert msg[..|OTHER_PREFIX|] == OTHER_PREFIX;
      assert msg[|OTHER_PREFIX|..] == IntToString(errnum);
      msg
  }

  /** Each named code has its fixed message and any other code the fallback. */
  lemma LookupErrorMessageTable(errnum: int)
    ensures LookupErrorMessage(errnum)
      == if errnum in MESSAGES then MESSAGES[errnum] else OTHER_PREFIX + IntToString(errnum)
  {
  }

  /** Recovers the code from a message of the table (the inverse of
      `LookupErrorMessage`). */
  function ErrnoOfMessage(msg: string): (e: Option<int>)
  {
    if HasPrefix(msg, OTHER_PREFIX) then
      var digits := msg[|OTHER_PREFIX|..];
      if |digits| > 0 && (if digits[0] == '-' then AllDigits(digits[1..]) else AllDigits(digits))
      then Some(ParseInt(digits))
      else None
    else if msg == MSG_E2BIG then Some(E2BIG)
    else if msg == MSG_EACCES then Some(EACCES)
    else if msg == MSG_EBADF then Some(EBADF)
    else if msg == MSG_EBUSY then Some(EBUSY)
    else if msg == MSG_EFAULT then Some(EFAULT)
    else if msg == MSG_EINVAL then Some(EINVAL)
    else if msg == MSG_EMFILE then Some(EMFILE)
    else if msg == MSG_ENODEV then Some(ENODEV)
    else if msg == MSG_ENOENT then Some(ENOENT)
    else if msg == MSG_ENOSPC then Some(ENOSPC)
    else if msg == MSG_EOPNOTSUPP then Some(EOPNOTSUPP)
    else if msg == MSG_EPERM then Some(EPERM)
    else if msg == MSG_ESRCH then Some(ESRCH)
    else None
  }

  /** Every code, named or not, can be read back from its message. */
  lemma ErrnoOfLookupErrorMessage(errnum: int)
    ensures ErrnoOfMessage(LookupErrorMessage(errnum)) == Some(errnum)
  {
    if IsKnownErrno(errnum) {
      ErrnoOfFixedMessage(errnum);
    } else {
      ErrnoOfFallbackMessage(errnum);
    }
  }

  lemma ErrnoOfFixedMessage(errnum: int)
    requires IsKnownErrno(errnum)
    ensures ErrnoOfMessage(LookupErrorMessage(errnum)) == Some(errnum)
  {
    var msg := LookupErrorMessage(errnum);
    assert !HasPrefix(msg, OTHER_PREFIX);
    if errnum == E2BIG {
    } else if errnum == EACCES {
    } else if errnum == EBADF {
    } else if errnum == EBUSY {
    } else if errnum == EFAULT {
    } else if errnum == EINVAL {
    } else if errnum == EMFILE {
    } else if errnum == ENODEV {
    } else if errnum == ENOENT {
    } else if errnum == ENOSPC {
    } else if errnum == EOPNOTSUPP {
    } else if errnum == EPERM {
    } else {
      assert errnum == ESRCH;
    }
  }

  lemma ErrnoOfFallbackMessage(errnum: int)
    requires !IsKnownErrno(errnum)
    ensures ErrnoOfMessage(LookupErrorMessage(errnum)) == Some(errnum)
  {
    var msg := LookupErrorMessage(errnum);
    var digits := IntToString(errnum);
    assert msg[|OTHER_PREFIX|..] == digits;
    IntToStringRoundTrip(errnum);
  }

  /** Distinct codes give distinct messages; in particular the thirteen fixed
      messages are pairwise distinct and none of them looks like a fallback. */
  lemma LookupErrorMessageInjective(a: int, b: int)
    ensures LookupErrorMessage(a) == LookupErrorMessage(b) ==> a == b
  {
    ErrnoOfLookupErrorMessage(a);
    ErrnoOfLookupErrorMessage(b);
  }

  /** The thirteen fixed messages are pairwise distinct. */
  lemma FixedMessagesDistinct(a: int, b: int)
    requires a in MESSAGES && b in MESSAGES && a != b
    ensures MESSAGES[a] != MESSAGES[b]
  {
    LookupErrorMessageTable(a);
    LookupErrorMessageTable(b);
    LookupErrorMessageInjective(a, b);
  }
}
