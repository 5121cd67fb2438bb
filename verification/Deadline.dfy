/** POSIX deadlines: milliseconds from a clock sample, and milliseconds left at a later one. */
module Deadline {
  import opened Wrappers
  import opened Powers
  import opened MachineIntegers

  /** The greatest second a signed 64-bit time_t holds. */
  const TIME_MAX: nat := 0x7FFF_FFFF_FFFF_FFFF

  datatype Timespec = Timespec(seconds: I64, nanoseconds: I64) {
    predicate Normalised() {
      0 <= nanoseconds < 1000000000 && 0 <= seconds
    }

    /** The instant as one number. */
    function Nanoseconds(): int { seconds * 1000000000 + nanoseconds }
  }

  datatype Failure = Invalid | Overflow | ClockFailed

  datatype Outcome<T> = Success(value: T) | Failed(failure: Failure)

  /** The normalised instant n milliseconds after a clock sample. */
  ghost predicate IsAfter(deadline: Timespec, now: Timespec, n: int) {
    deadline.Normalised() && deadline.Nanoseconds() == now.Nanoseconds() + n * 1000000
  }

  /** Zero once the deadline has passed, otherwise the least number of milliseconds that reaches it. */
  ghost predicate IsLeft(milliseconds: int, deadline: Timespec, now: Timespec) {
    var span := deadline.Nanoseconds() - now.Nanoseconds();
    if span <= 0 then milliseconds == 0 else (milliseconds - 1) * 1000000 < span <= milliseconds * 1000000
  }

  /** Every instant from the epoch on that fits has exactly one normalised form, and no other instant has. */
  lemma NormalForm(n: int) returns (t: Timespec)
    requires 0 <= n < (TIME_MAX + 1) * 1000000000
    ensures t.Normalised() && t.Nanoseconds() == n
    ensures forall u: Timespec :: u.Normalised() && u.Nanoseconds() == n ==> u == t
  {
    t := Timespec(n / 1000000000, n % 1000000000);
    forall u: Timespec | u.Normalised() && u.Nanoseconds() == n
      ensures u == t
    {
      DivModUnique(n, 1000000000, u.seconds, u.nanoseconds);
    }
  }

  lemma NormalisedIsLater(t: Timespec)
    requires t.Normalised()
    ensures 0 <= t.Nanoseconds() < (TIME_MAX + 1) * 1000000000
  {
  }

  /** posix_timespec_is_normalized_nonnegative. */
  predicate Acceptable(t: Timespec) {
    !(t.nanoseconds < 0 || t.nanoseconds >= 1000000000) && t.seconds >= 0
  }

  /** infiltratr_posix_deadline_after_milliseconds; the clock sample is absent when reading it failed. */
  method After(sample: Option<Timespec>, milliseconds: U64) returns (r: Outcome<Timespec>)
    ensures sample.None? <==> r == Failed(ClockFailed)
    ensures sample.Some? ==> (r == Failed(Invalid) <==> !sample.value.Normalised())
    ensures sample.Some? && sample.value.Normalised() ==>
      var instant := sample.value.Nanoseconds() + milliseconds * 1000000;
      && (r.Success? <==> instant < (TIME_MAX + 1) * 1000000000)
      && (!r.Success? ==> r == Failed(Overflow))
      && (r.Success? ==> IsAfter(r.value, sample.value, milliseconds))
  {
    if sample.None? {
      return Failed(ClockFailed);
    }
    var now := sample.value;
    if !Acceptable(now) {
      return Failed(Invalid);
    }
    var extraSeconds: U64 := milliseconds / 1000;
    var nanoseconds: U64 := now.nanoseconds + (milliseconds % 1000) * 1000000;
    if nanoseconds >= 1000000000 {
      nanoseconds := nanoseconds - 1000000000;
      extraSeconds := extraSeconds + 1;
    }
    if now.seconds > TIME_MAX || extraSeconds > TIME_MAX - now.seconds {
      return Failed(Overflow);
    }
    r := Success(Timespec(now.seconds + extraSeconds, nanoseconds));
  }

  /** infiltratr_posix_deadline_remaining_milliseconds: zero once the deadline has passed, otherwise the
      least number of milliseconds that reaches it. */
  method Remaining(sample: Option<Timespec>, deadline: Timespec) returns (r: Outcome<U64>)
    ensures r == Failed(Invalid) <==> !deadline.Normalised() || (sample.Some? && !sample.value.Normalised())
    ensures deadline.Normalised() ==> (sample.None? <==> r == Failed(ClockFailed))
    ensures sample.Some? && deadline.Normalised() && sample.value.Normalised() ==>
      var span := deadline.Nanoseconds() - sample.value.Nanoseconds();
      && (r.Success? <==> span <= U64_MAX * 1000000)
      && (!r.Success? ==> r == Failed(Overflow))
      && (r.Success? ==> IsLeft(r.value, deadline, sample.value))
  {
    if !Acceptable(deadline) {
      return Failed(Invalid);
    }
    if sample.None? {
      return Failed(ClockFailed);
    }
    var now := sample.value;
    if !Acceptable(now) {
      return Failed(Invalid);
    }
    if deadline.seconds < now.seconds
      || (deadline.seconds == now.seconds && deadline.nanoseconds <= now.nanoseconds) {
      return Success(0);
    }
    var seconds: nat := deadline.seconds - now.seconds;
    var nanoseconds := deadline.nanoseconds - now.nanoseconds;
    if nanoseconds < 0 {
      assert seconds != 0;
      seconds := seconds - 1;
      nanoseconds := nanoseconds + 1000000000;
    }
    if seconds > U64_MAX / 1000 {
      return Failed(Overflow);
    }
    var whole: U64 := seconds * 1000;
    var fractional := (nanoseconds + 999999) / 1000000;
    if fractional > U64_MAX - whole {
      return Failed(Overflow);
    }
    r := Success(whole + fractional);
  }

  /** A deadline n milliseconds away reports exactly n at the sample it was made from. */
  lemma ReportsWhatWasAsked(deadline: Timespec, now: Timespec, n: nat, left: int)
    requires IsAfter(deadline, now, n) && IsLeft(left, deadline, now)
    ensures left == n
  {
    assert deadline.Nanoseconds() - now.Nanoseconds() == n * 1000000;
  }

  /** At later samples a deadline never reports more. */
  lemma LaterReportsLess(deadline: Timespec, first: Timespec, later: Timespec, early: int, late: int)
    requires IsLeft(early, deadline, first) && IsLeft(late, deadline, later)
    requires first.Nanoseconds() <= later.Nanoseconds()
    ensures late <= early
  {
    assert deadline.Nanoseconds() - later.Nanoseconds() <= deadline.Nanoseconds() - first.Nanoseconds();
  }

  /** Waiting for what is reported reaches the deadline, waiting a millisecond less does not, and
      nothing is reported exactly when it has been reached. */
  lemma WaitingSuffices(deadline: Timespec, now: Timespec, left: int)
    requires IsLeft(left, deadline, now)
    ensures now.Nanoseconds() + left * 1000000 >= deadline.Nanoseconds()
    ensures left == 0 <==> now.Nanoseconds() >= deadline.Nanoseconds()
    ensures left > 0 ==> now.Nanoseconds() + (left - 1) * 1000000 < deadline.Nanoseconds()
  {
    assert deadline.Nanoseconds() - now.Nanoseconds() <= left * 1000000;
  }
}
