/** The time fields of a lease: completing a request, and the instant a running lease expires. */
module LeaseTimes {
  import opened Options

  /** Nanoseconds since the epoch, and a signed 64-bit count of nanoseconds. */
  type Time = int

  const MAX_INT64: int := 0x7FFF_FFFF_FFFF_FFFF
  const MIN_INT64: int := -0x8000_0000_0000_0000

  type Int64 = x: int | MIN_INT64 <= x <= MAX_INT64

  type Duration = Int64

  /** The zero `time.Time`, January 1 of year 1. */
  const ZERO_TIME: Time := -62135596800_000_000_000

  predicate FitsInt64(x: int) {
    MIN_INT64 <= x <= MAX_INT64
  }

  /** `t.Sub(u)` saturates instead of overflowing. */
  function Sub(t: Time, u: Time): Duration {
    if t - u > MAX_INT64 then MAX_INT64 else if t - u < MIN_INT64 then MIN_INT64 else t - u
  }

  datatype Times = Times(begin: Option<Time>, end: Option<Time>, duration: Option<Duration>)

  datatype TimeError = DurationConflicts | DurationRequired | DurationNotPositive

  predicate Positive(d: Option<Duration>) {
    d.Some? && d.value > 0
  }

  // ---------------------------------------------------------------- completing a request

  /** What a set of fields completes to. */
  function Complete(t: Times): Result<Times, TimeError> {
    if t.begin.Some? && t.end.Some? then
      var calculated := Sub(t.end.value, t.begin.value);
      if Positive(t.duration) && t.duration.value != calculated then Err(DurationConflicts)
      else Checked(t.(duration := Some(calculated)))
    else if t.end.Some? && Positive(t.duration) then
      Checked(t.(begin := Some(t.end.value - t.duration.value)))
    else Checked(t)
  }

  function Checked(t: Times): Result<Times, TimeError> {
    if t.duration.None? then Err(DurationRequired)
    else if t.duration.value <= 0 then Err(DurationNotPositive)
    else Ok(t)
  }

  /** The three pointers the completion reads and overwrites. */
  class TimeFields {
    var begin: Option<Time>
    var end: Option<Time>
    var duration: Option<Duration>

    constructor (t: Times)
      ensures Value() == t
    {
      begin, end, duration := t.begin, t.end, t.duration;
    }

    function Value(): Times
      reads this
    {
      Times(begin, end, duration)
    }

    /** Fills in the missing field or reports why the fields cannot stand. */
    method ReconcileLeaseTimeFields() returns (error: Option<TimeError>)
      modifies this
      ensures error.None? <==> Complete(old(Value())).Ok?
      ensures error.None? ==> Complete(old(Value())) == Ok(Value())
      ensures error.Some? ==> Complete(old(Value())) == Err(error.value)
    {
      if begin.Some? && end.Some? {
        var calculated := Sub(end.value, begin.value);
        if duration.Some? && duration.value > 0 && duration.value != calculated {
          return Some(DurationConflicts);
        }
        duration := Some(calculated);
      } else if end.Some? && duration.Some? && duration.value > 0 {
        begin := Some(end.value + -duration.value);
      }
      if duration.None? {
        return Some(DurationRequired);
      }
      if duration.value <= 0 {
        return Some(DurationNotPositive);
      }
      return None;
    }
  }

  // ---------------------------------------------------------------- what completion means

  /** Begin and end are close enough for their difference to be a 64-bit count. */
  predicate Fits(t: Times) {
    t.begin.Some? && t.end.Some? ==> FitsInt64(t.end.value - t.begin.value)
  }

  /** The fields agree: a positive duration, and an end only together with a begin that lies
      exactly that duration earlier. */
  predicate Exact(t: Times) {
    && Positive(t.duration)
    && (t.end.Some? ==> t.begin.Some? && t.end.value - t.begin.value == t.duration.value)
  }

  /** The same with the saturating difference. */
  predicate Consistent(t: Times) {
    && Positive(t.duration)
    && (t.end.Some? ==> t.begin.Some? && Sub(t.end.value, t.begin.value) == t.duration.value)
  }

  /** `c` keeps every field `t` gives; a begin may be added only next to an end, and a duration that
      is not positive counts as not given. */
  predicate Completes(t: Times, c: Times) {
    && c.end == t.end
    && (t.begin.Some? || t.end.None? ==> c.begin == t.begin)
    && (Positive(t.duration) ==> c.duration == t.duration)
  }

  /** `c` is the one and only way to complete `t` into fields that agree. */
  ghost predicate OnlyCompletion(t: Times, c: Times) {
    && Completes(t, c) && Exact(c)
    && (forall other :: Completes(t, other) && Exact(other) ==> other == c)
  }

  /** Completion succeeds exactly on the requests with one single completion, and returns it. */
  lemma CompleteIsOnlyCompletion(t: Times, c: Times)
    requires Fits(t)
    ensures Complete(t) == Ok(c) <==> OnlyCompletion(t, c)
  {
    if Complete(t) == Ok(c) {
      assert Completes(t, c) && Exact(c);
    } else if OnlyCompletion(t, c) {
      // A second completion next to `c` contradicts the claim that `c` is the only one.
      var longer := if c.duration.value == 1 then 2 else c.duration.value - 1;
      var other :=
        if t.begin.None? && t.end.Some? then Times(Some(c.end.value - longer), c.end, Some(longer))
        else c.(duration := Some(longer));
      if Completes(t, other) && Exact(other) {
        assert false;
      }
    }
  }

  /** Far apart, a successful completion still agrees up to saturation, and exactly when the
      difference fits in 64 bits. */
  lemma CompleteConsistent(t: Times)
    requires Complete(t).Ok?
    ensures Completes(t, Complete(t).value) && Consistent(Complete(t).value)
    ensures Exact(Complete(t).value) <==> Fits(t)
  {
  }

  /** Why completion fails: the given fields contradict each other, no duration can be had, or it is not positive. */
  lemma CompleteFailsExactlyWhen(t: Times)
    requires Fits(t)
    ensures var both := t.begin.Some? && t.end.Some?;
            && (Complete(t) == Err(DurationConflicts)
                <==> both && Positive(t.duration) && t.end.value - t.begin.value != t.duration.value)
            && (Complete(t) == Err(DurationRequired) <==> !both && t.duration.None?)
            && (Complete(t) == Err(DurationNotPositive)
                <==> if both then !Positive(t.duration) && t.end.value <= t.begin.value
                     else t.duration.Some? && t.duration.value <= 0)
  {
  }

  /** Completing twice changes nothing. */
  lemma CompleteIdempotent(t: Times)
    requires Complete(t).Ok?
    ensures Complete(Complete(t).value) == Complete(t)
  {
  }

  /** A begin and end three hundred years apart are accepted with a duration that is not their difference. */
  lemma SaturatedDuration()
    ensures var t := Times(Some(0), Some(9_460_800_000_000_000_000), None);
            Complete(t).Ok? && !Exact(Complete(t).value)
  {
  }

  // ---------------------------------------------------------------- expiry

  /** The instant an assigned lease expires: requested end, else requested begin plus duration, else
      actual begin plus duration, else the zero time. */
  function Expiration(t: Times, actualBegin: Time): Time {
    if t.end.Some? then t.end.value
    else if t.begin.Some? && t.duration.Some? then t.begin.value + t.duration.value
    else if t.duration.Some? then actualBegin + t.duration.value
    else ZERO_TIME
  }

  /** Where the lease counts from. */
  function Start(t: Times, actualBegin: Time): Time {
    if t.begin.Some? then t.begin.value else actualBegin
  }

  /** For fields that agree the three cases are one: start plus duration. */
  lemma ExpirationIsDeadline(t: Times, actualBegin: Time)
    requires Exact(t)
    ensures Expiration(t, actualBegin) == Start(t, actualBegin) + t.duration.value
  {
  }

  /** Whatever a successful completion returns expires at start plus duration exactly when the
      difference of begin and end did not saturate. */
  lemma CompletedDeadline(t: Times, actualBegin: Time)
    requires Complete(t).Ok?
    ensures var c := Complete(t).value;
            Expiration(c, actualBegin) == Start(c, actualBegin) + c.duration.value <==> Fits(t)
  {
  }
}
