/** The parts of Python's `datetime` arithmetic the conflict check relies on,
    over whole-second integer timestamps. */
module Clock {

  const SecondsPerMinute := 60
  const SecondsPerDay := 86400
  const DaysPerWeek := 7
  const SecondsPerWeek := 604800

  /** A datetime counts seconds from 0001-01-01T00:00, the earliest datetime.
      That day is a Monday, so the weekday of a datetime is its day number
      modulo 7 (Monday = 0, as `datetime.weekday()` numbers them).  The latest
      datetime is 9999-12-31T23:59:59, the last second of day 3652058. */
  const MaxTimestamp := 315537897599

  type Timestamp = t: int | 0 <= t <= MaxTimestamp

  /** `datetime + timedelta` raises OverflowError when the result leaves the
      representable range. */
  datatype Error = OverflowError

  datatype Result<T> = Ok(value: T) | Err(error: Error)

  /** `datetime.weekday()`: 0 for Monday up to 6 for Sunday. */
  function Weekday(t: Timestamp): (d: int)
    ensures 0 <= d < DaysPerWeek
  {
    (t / SecondsPerDay) % DaysPerWeek
  }

  /** `datetime.time()` as seconds since midnight: the offset of `t` into
      its own day. */
  function TimeOfDay(t: Timestamp): (s: int)
    ensures 0 <= s < SecondsPerDay
    ensures (t - s) % SecondsPerDay == 0
  {
    t % SecondsPerDay
  }

  /** `t + timedelta(minutes=minutes)`; the duration may be negative. */
  function AddMinutes(t: Timestamp, minutes: int): (r: Result<Timestamp>)
    ensures r.Ok? <==> 0 <= t + 60 * minutes <= MaxTimestamp
    ensures r.Ok? ==> r.value - t == 60 * minutes
    ensures r.Err? ==> r.error == OverflowError
  {
    var u := t + 60 * minutes;
    if 0 <= u <= MaxTimestamp then Ok(u) else Err(OverflowError)
  }

  /** The time of day after adding a duration is the old time of day plus
      the duration, wrapped modulo one day: an end that crosses midnight
      gets a time of day earlier than its start. */
  lemma TimeOfDayAfterMinutes(t: Timestamp, minutes: int)
    requires AddMinutes(t, minutes).Ok?
    ensures TimeOfDay(AddMinutes(t, minutes).value)
            == (TimeOfDay(t) + 60 * minutes) % SecondsPerDay
  {
  }

  /** One week later is the same weekday at the same time of day. */
  lemma SameSlotAWeekLater(t: Timestamp)
    requires t + SecondsPerWeek <= MaxTimestamp
    ensures Weekday(t + SecondsPerWeek) == Weekday(t)
    ensures TimeOfDay(t + SecondsPerWeek) == TimeOfDay(t)
  {
  }
}
