/** The `Event` record and the pairwise conflict test between two events. */
module Events {
  import opened Clock

  datatype Option<T> = None | Some(value: T)

  /** One row of the `events` table.  `id` is None until the row is stored;
      `duration` is in minutes and is not validated (it may be zero or
      negative); `recurrenceDays` is a JSON list that may be missing, with
      values that are not checked to lie in 0..6. */
  datatype Event = Event(
    id: Option<int>,
    name: string,
    start: Timestamp,
    duration: int,
    isRecurring: bool,
    recurrenceDays: Option<seq<int>>)

  /** `start + timedelta(minutes=duration)`. */
  function End(e: Event): Result<Timestamp>
  {
    AddMinutes(e.start, e.duration)
  }

  /** `recurrence_days or []`: a missing list reads as the empty one. */
  function Days(e: Event): seq<int>
  {
    match e.recurrenceDays
    case None => []
    case Some(days) => days
  }

  /** `_times_overlap`: the two ranges meet, touching ends included. */
  predicate TimesOverlap(startA: int, endA: int, startB: int, endB: int)
  {
    startA <= endB && endA >= startB
  }

  /** `_times_overlap` on the time-of-day parts of both events' start and end. */
  predicate DayTimesOverlap(a: Event, aEnd: Timestamp, b: Event, bEnd: Timestamp)
  {
    TimesOverlap(TimeOfDay(a.start), TimeOfDay(aEnd), TimeOfDay(b.start), TimeOfDay(bEnd))
  }

  /** Whether the candidate `n` conflicts with the stored event `e`, by the
      four cases on the two `is_recurring` flags.  Both ends must be
      computable: the source computes them before it compares. */
  predicate Conflicts(n: Event, e: Event)
    requires End(n).Ok? && End(e).Ok?
  {
    var nEnd, eEnd := End(n).value, End(e).value;
    if n.isRecurring && e.isRecurring then
      var newDays := set d | d in Days(n);
      var existingDays := set d | d in Days(e);
      if newDays == {} || existingDays == {} then false
      else newDays * existingDays != {} && DayTimesOverlap(n, nEnd, e, eEnd)
    else if !n.isRecurring && !e.isRecurring then
      n.start <= eEnd && nEnd >= e.start
    else if n.isRecurring && !e.isRecurring then
      Weekday(e.start) in Days(n) && DayTimesOverlap(n, nEnd, e, eEnd)
    else
      Weekday(n.start) in Days(e) && DayTimesOverlap(n, nEnd, e, eEnd)
  }
}
