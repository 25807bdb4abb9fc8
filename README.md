# Event scheduling conflict check, modelled in Dafny

The model covers the scheduling-conflict test of the calendar event application's `Event` model.
`Event.check_event_conflict(new_event, exclude_id)` reads every stored event except the one whose id is `exclude_id`.
It scans them in order and returns False at the first one that conflicts with the candidate, and True when none does.
Which test a pair gets depends on the two `is_recurring` flags:

- both recurring: the two day lists must share a day and the time-of-day spans must overlap;
- both one-off: the absolute intervals from start to start + duration must overlap;
- one of each: the one-off event's weekday must be among the recurring event's days, and the time-of-day spans must overlap.

Every overlap test is inclusive: intervals that only touch count as a conflict.

Modules:

- `Clock` (`clock.dfy`) covers the `datetime` arithmetic the check uses.
  A datetime is a whole number of seconds from 0001-01-01T00:00.
  That day is a Monday, so `weekday()` is the day number modulo 7.
  `time()` is the timestamp modulo 86400.
  Adding `timedelta(minutes=d)` fails with `OverflowError` outside 0001-01-01 … 9999-12-31.
- `Events` (`events.dfy`) holds the `Event` record, `_times_overlap` (`TimesOverlap`) and the four-case pairwise test (`Conflicts`).
- `ConflictCheck` (`conflict_check.dfy`) holds the row filter (`Query`), the scan as a specification function (`Scan`, `Check`) and the scanning loop (`CheckEventConflict`).
- `ConflictProperties` (`conflict_properties.dfy`) holds the lemmas about the model.

Behaviour the model keeps as the code has it:

- The end time of day is taken after adding the duration to the full datetime.
  A span that crosses midnight therefore ends earlier in the day than it starts, and `_times_overlap` then misses real overlaps (`MidnightWrapHidesOverlap`).
- A one-off event is matched against recurrence days by the weekday of its start only.
- `recurrence_days` that is missing reads as the empty list. Its values are not checked to lie in 0..6.
- A `duration` of zero or less is not rejected.
- An `is_recurring` left unset (Python `None`) behaves like `False`. The record holds it as `false`.
- The stored events are a `seq<Event>` parameter in the order the table returns them.
  The filter `Event.id != exclude_id` follows SQL: a row with a NULL id never passes it.
- Computing an end that leaves the datetime range raises `OverflowError`.
  The model returns `Err(OverflowError)`: at once for the candidate, and during the scan for a stored event reached before any conflict.
  In that case row order decides between "conflict" and an error (`OverflowMakesOrderMatter`).
  When every end is representable, order does not matter (`CheckIgnoresOrder`).

## Model

| member | source | states |
|---|---|---|
| Clock.Weekday | models.py:77-79 | the weekday of a datetime lies in 0..6 |
| Clock.TimeOfDay | models.py:56-60 | `time()` lies in one day and is the offset of the datetime from its own midnight |
| Clock.AddMinutes | models.py:29-30 | adding `timedelta(minutes=d)` succeeds exactly when the result stays in the datetime range, and then moves the datetime by 60·d seconds; otherwise it is an `OverflowError` |
| Clock.TimeOfDayAfterMinutes | models.py:56-60 | the end time of day is (start time of day + duration) modulo one day, so an end past midnight wraps to an earlier time |
| Clock.SameSlotAWeekLater | models.py:77-87 | one week later a datetime has the same weekday and the same time of day |
| ConflictCheck.Query | models.py:33-36 | the filtered rows are exactly the stored events whose id differs from `exclude_id`; without `exclude_id` they are all the stored events, in the same order |
| ConflictCheck.Scan | models.py:38-109 | the scan answers no conflict exactly when every event has a computable end and none conflicts; it answers conflict exactly when the first event that is not clear conflicts; it raises exactly when the first event that is not clear has an overflowing end |
| ConflictCheck.CheckEventConflict | models.py:16-109 | the loop that computes the candidate's end, filters the rows and scans them with early return yields the verdict `Check` specifies |
| ConflictProperties.TimesOverlapSymmetricAndInclusive | models.py:111-124 | `_times_overlap` gives the same answer with the two ranges swapped, and ranges that meet at one instant overlap |
| ConflictProperties.TimesOverlapIsSharedInstant | models.py:124 | for ranges with start ≤ end, `_times_overlap` holds exactly when some instant lies in both closed ranges |
| ConflictProperties.OneOffConflictIsSharedInstant | models.py:67-71 | two one-off events with non-negative durations conflict exactly when their absolute intervals share an instant, touching ends included |
| ConflictProperties.RecurringPairConflict | models.py:43-64 | two recurring events conflict exactly when their day lists share a day and their time-of-day spans overlap; with either list empty or missing they never conflict |
| ConflictProperties.RecurringOneOffConflict | models.py:73-107 | a recurring and a one-off event conflict exactly when the one-off event's weekday is among the recurring days and the time-of-day spans overlap, in both candidate/stored orders |
| ConflictProperties.ConflictsSymmetric | models.py:43-107 | swapping candidate and stored event never changes whether the pair conflicts |
| ConflictProperties.RecurringRepeatsWeekly | models.py:73-90 | moving a one-off event seven days later does not change whether it conflicts with a recurring event |
| ConflictProperties.MidnightWrapHidesOverlap | models.py:56-63 | two recurring Monday events, 23:00 for two hours and 23:30 for ten minutes, share an instant yet are not found to conflict |
| ConflictProperties.EmptyTableAccepts | models.py:38-109 | with no stored events a candidate whose end is representable is accepted |
| ConflictProperties.CheckDecidesConflict | models.py:33-109 | when all ends are representable the check does not raise, and it accepts exactly when no stored event kept by the exclusion conflicts with the candidate |
| ConflictProperties.ScanDecidesConflict | models.py:38-109 | over events whose ends are all representable the scan accepts exactly when none of them conflicts |
| ConflictProperties.CheckIgnoresOrder | models.py:33-38 | when all ends are representable, any reordering of the stored rows gives the same verdict |
| ConflictProperties.OverflowMakesOrderMatter | models.py:38-41 | with a stored end that overflows, the verdict depends on whether a conflicting row comes before it |
| ConflictProperties.QueryAppend | models.py:33-34 | filtering a concatenation of rows is concatenating the filtered parts |
| ConflictProperties.ExcludedEventIgnored | models.py:33-34 | a stored event whose id equals `exclude_id` never affects the verdict, whatever its fields |
| ConflictProperties.MutualVerdict | models.py:16-109 | two events checked only against each other get the same verdict whichever is the candidate |
| ConflictProperties.MondayMorningScenario | models.py:67-71 | against a stored Monday 10:00–11:00 event, candidates at 10:30 and 11:00 conflict and one at 11:01 does not; day 739039 (2024-06-03) has weekday 0 |

## Left out

- The SQLAlchemy column declarations, `cls.query` and the database: the stored events are a parameter.
- `to_dict`: it only serialises fields through `datetime.isoformat`.
- The Flask routes, Marshmallow loading and HTTP status mapping in app.py, and the database setup in init_db.py.
- The race between checking and committing in the create and update routes: a transaction concern outside the check.
- Sub-second precision: datetimes are whole seconds. The comparisons, weekdays and times of day are computed the same way at any finer resolution.
- Time zones: aware and naive datetimes are not distinguished (comparing them raises `TypeError` in Python).
- Missing `start_datetime` or `duration` (Python `None`), which raise `TypeError`, and `recurrence_days` values that are not lists of integers: the record's types rule them out.
- Event names are carried but their length limit of 100 is not enforced; the check does not use them.
