/** What the conflict check promises, stated over the model. */
module ConflictProperties {
  import opened Clock
  import opened Events
  import opened ConflictCheck

  /** Every end the check will compute is representable. */
  predicate EndsInRange(n: Event, existing: seq<Event>)
  {
    End(n).Ok? && forall e :: e in existing ==> End(e).Ok?
  }

  /** `t` lies in the closed range from `lo` to `hi`. */
  predicate Within(t: int, lo: int, hi: int)
  {
    lo <= t <= hi
  }

  // ---- The overlap primitive -------------------------------------------

  /** `_times_overlap` does not depend on which range comes first, and ranges
      that only touch at one end overlap. */
  lemma TimesOverlapSymmetricAndInclusive(startA: int, endA: int, startB: int, endB: int)
    ensures TimesOverlap(startA, endA, startB, endB) == TimesOverlap(startB, endB, startA, endA)
    ensures startA <= endA <= endB ==> TimesOverlap(startA, endA, endA, endB)
  {
  }

  /** For ranges whose start is not after their end, `_times_overlap` holds
      exactly when some instant lies in both closed ranges. */
  lemma TimesOverlapIsSharedInstant(startA: int, endA: int, startB: int, endB: int)
    requires startA <= endA && startB <= endB
    ensures TimesOverlap(startA, endA, startB, endB) <==>
      exists t :: Within(t, startA, endA) && Within(t, startB, endB)
  {
    if TimesOverlap(startA, endA, startB, endB) {
      var t := if startA <= startB then startB else startA;
      assert Within(t, startA, endA) && Within(t, startB, endB);
    }
  }

  // ---- The four cases of the pairwise test ------------------------------

  /** Case 2: two one-off events conflict exactly when their closed absolute
      intervals from start to start + duration share an instant. */
  lemma OneOffConflictIsSharedInstant(a: Event, b: Event)
    requires !a.isRecurring && !b.isRecurring
    requires End(a).Ok? && End(b).Ok? && a.duration >= 0 && b.duration >= 0
    ensures Conflicts(a, b) <==>
      exists t :: Within(t, a.start, End(a).value) && Within(t, b.start, End(b).value)
  {
    TimesOverlapIsSharedInstant(a.start, End(a).value, b.start, End(b).value);
  }

  /** Case 1: two recurring events conflict exactly when their day lists
      share a day and their time-of-day spans overlap; with either list
      empty or missing they never conflict, whatever their times. */
  lemma RecurringPairConflict(a: Event, b: Event)
    requires a.isRecurring && b.isRecurring && End(a).Ok? && End(b).Ok?
    ensures Conflicts(a, b) <==>
      (exists d :: d in Days(a) && d in Days(b)) && DayTimesOverlap(a, End(a).value, b, End(b).value)
    ensures Days(a) == [] || Days(b) == [] ==> !Conflicts(a, b)
  {
    var da := set d | d in Days(a);
    var db := set d | d in Days(b);
    if exists d :: d in Days(a) && d in Days(b) {
      var d :| d in Days(a) && d in Days(b);
      assert d in da * db;
    } else {
      assert da * db == {};
    }
  }

  /** Cases 3 and 4: a recurring event and a one-off event conflict exactly
      when the one-off event's weekday is among the recurring event's days
      and their time-of-day spans overlap, whichever of them is the
      candidate. */
  lemma RecurringOneOffConflict(r: Event, o: Event)
    requires r.isRecurring && !o.isRecurring && End(r).Ok? && End(o).Ok?
    ensures Conflicts(r, o) <==>
      Weekday(o.start) in Days(r) && DayTimesOverlap(r, End(r).value, o, End(o).value)
    ensures Conflicts(o, r) <==>
      Weekday(o.start) in Days(r) && DayTimesOverlap(r, End(r).value, o, End(o).value)
  {
  }

  /** The pairwise test is symmetric: swapping candidate and stored event
      never changes whether they conflict. */
  lemma ConflictsSymmetric(a: Event, b: Event)
    requires End(a).Ok? && End(b).Ok?
    ensures Conflicts(a, b) == Conflicts(b, a)
  {
  }

  /** A recurring event repeats every week: moving a one-off event seven days
      later does not change whether it conflicts with a recurring event. */
  lemma RecurringRepeatsWeekly(r: Event, o: Event)
    requires r.isRecurring && !o.isRecurring && End(r).Ok? && End(o).Ok?
    requires o.start + SecondsPerWeek <= MaxTimestamp
    requires End(o).value + SecondsPerWeek <= MaxTimestamp
    ensures End(o.(start := o.start + SecondsPerWeek)).Ok?
    ensures Conflicts(r, o) == Conflicts(r, o.(start := o.start + SecondsPerWeek))
  {
    var o' := o.(start := o.start + SecondsPerWeek);
    assert End(o').value == End(o).value + SecondsPerWeek;
    SameSlotAWeekLater(o.start);
    SameSlotAWeekLater(End(o).value);
    RecurringOneOffConflict(r, o);
    RecurringOneOffConflict(r, o');
  }

  /** The end time of day is taken after adding the duration, so a recurring
      event from 23:00 for two hours gets the span 23:00..01:00 and is not
      found to conflict with one from 23:30 to 23:40 on the same day, although
      the two occurrences share an instant. */
  lemma MidnightWrapHidesOverlap()
    ensures
      var late := Event(Some(1), "late", 23 * 3600, 120, true, Some([0]));
      var short := Event(Some(2), "short", 23 * 3600 + 1800, 10, true, Some([0]));
      && End(late).Ok? && End(short).Ok?
      && !Conflicts(short, late)
      && Within(23 * 3600 + 1800, late.start, End(late).value)
      && Within(23 * 3600 + 1800, short.start, End(short).value)
  {
  }

  // ---- The scan -----------------------------------------------------------

  /** With no stored events the candidate is accepted, unless its own end
      overflows. */
  lemma EmptyTableAccepts(n: Event, excludeId: Option<int>)
    requires End(n).Ok?
    ensures Check(n, [], excludeId) == Ok(true)
  {
  }

  /** When every end is representable the check never fails, and it answers
      "no conflict" exactly when no stored event that the exclusion keeps
      conflicts with the candidate. */
  lemma CheckDecidesConflict(n: Event, existing: seq<Event>, excludeId: Option<int>)
    requires EndsInRange(n, existing)
    ensures Check(n, existing, excludeId) ==
      Ok(forall e :: e in existing && Considered(e, excludeId) ==> !Conflicts(n, e))
  {
    var q := Query(existing, excludeId);
    assert forall e :: e in q ==> e in existing;
    ScanDecidesConflict(n, q);
  }

  /** Over a sequence of events whose ends are all representable, the scan
      answers "no conflict" exactly when no event in it conflicts. */
  lemma ScanDecidesConflict(n: Event, q: seq<Event>)
    requires End(n).Ok? && forall e :: e in q ==> End(e).Ok?
    ensures Scan(n, q) == Ok(forall e :: e in q ==> !Conflicts(n, e))
  {
  }

  /** The order in which the table returns its rows does not matter when every
      end is representable. */
  lemma CheckIgnoresOrder(n: Event, s: seq<Event>, t: seq<Event>, excludeId: Option<int>)
    requires EndsInRange(n, s) && multiset(s) == multiset(t)
    ensures EndsInRange(n, t)
    ensures Check(n, s, excludeId) == Check(n, t, excludeId)
  {
    assert forall e :: e in s <==> e in multiset(s);
    assert forall e :: e in t <==> e in multiset(t);
    CheckDecidesConflict(n, s, excludeId);
    CheckDecidesConflict(n, t, excludeId);
  }

  /** When a stored end overflows, the row order does decide the outcome: a
      conflict found first gives "conflict", the overflow found first raises. */
  lemma OverflowMakesOrderMatter()
    ensures
      var n := Event(None, "new", 0, 0, false, None);
      var hit := Event(Some(1), "hit", 0, 0, false, None);
      var far := Event(Some(2), "far", MaxTimestamp, 1, false, None);
      && Check(n, [hit, far], None) == Ok(false)
      && Check(n, [far, hit], None) == Err(OverflowError)
  {
  }

  lemma {:induction false} QueryAppend(s: seq<Event>, t: seq<Event>, excludeId: Option<int>)
    ensures Query(s + t, excludeId) == Query(s, excludeId) + Query(t, excludeId)
  {
    if s != [] {
      assert (s + t)[1..] == s[1..] + t;
      QueryAppend(s[1..], t, excludeId);
    } else {
      assert s + t == t;
    }
  }

  /** The stored copy of the event being updated never influences the
      verdict: removing it from the table changes nothing, whatever its
      fields and even when its end would overflow. */
  lemma ExcludedEventIgnored(n: Event, before: seq<Event>, e: Event, after: seq<Event>, k: int)
    requires e.id == Some(k)
    ensures Check(n, before + [e] + after, Some(k)) == Check(n, before + after, Some(k))
  {
    QueryAppend(before + [e], after, Some(k));
    QueryAppend(before, [e], Some(k));
    QueryAppend(before, after, Some(k));
    assert Query([e], Some(k)) == [];
    assert Query(before + [e] + after, Some(k)) == Query(before + after, Some(k));
  }

  /** Two events that are each the other's only neighbour get the same
      verdict whichever of them is the candidate. */
  lemma MutualVerdict(a: Event, b: Event)
    requires End(a).Ok? && End(b).Ok?
    ensures Check(a, [b], None) == Check(b, [a], None)
  {
  }

  // ---- A worked scenario ------------------------------------------------

  /** A stored one-off event on Monday 2024-06-03 from 10:00 for an hour
      conflicts with a candidate at 10:30 and, because touching counts, with
      one at 11:00; a candidate at 11:01 is accepted. */
  lemma MondayMorningScenario()
    ensures
      var monday := 739039 * SecondsPerDay;
      var stored := Event(Some(1), "standup", monday + 10 * 3600, 60, false, None);
      var at1030 := Event(None, "a", monday + 10 * 3600 + 1800, 30, false, None);
      var at1100 := Event(None, "b", monday + 11 * 3600, 30, false, None);
      var at1101 := Event(None, "c", monday + 11 * 3600 + 60, 30, false, None);
      && Weekday(monday) == 0
      && Check(at1030, [stored], None) == Ok(false)
      && Check(at1100, [stored], None) == Ok(false)
      && Check(at1101, [stored], None) == Ok(true)
  {
  }
}
