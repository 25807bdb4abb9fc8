/** `Event.check_event_conflict`: the stored events, less the one being
    updated, are scanned in order until one conflicts with the candidate. */
module ConflictCheck {
  import opened Clock
  import opened Events

  /** The row filter `Event.id != exclude_id`.  With SQL's three-valued
      logic a row whose id is NULL never passes it; stored rows always have
      an id, so this only matters for hand-built inputs. */
  predicate Considered(e: Event, excludeId: Option<int>)
  {
    excludeId.None? || (e.id.Some? && e.id.value != excludeId.value)
  }

  /** The events the query returns, in table order. */
  function Query(events: seq<Event>, excludeId: Option<int>): (r: seq<Event>)
    ensures |r| <= |events|
    ensures forall e :: e in r <==> e in events && Considered(e, excludeId)
    ensures excludeId.None? ==> r == events
  {
    if events == [] then []
    else
      var rest := Query(events[1..], excludeId);
      assert events == [events[0]] + events[1..];
      if Considered(events[0], excludeId) then [events[0]] + rest else rest
  }

  /** Every event before index `i` has a computable end and does not
      conflict with `n`. */
  predicate ClearBefore(n: Event, q: seq<Event>, i: int)
    requires End(n).Ok? && 0 <= i <= |q|
  {
    forall j :: 0 <= j < i ==> End(q[j]).Ok? && !Conflicts(n, q[j])
  }

  /** The outcome of scanning `q` for a conflict with `n`: `Ok(false)` at the
      first conflicting event, `Err` at the first event whose end overflows,
      whichever comes first, and `Ok(true)` when neither occurs. */
  function Scan(n: Event, q: seq<Event>): (r: Result<bool>)
    requires End(n).Ok?
    ensures r == Ok(true) <==> ClearBefore(n, q, |q|)
    ensures r == Ok(false) <==>
      exists i :: 0 <= i < |q| && ClearBefore(n, q, i) && End(q[i]).Ok? && Conflicts(n, q[i])
    ensures r == Err(OverflowError) <==>
      exists i :: 0 <= i < |q| && ClearBefore(n, q, i) && End(q[i]).Err?
  {
    if q == [] then Ok(true)
    else if End(q[0]).Err? then
      assert ClearBefore(n, q, 0);
      Err(OverflowError)
    else if Conflicts(n, q[0]) then
      assert ClearBefore(n, q, 0);
      Ok(false)
    else
      ClearBeforeShift(n, q);
      Scan(n, q[1..])
  }

  /** When the first event is clear, being clear up to `i + 1` in `q` is being
      clear up to `i` in its tail. */
  lemma ClearBeforeShift(n: Event, q: seq<Event>)
    requires End(n).Ok? && q != [] && End(q[0]).Ok? && !Conflicts(n, q[0])
    ensures forall i {:trigger ClearBefore(n, q[1..], i)} :: 0 <= i <= |q| - 1 ==>
      (ClearBefore(n, q[1..], i) <==> ClearBefore(n, q, i + 1))
  {
  }

  /** The verdict of `check_event_conflict`: the candidate's end is computed
      first, then the filtered events are scanned. */
  function Check(n: Event, existing: seq<Event>, excludeId: Option<int>): Result<bool>
  {
    match End(n)
    case Err(err) => Err(err)
    case Ok(_) => Scan(n, Query(existing, excludeId))
  }

  /** `Event.check_event_conflict(new_event, exclude_id)` with the table
      passed in as `existing`; `Ok(true)` means no conflict. */
  method CheckEventConflict(n: Event, existing: seq<Event>, excludeId: Option<int>)
    returns (r: Result<bool>)
    ensures r == Check(n, existing, excludeId)
  {
    var newEventEnd := AddMinutes(n.start, n.duration);
    if newEventEnd.Err? {
      return Err(newEventEnd.error);
    }
    var events := Query(existing, excludeId);
    var i := 0;
    while i < |events|
      invariant 0 <= i <= |events|
      invariant ClearBefore(n, events, i)
    {
      var event := events[i];
      var eventEnd := AddMinutes(event.start, event.duration);
      if eventEnd.Err? {
        return Err(eventEnd.error);
      }
      if Conflicts(n, event) {
        return Ok(false);
      }
      i := i + 1;
    }
    return Ok(true);
  }
}
