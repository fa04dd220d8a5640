/**
 * backend/Utils/EventValidator.cs: the shape check of a single event and
 * the half-open overlap check against the events of the same day.
 */
module EventValidator {
  import opened Exceptions
  import opened Models
  import Linq

  const EndNotAfterStartMessage := "End Time must be greater than Start Time."
  const DateBefore1900Message := "Event Date cannot be earlier than year 1900."
  const ConflictMessage := "Cannot create Event due to a scheduling conflict"

  /** `new DateOnly(1900, 1, 1)`. */
  const MinEventDate: Day := DateOf(1900, 1, 1)

  /** `ValidateEvent`: the time check first, then the date check. */
  function ValidateEvent(e: Event): (r: Outcome)
    ensures r.Fail? ==> r.failure.Disprz? && r.failure.kind == BadRequest && StatusCode(r.failure.kind) == 400
    ensures r.Fail? ==> r.failure.message == EndNotAfterStartMessage || r.failure.message == DateBefore1900Message
  {
    if e.endTime <= e.startTime then Fail(Disprz(BadRequest, EndNotAfterStartMessage))
    else if e.date < MinEventDate then Fail(Disprz(BadRequest, DateBefore1900Message))
    else Pass
  }

  /** The two spans [start, end) share an instant. */
  predicate Overlaps(a: Event, b: Event) {
    a.startTime < b.endTime && a.endTime > b.startTime
  }

  /** `EnsureNoConflict`: `Where(Id != e.Id).Any(overlap)`, throwing on a hit. */
  function EnsureNoConflict(e: Event, eventsOnSameDay: seq<Event>): (r: Outcome)
    ensures r.Fail? <==> exists x :: x in eventsOnSameDay && x.id != e.id && Overlaps(e, x)
    ensures r.Fail? ==> r.failure == Disprz(Conflict, ConflictMessage)
  {
    var others := Linq.Where(eventsOnSameDay, (x: Event) => x.id != e.id);
    var conflictExists := Linq.Any(others, (x: Event) => Overlaps(e, x));
    assert conflictExists <==> exists x :: x in others && Overlaps(e, x) by {
      if conflictExists {
        var i :| 0 <= i < |others| && Overlaps(e, others[i]);
        assert others[i] in others;
      }
    }
    if conflictExists then Fail(Disprz(Conflict, ConflictMessage)) else Pass
  }

  /** Validation passes exactly for a positive-length span on or after 1900-01-01. */
  lemma ValidateEventPassesIff(e: Event)
    ensures ValidateEvent(e) == Pass <==> e.endTime > e.startTime && e.date >= MinEventDate
  {
  }

  /** An end time not after the start time is reported with the time message, whatever the date. */
  lemma TimeCheckComesFirst(e: Event)
    requires e.endTime <= e.startTime
    ensures ValidateEvent(e) == Fail(Disprz(BadRequest, EndNotAfterStartMessage))
  {
  }

  /** With valid times, the date message is reported exactly for dates before 1900-01-01. */
  lemma DateCheck(e: Event)
    requires e.endTime > e.startTime
    ensures ValidateEvent(e) == Fail(Disprz(BadRequest, DateBefore1900Message)) <==> e.date < MinEventDate
    ensures e.date == MinEventDate ==> ValidateEvent(e) == Pass
  {
  }

  /** "Earlier than 1900-01-01" means exactly "in a year before 1900". */
  lemma EarlierThan1900Iff(year: int, month: int, day: int)
    requires IsValidDate(year, month, day)
    ensures DateOf(year, month, day) < MinEventDate <==> year < 1900
  {
    if year < 1900 {
      DayNumberOrderedByYear(year, month, day, 1900, 1, 1);
    } else if year == 1900 {
      DayNumberWithinYear(year, month, day);
    } else {
      DayNumberOrderedByYear(1900, 1, 1, year, month, day);
    }
  }

  /** Validation reads the times and the date and nothing else. */
  lemma ValidateEventReadsOnlyTimesAndDate(e1: Event, e2: Event)
    requires e1.startTime == e2.startTime && e1.endTime == e2.endTime && e1.date == e2.date
    ensures ValidateEvent(e1) == ValidateEvent(e2)
  {
  }

  /** The overlap test is symmetric. */
  lemma OverlapsSymmetric(a: Event, b: Event)
    ensures Overlaps(a, b) <==> Overlaps(b, a)
  {
  }

  /** Spans that only touch, one ending when the other starts, do not overlap. */
  lemma TouchingDoesNotOverlap(a: Event, b: Event)
    requires a.endTime == b.startTime
    ensures !Overlaps(a, b) && !Overlaps(b, a)
  {
  }

  /** Two valid spans on the same day overlap when one starts inside the other. */
  lemma StartInsideOverlaps(a: Event, b: Event)
    requires ValidateEvent(a) == Pass && ValidateEvent(b) == Pass
    requires a.startTime <= b.startTime < a.endTime
    ensures Overlaps(a, b) && Overlaps(b, a)
  {
  }

  /** No listed events, no conflict. */
  lemma NoEventsNoConflict(e: Event)
    ensures EnsureNoConflict(e, []) == Pass
  {
  }

  /** A listed event with the candidate's own Id is ignored, whatever its times. */
  lemma SameIdIgnored(e: Event, before: seq<Event>, x: Event, after: seq<Event>)
    requires x.id == e.id
    ensures EnsureNoConflict(e, before + [x] + after) == EnsureNoConflict(e, before + after)
  {
  }

  /** The verdict does not depend on the order of the listed events. */
  lemma ConflictIgnoresOrder(e: Event, xs: seq<Event>, ys: seq<Event>)
    requires multiset(xs) == multiset(ys)
    ensures EnsureNoConflict(e, xs) == EnsureNoConflict(e, ys)
  {
  }

  /** Adding listed events can only turn a pass into a conflict, never the reverse. */
  lemma ConflictMonotone(e: Event, xs: seq<Event>, ys: seq<Event>)
    requires forall x :: x in xs ==> x in ys
    ensures EnsureNoConflict(e, xs).Fail? ==> EnsureNoConflict(e, ys).Fail?
  {
  }

  /**
   * A at 09:00-10:00: B at 09:30-10:30 conflicts, C at 10:00-11:00 touches.
   * Moving A itself to 11:00-12:00 passes against [A, C], since A's own
   * stored copy is skipped and C only touches; moving it onto C conflicts.
   */
  lemma SameDayScenario(a: Event, b: Event, c: Event)
    requires a.id == 1 && b.id == 2 && c.id == 3
    requires a.startTime == TimeOf(9, 0) && a.endTime == TimeOf(10, 0)
    requires b.startTime == TimeOf(9, 30) && b.endTime == TimeOf(10, 30)
    requires c.startTime == TimeOf(10, 0) && c.endTime == TimeOf(11, 0)
    ensures EnsureNoConflict(b, [a]) == Fail(Disprz(Conflict, ConflictMessage))
    ensures EnsureNoConflict(c, [a]) == Pass
    ensures EnsureNoConflict(a.(startTime := TimeOf(11, 0), endTime := TimeOf(12, 0)), [a, c]) == Pass
    ensures EnsureNoConflict(a.(startTime := TimeOf(10, 0), endTime := TimeOf(11, 0)), [a, c]).Fail?
  {
  }
}
