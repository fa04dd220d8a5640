/**
 * The event queries of backend/Repository/EventRepository.cs, as functions
 * of the rows of the events table.
 */
module EventRepository {
  import opened Wrappers
  import opened Int64
  import opened Exceptions
  import opened Models
  import Linq

  /** The order of `OrderBy(EventDate).ThenBy(StartTime)`. */
  predicate ComesBefore(a: Event, b: Event) {
    a.date < b.date || (a.date == b.date && a.startTime <= b.startTime)
  }

  predicate IsOrdered(s: seq<Event>) {
    forall i, j :: 0 <= i < j < |s| ==> ComesBefore(s[i], s[j])
  }

  /** Puts `x` before the first element it comes before. */
  function Insert(x: Event, s: seq<Event>): (r: seq<Event>)
    requires IsOrdered(s)
    ensures IsOrdered(r)
    ensures forall y :: y in r <==> y == x || y in s
    ensures multiset(r) == multiset(s) + multiset{x}
  {
    if s == [] then [x]
    else if ComesBefore(x, s[0]) then [x] + s
    else
      var rest := Insert(x, s[1..]);
      assert s == [s[0]] + s[1..];
      InsertAfterHead(s[0], rest);
      [s[0]] + rest
  }

  lemma InsertAfterHead(h: Event, rest: seq<Event>)
    requires IsOrdered(rest)
    requires forall y :: y in rest ==> ComesBefore(h, y)
    ensures IsOrdered([h] + rest)
  {
  }

  /** The rows sorted by date, then by start time. */
  function OrderByDateThenStart(s: seq<Event>): (r: seq<Event>)
    ensures IsOrdered(r)
    ensures multiset(r) == multiset(s)
  {
    if s == [] then []
    else
      assert s == [s[0]] + s[1..];
      Insert(s[0], OrderByDateThenStart(s[1..]))
  }

  /** `QueryByUser`: the user's events in date, then start-time, order. */
  function QueryByUser(events: seq<Event>, userId: Long): (r: seq<Event>)
    ensures IsOrdered(r)
    ensures forall x :: multiset(r)[x] == if x.userId == userId then multiset(events)[x] else 0
    ensures forall x :: x in r <==> x in events && x.userId == userId
  {
    var mine := Linq.Where(events, (e: Event) => e.userId == userId);
    var r := OrderByDateThenStart(mine);
    assert forall x :: x in r <==> x in multiset(mine);
    r
  }

  /** `FindAllByUserId`. */
  function FindAllByUserId(events: seq<Event>, userId: Long): (r: seq<Event>)
    ensures IsOrdered(r)
    ensures forall x :: x in r <==> x in events && x.userId == userId
    ensures forall x :: multiset(r)[x] == if x.userId == userId then multiset(events)[x] else 0
  {
    QueryByUser(events, userId)
  }

  /** `FindByUserIdAndDate`: nothing without a date. */
  function FindByUserIdAndDate(events: seq<Event>, userId: Long, date: Option<Day>): (r: seq<Event>)
    ensures date.None? ==> r == []
    ensures date.Some? ==> forall x :: x in r <==> x in events && x.userId == userId && x.date == date.value
    ensures IsOrdered(r)
    ensures Linq.IsSubsequence(r, FindAllByUserId(events, userId))
  {
    if date.None? then []
    else
      var all := QueryByUser(events, userId);
      var r := Linq.Where(all, (e: Event) => e.date == date.value);
      Linq.SubsequenceKeepsOrder(r, all, ComesBefore);
      r
  }

  /** `FindByUserIdAndId`: the first row with both that Id and that owner. */
  function FindByUserIdAndId(events: seq<Event>, userId: Long, id: Long): (r: Option<Event>)
    ensures r.Some? ==> r.value in events && r.value.id == id && r.value.userId == userId
    ensures r.None? <==> forall x :: x in events ==> !(x.id == id && x.userId == userId)
  {
    var r := Linq.FirstOrDefault(events, (e: Event) => e.id == id && e.userId == userId);
    assert r.None? ==> forall x :: x in events ==> !(x.id == id && x.userId == userId) by {
      if r.None? {
        forall x | x in events ensures !(x.id == id && x.userId == userId) {
          var i :| 0 <= i < |events| && events[i] == x;
        }
      }
    }
    r
  }

  function NotFoundMessage(userId: Long, id: Long): string {
    "Event with Id " + LongToString(id) + " for User " + LongToString(userId) + " was not found."
  }

  /** `FindByUserIdAndIdOrThrow`: the event, or EntityNotFoundException. */
  function FindByUserIdAndIdOrThrow(events: seq<Event>, userId: Long, id: Long): (r: Result<Event>)
    ensures r.Ok? <==> FindByUserIdAndId(events, userId, id).Some?
    ensures r.Ok? ==> r.value in events && r.value.id == id && r.value.userId == userId
    ensures r.Err? ==> r.failure == Disprz(EntityNotFound, NotFoundMessage(userId, id))
  {
    match FindByUserIdAndId(events, userId, id)
    case Some(e) => Ok(e)
    case None => Err(Disprz(EntityNotFound, NotFoundMessage(userId, id)))
  }

  /** Another user's event with the requested Id is never returned. */
  lemma OtherUsersEventNotFound(events: seq<Event>, userId: Long, id: Long)
    requires forall x :: x in events && x.id == id ==> x.userId != userId
    ensures FindByUserIdAndId(events, userId, id) == None
    ensures FindByUserIdAndIdOrThrow(events, userId, id).Err?
  {
  }
}
