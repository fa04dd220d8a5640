/**
 * backend/Service/EventService.cs: the event use cases over the events
 * table.  Each state-changing operation is specified by a pure plan of
 * the old rows (what it returns), and the table changes exactly as the plan
 * says.  `GenerateId` is a parameter: the caller supplies the new id.
 */
module EventService {
  import opened Wrappers
  import opened Int64
  import opened Exceptions
  import opened Models
  import opened MappingProfile
  import opened EventValidator
  import Linq
  import Crud = CrudRepository
  import Repo = EventRepository

  /** The primary key of `events`. */
  const EventKey: Event -> Long := (e: Event) => e.id

  /** Two stored events of the same user on the same day do not overlap. */
  predicate Compatible(a: Event, b: Event) {
    !(a.userId == b.userId && a.date == b.date && Overlaps(a, b))
  }

  /**
   * What `Create` is meant to keep: every stored event has a generated
   * (non-zero) id and passes validation, and no two clash.
   */
  predicate Schedule(rows: seq<Event>) {
    && (forall x :: x in rows ==> x.id != 0 && ValidateEvent(x) == Pass)
    && Linq.SortedBy(rows, Compatible)
  }

  /** The 1900 floor is a real day, so a missing date (day 0) never validates. */
  lemma MissingDateFailsValidation(e: Event)
    requires e.date == 0
    ensures ValidateEvent(e).Fail?
  {
  }

  /** An event mapped from a request validates only when the request carries a date. */
  lemma ValidatedRequestHasDate(request: EventRequest)
    ensures ValidateEvent(EventFromRequest(request)) == Pass ==> request.eventDate.Some?
  {
    if request.eventDate.None? {
      MissingDateFailsValidation(EventFromRequest(request));
    }
  }

  /**
   * `Create`: map the request, validate, check against the same user's
   * events on the request's date, then store under the generated id.
   */
  function CreatePlan(rows: seq<Event>, request: EventRequest, generatedId: Long): (r: Result<Event>)
    requires request.userId.Some?
    ensures var candidate := EventFromRequest(request);
      && (r.Ok? <==>
           && ValidateEvent(candidate) == Pass
           && forall x :: x in rows && x.userId == request.userId.value && x.date == candidate.date && x.id != 0
                ==> !Overlaps(candidate, x))
      && (r.Ok? ==> r.value == candidate.(id := generatedId) && r.value.userId == request.userId.value)
      && (r.Err? ==> r.failure == if ValidateEvent(candidate).Fail? then ValidateEvent(candidate).failure
                                  else Disprz(Conflict, ConflictMessage))
  {
    var candidate := EventFromRequest(request);
    match ValidateEvent(candidate)
    case Fail(f) => Err(f)
    case Pass =>
      ValidatedRequestHasDate(request);
      var sameDay := Repo.FindByUserIdAndDate(rows, request.userId.value, request.eventDate);
      match EnsureNoConflict(candidate, sameDay)
      case Fail(f) => Err(f)
      case Pass => Ok(candidate.(id := generatedId))
  }

  /** `Update` as written: fetch the user's event, merge the request into it, save. */
  function UpdatePlan(rows: seq<Event>, id: Long, request: EventRequest): (r: Result<Event>)
    requires request.userId.Some?
    ensures r.Err? <==> Repo.FindByUserIdAndId(rows, request.userId.value, id).None?
    ensures r.Err? ==> r.failure == Disprz(EntityNotFound, Repo.NotFoundMessage(request.userId.value, id))
    ensures r.Ok? ==> exists e :: e in rows && e.id == id && e.userId == request.userId.value && r.value == MergeEvent(e, request)
    ensures r.Ok? ==> r.value.id == id && r.value.userId == request.userId.value
  {
    match Repo.FindByUserIdAndIdOrThrow(rows, request.userId.value, id)
    case Err(f) => Err(f)
    case Ok(e) => Ok(MergeEvent(e, request))
  }

  /** `m` validates and overlaps none of its owner's other stored events on its date. */
  predicate FitsSchedule(rows: seq<Event>, m: Event) {
    && ValidateEvent(m) == Pass
    && forall x :: x in rows && x.userId == m.userId && x.date == m.date && x.id != m.id ==> !Overlaps(m, x)
  }

  /** The conflict check on the owner's events of that day passes exactly when `m` fits. */
  lemma NoConflictIffFits(rows: seq<Event>, m: Event)
    requires ValidateEvent(m) == Pass
    ensures EnsureNoConflict(m, Repo.FindByUserIdAndDate(rows, m.userId, Some(m.date))) == Pass <==> FitsSchedule(rows, m)
  {
  }

  /**
   * `Update` with the checks `Create` makes: the merged event is validated,
   * then checked against the user's other events on its (new) date.
   */
  function UpdateValidatedPlan(rows: seq<Event>, id: Long, request: EventRequest): (r: Result<Event>)
    requires request.userId.Some?
    ensures var u := UpdatePlan(rows, id, request);
      && (u.Err? ==> r == u)
      && (u.Ok? ==> (r.Ok? <==> FitsSchedule(rows, u.value)))
      && (r.Ok? ==> r == u)
      && (r.Err? && u.Ok? ==>
            r.failure == if ValidateEvent(u.value).Fail? then ValidateEvent(u.value).failure
                         else Disprz(Conflict, ConflictMessage))
  {
    match UpdatePlan(rows, id, request)
    case Err(f) => Err(f)
    case Ok(merged) =>
      match ValidateEvent(merged)
      case Fail(f) => Err(f)
      case Pass =>
        var sameDay := Repo.FindByUserIdAndDate(rows, request.userId.value, Some(merged.date));
        NoConflictIffFits(rows, merged);
        match EnsureNoConflict(merged, sameDay)
        case Fail(f) => Err(f)
        case Pass => Ok(merged)
  }

  // ----- The schedule invariant -----

  /** Appending an event that overlaps none of its owner's events that day keeps the schedule. */
  lemma AppendKeepsSchedule(rows: seq<Event>, e: Event)
    requires Schedule(rows) && e.id != 0 && ValidateEvent(e) == Pass
    requires forall x :: x in rows && x.userId == e.userId && x.date == e.date ==> !Overlaps(e, x)
    ensures Schedule(rows + [e])
  {
  }

  lemma CreateKeepsSchedule(rows: seq<Event>, request: EventRequest, generatedId: Long)
    requires Schedule(rows) && request.userId.Some? && generatedId != 0
    requires CreatePlan(rows, request, generatedId).Ok?
    ensures Schedule(rows + [CreatePlan(rows, request, generatedId).value])
  {
    var e := CreatePlan(rows, request, generatedId).value;
    var candidate := EventFromRequest(request);
    forall x | x in rows && x.userId == e.userId && x.date == e.date ensures !Overlaps(e, x) {
      assert !Overlaps(candidate, x);
    }
    assert ValidateEvent(e) == ValidateEvent(candidate);
    AppendKeepsSchedule(rows, e);
  }

  lemma CompatibleSymmetric(a: Event, b: Event)
    ensures Compatible(a, b) == Compatible(b, a)
  {
  }

  /** With distinct keys, replacing the row at `k` leaves every other row as it was. */
  lemma ReplaceOnlyAt(rows: seq<Event>, keyOf: Event -> Long, k: int, m: Event)
    requires Crud.DistinctKeys(rows, keyOf)
    requires 0 <= k < |rows| && keyOf(rows[k]) == keyOf(m)
    ensures |Crud.ReplaceKey(rows, keyOf, m)| == |rows|
    ensures Crud.ReplaceKey(rows, keyOf, m)[k] == m
    ensures forall i :: 0 <= i < |rows| && i != k ==>
      Crud.ReplaceKey(rows, keyOf, m)[i] == rows[i] && keyOf(rows[i]) != keyOf(m)
  {
  }

  /** Replacing a stored event by a valid one that clashes with none of the others keeps the schedule. */
  lemma ReplaceKeepsSchedule(rows: seq<Event>, keyOf: Event -> Long, k: int, m: Event)
    requires forall e :: keyOf(e) == e.id
    requires Crud.DistinctKeys(rows, keyOf) && Schedule(rows)
    requires 0 <= k < |rows| && rows[k].id == m.id
    requires FitsSchedule(rows, m)
    ensures Schedule(Crud.ReplaceKey(rows, keyOf, m))
  {
    var r := Crud.ReplaceKey(rows, keyOf, m);
    ReplaceOnlyAt(rows, keyOf, k, m);
    assert rows[k] in rows;
    forall x | x in r ensures x.id != 0 && ValidateEvent(x) == Pass {
      var i :| 0 <= i < |r| && r[i] == x;
      if i != k {
        assert x == rows[i];
      }
    }
    ReplacedPairsCompatible(rows, r, k, m);
  }

  lemma ReplacedPairsCompatible(rows: seq<Event>, r: seq<Event>, k: int, m: Event)
    requires Linq.SortedBy(rows, Compatible)
    requires |r| == |rows| && 0 <= k < |rows| && r[k] == m
    requires forall i :: 0 <= i < |rows| && i != k ==> r[i] == rows[i] && rows[i].id != m.id
    requires forall x :: x in rows && x.userId == m.userId && x.date == m.date && x.id != m.id ==> !Overlaps(m, x)
    ensures Linq.SortedBy(r, Compatible)
  {
  }

  lemma UpdateValidatedKeepsSchedule(rows: seq<Event>, keyOf: Event -> Long, id: Long, request: EventRequest)
    requires forall e :: keyOf(e) == e.id
    requires Crud.DistinctKeys(rows, keyOf) && Schedule(rows) && request.userId.Some?
    requires UpdateValidatedPlan(rows, id, request).Ok?
    ensures Schedule(Crud.ReplaceKey(rows, keyOf, UpdateValidatedPlan(rows, id, request).value))
  {
    var m := UpdateValidatedPlan(rows, id, request).value;
    var e :| e in rows && e.id == id && e.userId == request.userId.value && m == MergeEvent(e, request);
    var k :| 0 <= k < |rows| && rows[k] == e;
    ReplaceKeepsSchedule(rows, keyOf, k, m);
  }

  lemma DeleteKeepsSchedule(rows: seq<Event>, keyOf: Event -> Long, id: Long)
    requires Schedule(rows)
    ensures Schedule(Crud.RemoveKey(rows, keyOf, id))
  {
    Linq.SubsequenceKeepsOrder(Crud.RemoveKey(rows, keyOf, id), rows, Compatible);
  }

  /**
   * `Update` as written stores what `Create` would refuse: moving the start
   * of a 09:00-10:00 event to 11:00 leaves it ending before it starts.
   * The validating update refuses the same request.
   */
  lemma UpdateAsWrittenBreaksSchedule()
    ensures var stored := Event(1, 7, "Standup", None, MinEventDate, TimeOf(9, 0), TimeOf(10, 0), Some(DefaultTimeZone));
      var request := EventRequest(Some(7), None, None, None, Some(TimeOf(11, 0)), None, None);
      && Schedule([stored])
      && UpdatePlan([stored], 1, request).Ok?
      && !Schedule(Crud.ReplaceKey([stored], EventKey, UpdatePlan([stored], 1, request).value))
      && UpdateValidatedPlan([stored], 1, request) == Err(Disprz(BadRequest, EndNotAfterStartMessage))
  {
    var stored := Event(1, 7, "Standup", None, MinEventDate, TimeOf(9, 0), TimeOf(10, 0), Some(DefaultTimeZone));
    var request := EventRequest(Some(7), None, None, None, Some(TimeOf(11, 0)), None, None);
    assert Repo.FindByUserIdAndId([stored], 7, 1) == Some(stored);
    var merged := UpdatePlan([stored], 1, request).value;
    assert merged == stored.(startTime := TimeOf(11, 0));
    assert Crud.ReplaceKey([stored], EventKey, merged)[0] == merged;
  }

  /** Validation and the conflict check look only at the same user's events on that day. */
  lemma CreateSeesOnlySameUserSameDay(rows1: seq<Event>, rows2: seq<Event>, request: EventRequest, generatedId: Long)
    requires request.userId.Some?
    requires forall x: Event :: x.userId == request.userId.value && x.date == EventFromRequest(request).date ==> (x in rows1 <==> x in rows2)
    ensures CreatePlan(rows1, request, generatedId) == CreatePlan(rows2, request, generatedId)
  {
  }

  class EventService {
    const repository: Crud.CrudRepository<Event>

    ghost predicate Valid()
      reads this, repository
    {
      repository.Valid() && forall e :: repository.keyOf(e) == e.id
    }

    constructor (repository: Crud.CrudRepository<Event>)
      requires repository.Valid() && forall e :: repository.keyOf(e) == e.id
      ensures this.repository == repository && Valid()
    {
      this.repository := repository;
    }

    /** `FindAllByUserId`: the user's events, by date then start time. */
    method FindAllByUserId(userId: Long) returns (r: seq<Event>)
      ensures r == Repo.FindAllByUserId(repository.rows, userId)
      ensures forall x :: x in r <==> x in repository.rows && x.userId == userId
    {
      r := Repo.FindAllByUserId(repository.rows, userId);
    }

    /** `FindAllByUserIdAndDate`: the user's events on that date. */
    method FindAllByUserIdAndDate(userId: Long, date: Option<Day>) returns (r: seq<Event>)
      ensures r == Repo.FindByUserIdAndDate(repository.rows, userId, date)
      ensures date.Some? ==> forall x :: x in r <==> x in repository.rows && x.userId == userId && x.date == date.value
    {
      r := Repo.FindByUserIdAndDate(repository.rows, userId, date);
    }

    /** `Fetch`: the event with that id and owner, or EntityNotFoundException. */
    method Fetch(userId: Long, id: Long) returns (r: Result<Event>)
      ensures r == Repo.FindByUserIdAndIdOrThrow(repository.rows, userId, id)
      ensures r.Ok? ==> r.value in repository.rows && r.value.id == id && r.value.userId == userId
    {
      r := Repo.FindByUserIdAndIdOrThrow(repository.rows, userId, id);
    }

    method Create(request: EventRequest, generatedId: Long) returns (r: Result<Event>)
      requires Valid() && request.userId.Some?
      requires generatedId != 0 && generatedId !in Crud.Keys(repository.rows, repository.keyOf)
      modifies repository
      ensures Valid()
      ensures r == CreatePlan(old(repository.rows), request, generatedId)
      ensures repository.rows == if r.Ok? then old(repository.rows) + [r.value] else old(repository.rows)
    {
      var candidate := EventFromRequest(request);
      var validation := ValidateEvent(candidate);
      if validation.Fail? {
        return Err(validation.failure);
      }
      ValidatedRequestHasDate(request);
      var sameDay := FindAllByUserIdAndDate(request.userId.value, request.eventDate);
      var conflict := EnsureNoConflict(candidate, sameDay);
      if conflict.Fail? {
        return Err(conflict.failure);
      }
      var item := candidate.(id := generatedId);
      r := repository.Create(item);
    }

    /** `Update` as the source has it: no validation, no conflict check. */
    method Update(id: Long, request: EventRequest) returns (r: Result<Event>)
      requires Valid() && request.userId.Some?
      modifies repository
      ensures Valid()
      ensures r == UpdatePlan(old(repository.rows), id, request)
      ensures repository.rows == if r.Ok? then Crud.ReplaceKey(old(repository.rows), repository.keyOf, r.value)
                                 else old(repository.rows)
    {
      var fetched := Fetch(request.userId.value, id);
      if fetched.Err? {
        return Err(fetched.failure);
      }
      var merged := MergeEvent(fetched.value, request);
      var saved := repository.Update(merged);
      r := Ok(saved);
    }

    /** `Update` validating the merged event and checking it for conflicts before saving. */
    method UpdateValidated(id: Long, request: EventRequest) returns (r: Result<Event>)
      requires Valid() && request.userId.Some?
      modifies repository
      ensures Valid()
      ensures r == UpdateValidatedPlan(old(repository.rows), id, request)
      ensures repository.rows == if r.Ok? then Crud.ReplaceKey(old(repository.rows), repository.keyOf, r.value)
                                 else old(repository.rows)
    {
      var fetched := Fetch(request.userId.value, id);
      if fetched.Err? {
        return Err(fetched.failure);
      }
      var merged := MergeEvent(fetched.value, request);
      var validation := ValidateEvent(merged);
      if validation.Fail? {
        return Err(validation.failure);
      }
      var sameDay := FindAllByUserIdAndDate(request.userId.value, Some(merged.date));
      var conflict := EnsureNoConflict(merged, sameDay);
      if conflict.Fail? {
        return Err(conflict.failure);
      }
      var saved := repository.Update(merged);
      r := Ok(saved);
    }

    /** `Delete`: fetch the user's event, then remove it. */
    method Delete(userId: Long, id: Long) returns (r: Outcome)
      requires Valid()
      modifies repository
      ensures Valid()
      ensures r.Pass? <==> old(Repo.FindByUserIdAndId(repository.rows, userId, id)).Some?
      ensures r.Fail? ==> r.failure == Disprz(EntityNotFound, Repo.NotFoundMessage(userId, id))
                          && repository.rows == old(repository.rows)
      ensures r.Pass? ==> repository.rows == Crud.RemoveKey(old(repository.rows), repository.keyOf, id)
    {
      var fetched := Fetch(userId, id);
      if fetched.Err? {
        return Fail(fetched.failure);
      }
      assert repository.keyOf(fetched.value) in Crud.Keys(repository.rows, repository.keyOf);
      r := repository.Delete(fetched.value);
    }
  }
}
