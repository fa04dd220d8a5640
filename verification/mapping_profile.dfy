/**
 * The conditional AutoMapper maps of backend/Mappings/MappingProfile.cs,
 * written out member by member: a request member overwrites the entity's
 * member of the same name exactly when it is non-null.
 */
module MappingProfile {
  import opened Wrappers
  import opened Models

  /** The `srcMember != null` condition applied to one member. */
  function Overwrite<T>(source: Option<T>, destination: T): T {
    if source.Some? then source.value else destination
  }

  /** `_mapper.Map(request, eventItem)`. `Event.Id` has no request counterpart. */
  function MergeEvent(e: Event, r: EventRequest): Event {
    e.(userId := Overwrite(r.userId, e.userId),
       title := Overwrite(r.title, e.title),
       description := if r.description.Some? then r.description else e.description,
       date := Overwrite(r.eventDate, e.date),
       startTime := Overwrite(r.startTime, e.startTime),
       endTime := Overwrite(r.endTime, e.endTime),
       timeZone := if r.timeZone.Some? then r.timeZone else e.timeZone)
  }

  /** `_mapper.Map(request, user)`. `User.Id` has no request counterpart. */
  function MergeUser(u: User, r: UserRequest): User {
    u.(name := Overwrite(r.name, u.name),
       email := Overwrite(r.email, u.email),
       password := Overwrite(r.password, u.password))
  }

  /** `_mapper.Map<Event>(request)`: the same rule applied to a new `Event`. */
  function EventFromRequest(r: EventRequest): Event { MergeEvent(NewEvent, r) }

  /** `_mapper.Map<User>(request)`. */
  function UserFromRequest(r: UserRequest): User { MergeUser(NewUser, r) }

  const EmptyEventRequest := EventRequest(None, None, None, None, None, None, None)
  const EmptyUserRequest := UserRequest(None, None, None)

  /** Each supplied member overwrites; each null member keeps the entity's value. */
  lemma MergeEventPerMember(e: Event, r: EventRequest)
    ensures var m := MergeEvent(e, r);
      && (r.userId.Some? ==> m.userId == r.userId.value) && (r.userId.None? ==> m.userId == e.userId)
      && (r.title.Some? ==> m.title == r.title.value) && (r.title.None? ==> m.title == e.title)
      && (r.description.Some? ==> m.description == r.description) && (r.description.None? ==> m.description == e.description)
      && (r.eventDate.Some? ==> m.date == r.eventDate.value) && (r.eventDate.None? ==> m.date == e.date)
      && (r.startTime.Some? ==> m.startTime == r.startTime.value) && (r.startTime.None? ==> m.startTime == e.startTime)
      && (r.endTime.Some? ==> m.endTime == r.endTime.value) && (r.endTime.None? ==> m.endTime == e.endTime)
      && (r.timeZone.Some? ==> m.timeZone == r.timeZone) && (r.timeZone.None? ==> m.timeZone == e.timeZone)
  {
  }

  /** A merge never changes the event's Id. */
  lemma MergeEventKeepsId(e: Event, r: EventRequest)
    ensures MergeEvent(e, r).id == e.id
  {
  }

  /** A request with every member null leaves the event as it was. */
  lemma MergeEmptyEventRequest(e: Event)
    ensures MergeEvent(e, EmptyEventRequest) == e
  {
  }

  /** Merging the same request twice is merging it once. */
  lemma MergeEventIdempotent(e: Event, r: EventRequest)
    ensures MergeEvent(MergeEvent(e, r), r) == MergeEvent(e, r)
  {
  }

  /** The result depends on the old event only through the members the request leaves null. */
  lemma MergeEventDependsOnNullMembersOnly(e1: Event, e2: Event, r: EventRequest)
    requires e1.id == e2.id
    requires r.userId.Some? && r.title.Some? && r.description.Some? && r.eventDate.Some?
    requires r.startTime.Some? && r.endTime.Some? && r.timeZone.Some?
    ensures MergeEvent(e1, r) == MergeEvent(e2, r)
  {
  }

  /** Each supplied member overwrites; a null password keeps the stored one. */
  lemma MergeUserPerMember(u: User, r: UserRequest)
    ensures var m := MergeUser(u, r);
      && m.id == u.id
      && m.name == (if r.name.Some? then r.name.value else u.name)
      && m.email == (if r.email.Some? then r.email.value else u.email)
      && m.password == (if r.password.Some? then r.password.value else u.password)
  {
  }

  lemma MergeEmptyUserRequest(u: User)
    ensures MergeUser(u, EmptyUserRequest) == u
  {
  }

  lemma MergeUserIdempotent(u: User, r: UserRequest)
    ensures MergeUser(MergeUser(u, r), r) == MergeUser(u, r)
  {
  }

  /** A new event takes the default time zone unless the request names one. */
  lemma NewEventDefaults(r: EventRequest)
    ensures EventFromRequest(r).id == 0
    ensures r.timeZone.None? ==> EventFromRequest(r).timeZone == Some(DefaultTimeZone)
    ensures r.eventDate.None? ==> EventFromRequest(r).date == 0
  {
  }
}
