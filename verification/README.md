# Diary calendar backend: scheduling, identity and stores

A Dafny model of the core of the `diary` ASP.NET calendar backend. The
modelled parts are:

- **Event validation and conflict detection.** An event must end after it starts and must not be dated before 1900-01-01. A new event must not overlap, as a half-open interval, another event of the same user on the same day. Events with the candidate's own id are skipped. The update as written checks neither rule (see Findings); the corrected update also checks moved events.
- **Identity resolution.** The JWT authorization filter turns the authenticated principal's `sub` claim into a 64-bit user id. It falls back to the `NameIdentifier` claim only when `sub` is absent. It stores the id in the request's `Items` dictionary, which `GetUserId` reads back. `long.TryParse` is modelled by a decimal parser: an optional sign, ASCII digits, then the signed 64-bit range check.
- **Stores and services.**
  - A generic keyed table (`CrudRepository`) is a class over the rows its `DbSet` enumerates.
  - The event queries filter by owner and date, and order by date and then start time.
  - The event and user services validate, check for conflicts, fetch or fail with NotFound, merge updates, and delete.
- **The AutoMapper profile.** It is written out member by member: a request member overwrites the entity's member exactly when it is non-null.
- **The global exception handler.** A DisprzException keeps its own status and message. Any other exception becomes 500 with a fixed message. The response gets content type `application/json` and an `APIErrorDto` body whose status equals the response status.

Dates are `DateOnly.DayNumber` values, computed from a proleptic Gregorian
calendar. Times are `TimeOnly` ticks since midnight. Ids are the subset
type `Long`. Thrown exceptions are the `Failure` values of `Exceptions`:
a `Disprz` failure of one `ErrorKind`, or `Unexpected`. Methods return them
as a `Result` or an `Outcome`.

Each state-changing service operation is a method on a class holding the
repository. Its contract ties the returned value to a pure plan over the
old rows (`CreatePlan`, `UpdatePlan`, `UpdateValidatedPlan`), and it states
the new rows exactly. The lemmas beside the plans prove what the source
promises: the schedule invariant, not-found behaviour and merge rules.

## Model

| member | source | states |
|---|---|---|
| `Exceptions.StatusCode` | backend/Exceptions/DisprzException.cs:8-11 | every exception kind carries a status in 400..500; 401 exactly for InvalidCredentials and MalformedJwt, 500 exactly for the save/update/delete failures |
| `Int64.TryParseLong` | backend/Security/Filters/JwtAuthFilter.cs:41 | parsing succeeds only on an optional sign followed by decimal digits, and the value is a signed 64-bit integer |
| `Int64.UnsignedDigitsParse` | backend/Security/Filters/JwtAuthFilter.cs:41 | a digit run parses to its decimal value, and is refused exactly when that exceeds `long.MaxValue` |
| `Int64.SignedDigitsParse` | backend/Security/Filters/JwtAuthFilter.cs:41 | '+' keeps the value and '-' negates it; the signed value is refused exactly when it lies outside the range of `long` |
| `Int64.OverflowRefused` | backend/Security/Filters/JwtAuthFilter.cs:41 | a literal above `long.MaxValue`, with or without '+', is refused rather than wrapped |
| `Int64.NegativeOverflowRefused` | backend/Security/Filters/JwtAuthFilter.cs:41 | a negative literal below `long.MinValue` is refused, and `long.MinValue` itself is accepted |
| `Int64.PlusSignAccepted` | backend/Security/Filters/JwtAuthFilter.cs:41 | "+n" parses to n for every n up to `long.MaxValue` |
| `Int64.LeadingZeroValue` | backend/Security/Filters/JwtAuthFilter.cs:41 | a leading zero does not change the value of a digit run |
| `Int64.LeadingZerosAccepted` | backend/Security/Filters/JwtAuthFilter.cs:41 | "0" followed by digits parses exactly as the digits do, so "007" gives 7 |
| `Int64.NatToString` | backend/Repository/EventRepository.cs:51 | the decimal digits of a natural number, "0" exactly for zero and never with a leading zero otherwise |
| `Int64.LongToString` | backend/Repository/EventRepository.cs:51 | the canonical decimal text of a number: '-' exactly when it is negative, then digits that denote its magnitude with no leading zero ("0" alone for zero) |
| `Int64.ParseLongToString` | backend/Security/Filters/JwtAuthFilter.cs:41 | every 64-bit value printed in decimal parses back to itself |
| `Int64.ParseExamples` | backend.Tests/Security/Filters/JwtAuthFilterTests.cs:70-82 | "123" parses to 123 and "-7" to -7; "", "-" and "not-a-number" are refused |
| `Models.DateOf` | backend/Utils/EventValidator.cs:14 | a valid calendar date denotes a day number between 0001-01-01 and 9999-12-31, lying within the days of its own year; January 1 is the first day of its year |
| `Linq.Where` | backend/Utils/EventValidator.cs:23-24 | keeps exactly the matching elements, with their multiplicities, as a subsequence of the input |
| `Linq.Any` | backend/Utils/EventValidator.cs:25 | true exactly when some element matches |
| `Linq.FirstOrDefault` | backend/Repository/EventRepository.cs:44-45 | null exactly when nothing matches; otherwise the first matching element |
| `Linq.SubsequenceKeepsOrder` | backend/Repository/EventRepository.cs:37-39 | a subsequence of an ordered sequence is ordered and holds only its elements |
| `MappingProfile.MergeEventPerMember` | backend/Mappings/MappingProfile.cs:22-24 | each non-null request member overwrites the event's member; each null one keeps the event's value |
| `MappingProfile.MergeEventKeepsId` | backend/Mappings/MappingProfile.cs:22-24 | a merge never changes the event's Id |
| `MappingProfile.MergeEmptyEventRequest` | backend/Mappings/MappingProfile.cs:22-24 | a request with every member null leaves the event unchanged |
| `MappingProfile.MergeEventIdempotent` | backend/Mappings/MappingProfile.cs:22-24 | merging a request twice equals merging it once |
| `MappingProfile.MergeEventDependsOnNullMembersOnly` | backend/Mappings/MappingProfile.cs:22-24 | a request supplying every member gives the same event whatever the old values were, Id aside |
| `MappingProfile.MergeUserPerMember` | backend/Mappings/MappingProfile.cs:15-17 | the same rule for users: the id is kept, and each non-null member overwrites |
| `MappingProfile.MergeEmptyUserRequest` | backend/Mappings/MappingProfile.cs:15-17 | an all-null user request leaves the user unchanged |
| `MappingProfile.MergeUserIdempotent` | backend/Mappings/MappingProfile.cs:15-17 | merging a user request twice equals merging it once |
| `MappingProfile.NewEventDefaults` | backend/Mappings/MappingProfile.cs:20-24 | an event mapped from a request has id 0; without a time zone it gets "Asia/Kolkata", and without a date it gets day 0 |
| `EventValidator.ValidateEvent` | backend/Utils/EventValidator.cs:9-16 | every failure is a BadRequest (status 400) carrying one of the two validation messages |
| `EventValidator.ValidateEventPassesIff` | backend/Utils/EventValidator.cs:9-16 | validation passes exactly when the end time is after the start time and the date is on or after 1900-01-01 |
| `EventValidator.TimeCheckComesFirst` | backend/Utils/EventValidator.cs:11-12 | an end time not after the start time (equal included) fails with BadRequest and the time message, whatever the date |
| `EventValidator.DateCheck` | backend/Utils/EventValidator.cs:14-15 | with valid times, the 1900 message is reported exactly for dates before 1900-01-01; 1900-01-01 itself passes |
| `EventValidator.EarlierThan1900Iff` | backend/Utils/EventValidator.cs:14 | a date is before 1900-01-01 exactly when its year is before 1900 |
| `EventValidator.ValidateEventReadsOnlyTimesAndDate` | backend/Utils/EventValidator.cs:9-16 | two events with equal times and date validate alike: title, time zone, owner and id are not inspected |
| `EventValidator.EnsureNoConflict` | backend/Utils/EventValidator.cs:18-29 | Conflict exactly when a listed event with a different Id overlaps as a half-open interval; the failure carries the code's message |
| `EventValidator.OverlapsSymmetric` | backend/Utils/EventValidator.cs:25 | the overlap test is symmetric |
| `EventValidator.TouchingDoesNotOverlap` | backend/Utils/EventValidator.cs:25 | spans where one ends exactly when the other starts never overlap, in either order |
| `EventValidator.StartInsideOverlaps` | backend/Utils/EventValidator.cs:25 | two valid spans overlap when one starts inside the other |
| `EventValidator.NoEventsNoConflict` | backend/Utils/EventValidator.cs:23-27 | an empty list never conflicts |
| `EventValidator.SameIdIgnored` | backend/Utils/EventValidator.cs:24 | a listed event with the candidate's Id does not change the verdict, whatever its times |
| `EventValidator.ConflictIgnoresOrder` | backend/Utils/EventValidator.cs:23-25 | the verdict does not depend on the order of the list |
| `EventValidator.ConflictMonotone` | backend/Utils/EventValidator.cs:23-25 | more listed events can turn a pass into a conflict, never the reverse |
| `EventValidator.SameDayScenario` | backend/Utils/EventValidator.cs:18-29 | 09:30-10:30 conflicts with 09:00-10:00, and 10:00-11:00 does not; moving A to 11:00-12:00 passes next to A's old copy and C; moving it onto C's span conflicts |
| `CrudRepository.FindByKey` | backend/Repository/CrudRepository/CrudRepository.cs:23-26 | the result is a row with that key; null exactly when no row has it |
| `CrudRepository.FindByKeyUnique` | backend/Repository/CrudRepository/CrudRepository.cs:25 | with distinct keys, the lookup of a row's key returns that row |
| `CrudRepository.RemoveKey` | backend/Repository/CrudRepository/CrudRepository.cs:53 | removal keeps exactly the rows with a different key, in their order |
| `CrudRepository.ReplaceKey` | backend/Repository/CrudRepository/CrudRepository.cs:45-49 | saving an edit replaces each row with that key and leaves every other row in place |
| `CrudRepository.ReplaceKeyKeepsKeys` | backend/Repository/CrudRepository/CrudRepository.cs:45-49 | a save adds and removes no key and keeps keys distinct |
| `CrudRepository.RemoveKeyKeepsDistinct` | backend/Repository/CrudRepository/CrudRepository.cs:51-55 | removal takes exactly that key away and keeps keys distinct |
| `CrudRepository.CrudRepository.constructor` | backend/Repository/CrudRepository/CrudRepository.cs:12-16 | a new table is empty |
| `CrudRepository.CrudRepository.FindAll` | backend/Repository/CrudRepository/CrudRepository.cs:18-21 | returns every stored row, each as many times as stored, and changes nothing |
| `CrudRepository.CrudRepository.FindById` | backend/Repository/CrudRepository/CrudRepository.cs:23-26 | the stored row with that key, or null exactly when there is none |
| `CrudRepository.CrudRepository.FindOrThrow` | backend/Repository/CrudRepository/CrudRepository.cs:28-31 | the row when its key is stored; otherwise EntityNotFound "Entity with id {id} not found" |
| `CrudRepository.CrudRepository.Create` | backend/Repository/CrudRepository/CrudRepository.cs:38-43 | a new key is appended and returned, and FindById then finds it; a duplicate key fails and writes nothing |
| `CrudRepository.CrudRepository.Update` | backend/Repository/CrudRepository/CrudRepository.cs:45-49 | returns its argument; the row with its key now holds it; no key is added or removed |
| `CrudRepository.CrudRepository.Delete` | backend/Repository/CrudRepository/CrudRepository.cs:51-55 | removes exactly the row with that key and keeps all others; an absent key fails and writes nothing |
| `EventRepository.Insert` | backend/Repository/EventRepository.cs:21-22 | inserting into an ordered list keeps it ordered and adds exactly that event |
| `EventRepository.OrderByDateThenStart` | backend/Repository/EventRepository.cs:21-22 | the result is ordered by date, then start time, and is a permutation of the input |
| `EventRepository.QueryByUser` | backend/Repository/EventRepository.cs:17-23 | exactly the user's events, each as many times as stored, ordered by date and then start time |
| `EventRepository.FindAllByUserId` | backend/Repository/EventRepository.cs:25-28 | every stored event of that user and no other, in date/start order |
| `EventRepository.FindByUserIdAndDate` | backend/Repository/EventRepository.cs:30-40 | empty without a date; otherwise exactly the user's events on that date, ordered, as a subsequence of FindAllByUserId |
| `EventRepository.FindByUserIdAndId` | backend/Repository/EventRepository.cs:42-46 | an event only when both Id and owner match; null exactly when no stored event has both |
| `EventRepository.FindByUserIdAndIdOrThrow` | backend/Repository/EventRepository.cs:48-52 | the found event, or EntityNotFound "Event with Id {id} for User {userId} was not found." |
| `EventRepository.OtherUsersEventNotFound` | backend/Repository/EventRepository.cs:42-46 | another user's event with the requested Id is never returned |
| `Http.HttpContext.constructor` | backend/Security/Filters/JwtAuthFilter.cs:23-30 | a fresh request context holds the given principal and endpoint metadata, an empty `Items`, status 200, no content type and no body |
| `HttpContextExtensions.GetUserId` | backend/Security/Extensions/HttpContextExtensions.cs:7-12 | a value exactly when `Items[UserId]` is present and holds a long, and then that long |
| `HttpContextExtensions.GetUserIdOf` | backend/Security/Extensions/HttpContextExtensions.cs:7-12 | the lookup on the context reads `Items` and changes nothing |
| `HttpContextExtensions.StoredIdIsRead` | backend/Security/Extensions/HttpContextExtensions.cs:9-10 | a long stored under the key is what the lookup returns |
| `HttpContextExtensions.AbsentKeyGivesNone` | backend/Security/Extensions/HttpContextExtensions.cs:11 | an absent key, including an empty `Items`, gives null |
| `HttpContextExtensions.OtherTypeGivesNone` | backend/Security/Extensions/HttpContextExtensions.cs:9 | a value of another type under the key gives null |
| `HttpContextExtensions.OtherKeysIgnored` | backend/Security/Extensions/HttpContextExtensions.cs:9 | adding or removing entries under other keys never changes the result |
| `JwtAuthFilter.FindFirst` | backend/Security/Filters/JwtAuthFilter.cs:38-39 | the value of the first claim whose type matches ignoring case; null exactly when no claim matches |
| `JwtAuthFilter.Subject` | backend/Security/Filters/JwtAuthFilter.cs:38-39 | null exactly when the principal has neither a `sub` nor a `NameIdentifier` claim; otherwise the value of one of those claims |
| `JwtAuthFilter.Decide` | backend/Security/Filters/JwtAuthFilter.cs:22-45 | anonymous exactly when the endpoint allows it; otherwise InvalidCredentials for a missing or unauthenticated principal, the parsed id exactly when the subject is present and parses, and MalformedJwt when it is absent or does not parse; every rejection is a 401 |
| `JwtAuthFilter.OnAuthorization` | backend/Security/Filters/JwtAuthFilter.cs:20-51 | passes unless rejected; only a resolved id writes `Items`, as one entry under `UserId`, which GetUserId then returns |
| `JwtAuthFilter.AnonymousEndpointAllowed` | backend/Security/Filters/JwtAuthFilter.cs:22-27 | an anonymous endpoint is allowed even for an unauthenticated or missing principal |
| `JwtAuthFilter.UnauthenticatedRejected` | backend/Security/Filters/JwtAuthFilter.cs:29-35 | an unauthenticated principal is rejected with InvalidCredentials "Token invalid or missing" |
| `JwtAuthFilter.FindFirstIgnoresLaterClaims` | backend/Security/Filters/JwtAuthFilter.cs:38-39 | claims appended after the first claim of a type do not change what the lookup of that type returns |
| `JwtAuthFilter.SubjectPrefersSub` | backend/Security/Filters/JwtAuthFilter.cs:38-39 | when a `sub` claim exists it is the subject, and claims appended later do not change it |
| `JwtAuthFilter.ResolveWhenNumeric` | backend/Security/Filters/JwtAuthFilter.cs:38-48 | any authenticated principal whose subject parses to v is resolved to v |
| `JwtAuthFilter.BadSubNoFallback` | backend/Security/Filters/JwtAuthFilter.cs:38-45 | any authenticated principal whose first `sub` is empty or non-numeric is rejected as MalformedJwt, and claims added after it, a numeric NameIdentifier included, do not change that |
| `JwtAuthFilter.NameIdentifierFallback` | backend/Security/Filters/JwtAuthFilter.cs:38-45 | for any authenticated principal without `sub`, the first NameIdentifier claim decides: its number when it parses, MalformedJwt otherwise |
| `JwtAuthFilter.NameIdentifierOnlyResolves` | backend/Security/Filters/JwtAuthFilter.cs:38-41 | a principal whose only claim is a NameIdentifier holding a printed id resolves to that id |
| `JwtAuthFilter.NoSubjectRejected` | backend/Security/Filters/JwtAuthFilter.cs:41-45 | an authenticated principal with neither claim is rejected with MalformedJwt |
| `JwtAuthFilter.NumericSubResolves` | backend.Tests/Security/Filters/JwtAuthFilterTests.cs:70-82 | `sub` "123" resolves to 123, and GetUserId reads 123 after the write |
| `ExceptionHandler.ErrorResponse` | backend/Exceptions/GlobalExceptionHandler.cs:24-34 | a DisprzException keeps its status and message; anything else gives 500 and "An unexpected error occurred." |
| `ExceptionHandler.UnexpectedDetailHidden` | backend/Exceptions/GlobalExceptionHandler.cs:29-34 | the response to a non-Disprz exception does not depend on its text |
| `ExceptionHandler.ErrorStatusIsError` | backend/Exceptions/GlobalExceptionHandler.cs:24-34 | every error response has a status in 400..500, and 500 exactly for unexpected and save/update/delete failures |
| `ExceptionHandler.StatusPerKind` | backend/Exceptions/GlobalExceptionHandler.cs:24-28 | BadRequest 400, Conflict 409, NotFound 404, InvalidCredentials and MalformedJwt 401, UnauthorizedAccess 403 |
| `ExceptionHandler.GlobalExceptionHandler.constructor` | backend/Exceptions/GlobalExceptionHandler.cs:12-16 | a new handler has logged nothing |
| `ExceptionHandler.GlobalExceptionHandler.HandleException` | backend/Exceptions/GlobalExceptionHandler.cs:37-45 | sets content type `application/json` and the status, then appends a body whose status equals the response status |
| `ExceptionHandler.GlobalExceptionHandler.InvokeAsync` | backend/Exceptions/GlobalExceptionHandler.cs:18-35 | a normal completion touches neither the response nor the log; a failure logs one line and writes the error response |
| `EventService.MissingDateFailsValidation` | backend/Utils/EventValidator.cs:14-15 | an event mapped from a request without a date (day 0) never validates |
| `EventService.ValidatedRequestHasDate` | backend/Service/EventService.cs:43-51 | an event mapped from a request validates only when the request carries a date, so the conflict query always has one |
| `EventService.CreatePlan` | backend/Service/EventService.cs:43-51 | creation succeeds exactly when the mapped event validates and overlaps none of the user's stored events on its date; the stored event is the mapped one with the generated id; failures report validation before conflict |
| `EventService.UpdatePlan` | backend/Service/EventService.cs:53-60 | NotFound exactly when the user has no event with that Id; otherwise the stored event merged with the request, with its Id kept |
| `EventService.UpdateValidatedPlan` | backend/Service/EventService.cs:53-60 | agrees with UpdatePlan on NotFound and on success; for a found event it succeeds exactly when the merged event validates and overlaps none of the user's other events on its new date; a refusal reports validation before conflict |
| `EventService.NoConflictIffFits` | backend/Service/EventService.cs:74-78 | checking a valid event against the owner's events of its day passes exactly when it overlaps none of the owner's other stored events that day |
| `EventService.CreateKeepsSchedule` | backend/Service/EventService.cs:43-51 | a successful create keeps every stored event validated and non-overlapping |
| `EventService.UpdateValidatedKeepsSchedule` | backend/Service/EventService.cs:53-60 | a validated update keeps every stored event validated and non-overlapping |
| `EventService.DeleteKeepsSchedule` | backend/Service/EventService.cs:62-67 | a delete keeps every remaining event validated and non-overlapping |
| `EventService.UpdateAsWrittenBreaksSchedule` | backend/Service/EventService.cs:53-60 | the update as written stores an event ending before it starts, which the validated update refuses |
| `EventService.CreateSeesOnlySameUserSameDay` | backend/Service/EventService.cs:74-78 | creation depends only on the user's events on the request's date |
| `EventService.EventService.constructor` | backend/Service/EventService.cs:17-22 | the service works over the given repository |
| `EventService.EventService.FindAllByUserId` | backend/Service/EventService.cs:24-29 | the repository query, read-only: exactly the user's events |
| `EventService.EventService.FindAllByUserIdAndDate` | backend/Service/EventService.cs:31-35 | the repository query, read-only: exactly the user's events on that date |
| `EventService.EventService.Fetch` | backend/Service/EventService.cs:37-41 | the event with that Id and owner, otherwise NotFound |
| `EventService.EventService.Create` | backend/Service/EventService.cs:43-51 | returns CreatePlan's result; on success exactly that one event is appended, otherwise the table is unchanged |
| `EventService.EventService.Update` | backend/Service/EventService.cs:53-60 | returns UpdatePlan's result; NotFound writes nothing; otherwise the merged event replaces the stored one |
| `EventService.EventService.UpdateValidated` | backend/Service/EventService.cs:53-60 | returns UpdateValidatedPlan's result; a refusal writes nothing; otherwise the merged event replaces the stored one |
| `EventService.EventService.Delete` | backend/Service/EventService.cs:62-67 | passes exactly when the user has an event with that Id, and removes exactly it; otherwise NotFound and nothing is removed |
| `UserService.UpdatePlan` | backend/Service/UserService.cs:43-50 | NotFound exactly when no user has that id; otherwise that user merged with the request, with the id kept |
| `UserService.NullPasswordKept` | backend/Mappings/MappingProfile.cs:15-17 | an update with a null password keeps the stored password |
| `UserService.UserService.constructor` | backend/Service/UserService.cs:16-21 | the service works over the given repository |
| `UserService.UserService.Index` | backend/Service/UserService.cs:23-27 | every stored user, each as many times as stored, nothing changed |
| `UserService.UserService.Fetch` | backend/Service/UserService.cs:29-33 | the user with that id, otherwise EntityNotFound |
| `UserService.UserService.Create` | backend/Service/UserService.cs:35-41 | stores exactly one new user, mapped from the request, under the generated non-zero id |
| `UserService.UserService.Update` | backend/Service/UserService.cs:43-50 | returns UpdatePlan's result; a missing id writes nothing; no key is added or removed |
| `UserService.UserService.Delete` | backend/Service/UserService.cs:52-57 | removes exactly that user and keeps the others; a missing id gives NotFound and removes nothing |

Definitions without a row are specified by the lemmas in the table rather than by a contract of their own:

- `MappingProfile.MergeEvent`, `MappingProfile.MergeUser`, `MappingProfile.EventFromRequest` and `MappingProfile.UserFromRequest` are the maps of MappingProfile.cs:15-24. The `Merge…PerMember`, `MergeEmpty…`, `Merge…Idempotent` and `NewEventDefaults` lemmas specify them.
- `ExceptionHandler.LogLine` is the log text of GlobalExceptionHandler.cs:26,31. `InvokeAsync` states where it goes.
- `EventRepository.NotFoundMessage` and `UserService.UserNotFoundMessage` are the interpolated messages of EventRepository.cs:51 and CrudRepository.cs:30. `FindByUserIdAndIdOrThrow`, `FindOrThrow` and `UserService.UpdatePlan` state where they are used.
- `Http.HttpContext` stands for the framework's request context. It holds only the members the filter and the handler read and write.

## Left out

- Controllers are HTTP adapters and are not part of this model. Their two pieces of logic become preconditions of the services:
  - the caller always passes an authenticated user id;
  - `request.UserId` is set before `Create` and `Update` (`requires request.userId.Some?`).
- AuthService, the password hasher, JwtTokenGenerator, JwtAuthExtensions, Program.cs, the DbContext and the migrations are not part of this model. They are signing, clocks, foreign libraries and wiring.
- `HttpContextItemKeys` is not part of this model. The key is written as "UserId", and no proof depends on its value.
- `GenerateId` is not part of this model. It becomes the `generatedId` parameter, required to be non-zero and not already a key.
- Logging is not modelled, except for the handler's log lines. JSON serialisation and async/await are not modelled either: the response body is the `APIErrorDto` value, not its JSON text.
- Concurrency is not modelled: two concurrent creates can both pass the conflict check.
- `GlobalExceptionHandler.InvokeAsync` receives the next delegate's outcome as a parameter. Response changes the delegate makes before it throws are not modelled.
- `Int64.TryParseLong`: its own contract states only the shape of an accepted literal. The range check and the values are stated by `UnsignedDigitsParse`, `SignedDigitsParse`, `OverflowRefused`, `NegativeOverflowRefused`, `PlusSignAccepted` and `LeadingZerosAccepted`. It does not accept the surrounding whitespace, culture-specific signs or other number styles that `long.TryParse` allows.
- `JwtAuthFilter.FindFirst` folds case for ASCII letters only, not full Unicode. Several identities on one principal are treated as one claim list. The token handler's inbound claim-type mapping is configuration and is not modelled.
- `EventRepository.QueryByUser` does not state the order of events with the same date and start time. The query is translated to SQL `ORDER BY`, so ties come in an unspecified order.
- `CrudRepository.CrudRepository.FindAll` returns rows in insertion order, while a database gives no order guarantee.
- Entities are values, so in-place edits and aliasing of the tracked entity are not modelled. An update saves the merged value by replacing the row with that key.
- Event shape:
  - `Event.cs` has `DateTime` start and end members and no date. The validator, repository, requests and tests use one date plus `TimeOnly` times, and the model follows them.
  - `EndDate` and `EventType`, which appear only in tests, are left out.
  - Column length limits and required-member checks are not modelled.
- The event validator overloads that take an `EventRequest`, and `request.Date` (EventService.cs:71,76-77), are not in the source. They are modelled as validating the event mapped from the request and using `request.eventDate`, which is what the conflict query reads.
- `EventService.EventService.FindAllByUserIdAndDate` takes a `Long` where the source takes `long?`, since every caller passes the authenticated id.
- Range queries exist only as an interface member and in tests, and are not modelled.
- `EventParticipant` is used by no flow and is not modelled.

Notes on where the code and its documentation or tests differ (the model follows the code):

- **Conflict message.** The code's message is "Cannot create Event due to a scheduling conflict"; the validator tests expect different wording.
- **Database errors.** The ORM's failures are modelled as `Unexpected` failures: an entity whose key is already tracked on `Create`, and a `Delete` that affects no row. The handler maps these to 500.

## Findings

| source | as written | input that shows it | evidently intended | confidence | as-written member | corrected member |
|---|---|---|---|---|---|---|
| backend/Service/EventService.cs:53-60 | `Update` fetches, merges and saves with neither `ValidateEvent` nor the conflict check that `Create` runs | a stored 09:00–10:00 event of user 7, updated with start time 11:00: it is saved ending before it starts | validate the merged event, then check it against the user's other events on its date, as `Create` does; the update tests expect a BadRequest | medium, not executed | `EventService.UpdateAsWrittenBreaksSchedule` | `EventService.UpdateValidatedKeepsSchedule` |
