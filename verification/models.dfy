/**
 * The entities of backend/Models and backend/Requests as values, with the
 * .NET `DateOnly` and `TimeOnly` types they are built from.
 */
module Models {
  import opened Wrappers
  import opened Int64

  // ----- TimeOnly: ticks since midnight -----

  const TicksPerHour: int := 36_000_000_000
  const TicksPerDay: int := 24 * TicksPerHour

  type TimeOfDay = t: int | 0 <= t < TicksPerDay

  function TimeOf(hour: int, minute: int): (t: TimeOfDay)
    requires 0 <= hour < 24 && 0 <= minute < 60
    ensures t == hour * TicksPerHour + minute * (TicksPerHour / 60)
  {
    hour * TicksPerHour + minute * (TicksPerHour / 60)
  }

  // ----- DateOnly: day number since 0001-01-01 (proleptic Gregorian) -----

  predicate IsLeapYear(year: int) {
    year % 4 == 0 && (year % 100 != 0 || year % 400 == 0)
  }

  function DaysInYear(year: int): int { if IsLeapYear(year) then 366 else 365 }

  function DaysInMonth(year: int, month: int): int
    requires 1 <= month <= 12
  {
    if month == 2 then (if IsLeapYear(year) then 29 else 28)
    else if month in {4, 6, 9, 11} then 30
    else 31
  }

  /** Days in the months of `year` before `month`. */
  function DaysBeforeMonth(year: int, month: int): int
    requires 1 <= month <= 13
    decreases month
  {
    if month == 1 then 0 else DaysBeforeMonth(year, month - 1) + DaysInMonth(year, month - 1)
  }

  /** Days from 0001-01-01 to the first day of `year`. */
  function DaysBeforeYear(year: int): int
    requires year >= 1
  {
    var y := year - 1;
    365 * y + y / 4 - y / 100 + y / 400
  }

  const MinYear := 1
  const MaxYear := 9999

  predicate IsValidDate(year: int, month: int, day: int) {
    MinYear <= year <= MaxYear && 1 <= month <= 12 && 1 <= day <= DaysInMonth(year, month)
  }

  /** `new DateOnly(year, month, day).DayNumber` before the range check. */
  function CivilDayNumber(year: int, month: int, day: int): int
    requires IsValidDate(year, month, day)
  {
    DaysBeforeYear(year) + DaysBeforeMonth(year, month) + day - 1
  }

  /** `DateOnly.MaxValue.DayNumber`, the day number of 9999-12-31. */
  const MaxDayNumber: int := 3_652_058

  type Day = d: int | 0 <= d <= MaxDayNumber

  /** The twelve months add up to the year. */
  lemma MonthsMakeYear(year: int)
    ensures DaysBeforeMonth(year, 13) == DaysInYear(year)
  {
  }

  lemma {:induction false} MonthsFitInYear(year: int, month: int)
    requires 1 <= month <= 12
    ensures 0 <= DaysBeforeMonth(year, month)
    ensures DaysBeforeMonth(year, month) + DaysInMonth(year, month) <= DaysInYear(year)
    decreases 13 - month
  {
    if month < 12 {
      MonthsFitInYear(year, month + 1);
    } else {
      MonthsMakeYear(year);
    }
    if month > 1 {
      assert DaysBeforeMonth(year, month) == DaysBeforeMonth(year, month - 1) + DaysInMonth(year, month - 1);
      DaysBeforeMonthNonNegative(year, month - 1);
    }
  }

  lemma DaysBeforeMonthNonNegative(year: int, month: int)
    requires 1 <= month <= 13
    ensures 0 <= DaysBeforeMonth(year, month)
    decreases month
  {
  }

  lemma DaysBeforeNextYear(year: int)
    requires year >= 1
    ensures DaysBeforeYear(year + 1) == DaysBeforeYear(year) + DaysInYear(year)
  {
    var y := year - 1;
    assert (y + 1) / 4 == y / 4 + (if year % 4 == 0 then 1 else 0);
    assert (y + 1) / 100 == y / 100 + (if year % 100 == 0 then 1 else 0);
    assert (y + 1) / 400 == y / 400 + (if year % 400 == 0 then 1 else 0);
  }

  lemma {:induction false} DaysBeforeYearGrows(a: int, b: int)
    requires 1 <= a <= b
    ensures DaysBeforeYear(a) + 365 * (b - a) <= DaysBeforeYear(b)
    decreases b - a
  {
    if a < b {
      DaysBeforeNextYear(a);
      DaysBeforeYearGrows(a + 1, b);
    }
  }

  /** A date's day number lies inside its own year. */
  lemma DayNumberWithinYear(year: int, month: int, day: int)
    requires IsValidDate(year, month, day)
    ensures DaysBeforeYear(year) <= CivilDayNumber(year, month, day) < DaysBeforeYear(year + 1)
  {
    MonthsFitInYear(year, month);
    DaysBeforeNextYear(year);
  }

  /** Every valid date has a day number in the range of `DateOnly`. */
  lemma DayNumberInRange(year: int, month: int, day: int)
    requires IsValidDate(year, month, day)
    ensures 0 <= CivilDayNumber(year, month, day) <= MaxDayNumber
  {
    DayNumberWithinYear(year, month, day);
    DaysBeforeYearGrows(year + 1, MaxYear + 1);
  }

  /** Day numbers of different years are ordered by year. */
  lemma DayNumberOrderedByYear(y1: int, m1: int, d1: int, y2: int, m2: int, d2: int)
    requires IsValidDate(y1, m1, d1) && IsValidDate(y2, m2, d2)
    requires y1 < y2
    ensures CivilDayNumber(y1, m1, d1) < CivilDayNumber(y2, m2, d2)
  {
    DayNumberWithinYear(y1, m1, d1);
    DayNumberWithinYear(y2, m2, d2);
    DaysBeforeYearGrows(y1 + 1, y2);
  }

  /** `new DateOnly(year, month, day)` for a valid date. */
  function DateOf(year: int, month: int, day: int): (d: Day)
    requires IsValidDate(year, month, day)
    ensures DaysBeforeYear(year) <= d < DaysBeforeYear(year + 1)
    ensures month == 1 && day == 1 ==> d == DaysBeforeYear(year)
  {
    DayNumberInRange(year, month, day);
    DayNumberWithinYear(year, month, day);
    CivilDayNumber(year, month, day)
  }

  // ----- Entities -----

  /** `Event` (backend/Models/Event.cs with the date-plus-time shape). */
  datatype Event = Event(
    id: Long,
    userId: Long,
    title: string,
    description: Option<string>,
    date: Day,
    startTime: TimeOfDay,
    endTime: TimeOfDay,
    timeZone: Option<string>)

  const DefaultTimeZone: string := "Asia/Kolkata"

  /** A freshly constructed `Event`: every member at its default value. */
  const NewEvent: Event := Event(0, 0, "", None, 0, 0, 0, Some(DefaultTimeZone))

  /** `User` (backend/Models/User.cs, with the password its tests set). */
  datatype User = User(id: Long, name: string, email: string, password: string)

  const NewUser: User := User(0, "", "", "")

  /** `EventRequest` (backend/Requests/EventRequest.cs): every member nullable. */
  datatype EventRequest = EventRequest(
    userId: Option<Long>,
    title: Option<string>,
    description: Option<string>,
    eventDate: Option<Day>,
    startTime: Option<TimeOfDay>,
    endTime: Option<TimeOfDay>,
    timeZone: Option<string>)

  /** `UserRequest`: name, email and password, each nullable. */
  datatype UserRequest = UserRequest(name: Option<string>, email: Option<string>, password: Option<string>)
}
