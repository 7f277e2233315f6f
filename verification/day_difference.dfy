/**
 The calendar-day difference of `calculateDaysBetweenDates`: rejects a missing or
 invalid `Date` with "Invalid Date object provided.", otherwise rebuilds each date as
 UTC midnight of its calendar date with `Date.UTC` (years 0 to 99 are read as 1900 to
 1999; `DaysBetweenDatesAsWritten` models that), and returns the absolute difference
 in milliseconds floor-divided by the milliseconds of one day.

 A `Date` argument is taken as its local calendar date and local time of day; the time
 zone that produces them is not modelled.
 */
module DayDifference {
  import opened Calendar
  import opened Wrappers

  const MillisecondsPerDay: int := 1000 * 60 * 60 * 24

  /** Day number of the Unix epoch, 1970-01-01, where ECMAScript time values start. */
  const UnixEpochDayNumber: int := 719162

  const InvalidDateMessage: string := "Invalid Date object provided."

  /** The one error the function throws. */
  datatype DateError = InvalidDateError(message: string)

  /**
   A `Date` argument: absent (`null` or `undefined`), a `Date` whose time value is NaN,
   or an instant given by its calendar date and time of day in milliseconds. An `Instant`
   whose components name no real date (2023-02-30, say) or whose time of day lies outside
   one day stands for no JavaScript `Date`; `IsValidArg` treats it like an invalid one.
   */
  datatype DateArg = Missing | NotANumber | Instant(local: Date, millisOfDay: int)

  /** The argument stands for a JavaScript value: every `Instant` names a real instant. */
  predicate StandsForDate(a: DateArg) {
    a.Instant? ==> ValidDate(a.local) && 0 <= a.millisOfDay < MillisecondsPerDay
  }

  /**
   An argument that gets past the guard `!date || isNaN(date.getTime())`, which throws
   when it is true: on JavaScript values, exactly those that are neither absent nor NaN.
   */
  predicate IsValidArg(a: DateArg): (ok: bool)
    ensures a.Missing? || a.NotANumber? ==> !ok
    ensures StandsForDate(a) ==> (ok <==> !(a.Missing? || a.NotANumber?))
    ensures !StandsForDate(a) ==> !ok
  {
    a.Instant? && ValidDate(a.local) && 0 <= a.millisOfDay < MillisecondsPerDay
  }

  function Dist(x: int, y: int): nat {
    if x < y then y - x else x - y
  }

  /**
   `Date.UTC(y, m - 1, d)` for a date outside the years 0 to 99: milliseconds from the
   epoch to its UTC midnight, a whole number of days, and 0 only for 1970-01-01.
   */
  function UtcMidnight(d: Date): (t: int)
    requires ValidDate(d)
    ensures t % MillisecondsPerDay == 0
    ensures t / MillisecondsPerDay == DayNumber(d) - UnixEpochDayNumber
    ensures t == 0 <==> d == Date(1970, 1, 1)
  {
    ClosedFormAgrees(1970);
    assert DayNumber(Date(1970, 1, 1)) == UnixEpochDayNumber;
    DayNumberInjective(d, Date(1970, 1, 1));
    DivUnique((DayNumber(d) - UnixEpochDayNumber) * MillisecondsPerDay, MillisecondsPerDay,
              DayNumber(d) - UnixEpochDayNumber, 0);
    (DayNumber(d) - UnixEpochDayNumber) * MillisecondsPerDay
  }

  /** Whole days between two multiples of a day, measured in milliseconds. */
  lemma ExactDayDivision(x: int, y: int)
    ensures Dist(x * MillisecondsPerDay, y * MillisecondsPerDay) / MillisecondsPerDay == Dist(x, y)
  {
    var k := Dist(x, y);
    assert Dist(x * MillisecondsPerDay, y * MillisecondsPerDay) == k * MillisecondsPerDay;
    DivUnique(k * MillisecondsPerDay, MillisecondsPerDay, k, 0);
  }

  /**
   The intended `calculateDaysBetweenDates(date1, date2)`: the error for a missing or
   invalid argument, otherwise the number of whole calendar days between the two dates.
   The code as written differs for the years 0 to 99 (`DaysBetweenDatesAsWritten`).
   */
  function DaysBetweenDates(date1: DateArg, date2: DateArg): (r: Result<nat, DateError>)
    ensures r.Failure? <==> !IsValidArg(date1) || !IsValidArg(date2)
    ensures r.Failure? ==> r.error == InvalidDateError(InvalidDateMessage)
    ensures r.Success? ==> r.value == Dist(DayNumber(date1.local), DayNumber(date2.local))
  {
    if !IsValidArg(date1) || !IsValidArg(date2) then
      Failure(InvalidDateError(InvalidDateMessage))
    else
      var utcDate1 := UtcMidnight(date1.local);
      var utcDate2 := UtcMidnight(date2.local);
      var diffMilliseconds := Dist(utcDate1, utcDate2);
      ExactDayDivision(DayNumber(date1.local) - UnixEpochDayNumber,
                       DayNumber(date2.local) - UnixEpochDayNumber);
      Success(diffMilliseconds / MillisecondsPerDay)
  }

  // ---------------------------------------------------------------------------
  // Properties

  /**
   On JavaScript values the function throws exactly when an argument is absent or NaN,
   and so does the code as written.
   */
  lemma FailsOnlyOnMissingOrNaN(a: DateArg, b: DateArg)
    requires StandsForDate(a) && StandsForDate(b)
    ensures DaysBetweenDates(a, b).Failure?
            <==> a.Missing? || a.NotANumber? || b.Missing? || b.NotANumber?
    ensures DaysBetweenDatesAsWritten(a, b).Failure?
            <==> a.Missing? || a.NotANumber? || b.Missing? || b.NotANumber?
  {
  }

  /** The order of the arguments does not matter. */
  lemma Symmetric(a: DateArg, b: DateArg)
    ensures DaysBetweenDates(a, b) == DaysBetweenDates(b, a)
  {
  }

  /** A valid date is zero days from itself. */
  lemma SameArgumentIsZero(a: DateArg)
    requires IsValidArg(a)
    ensures DaysBetweenDates(a, a) == Success(0)
  {
  }

  /** The difference is zero exactly when the two calendar dates are the same. */
  lemma ZeroIffSameDate(a: DateArg, b: DateArg)
    requires IsValidArg(a) && IsValidArg(b)
    ensures DaysBetweenDates(a, b) == Success(0) <==> a.local == b.local
  {
    DayNumberInjective(a.local, b.local);
  }

  /** Only the calendar date counts: the time of day of either argument is ignored. */
  lemma TimeOfDayIgnored(d1: Date, d2: Date, t1: int, t2: int, u1: int, u2: int)
    requires IsValidArg(Instant(d1, t1)) && IsValidArg(Instant(d1, u1))
    requires IsValidArg(Instant(d2, t2)) && IsValidArg(Instant(d2, u2))
    ensures DaysBetweenDates(Instant(d1, t1), Instant(d2, t2))
         == DaysBetweenDates(Instant(d1, u1), Instant(d2, u2))
    ensures DaysBetweenDates(Instant(d1, t1), Instant(d1, u1)) == Success(0)
  {
  }

  /** The day after a date is one day away. */
  lemma NextDayIsOneDayAway(d: Date, t: int)
    requires IsValidArg(Instant(d, t))
    ensures DaysBetweenDates(Instant(d, t), Instant(NextDay(d), 0)) == Success(1)
  {
  }

  /** Differences along chronologically ordered dates add up. */
  lemma OrderedDifferencesAdd(a: DateArg, b: DateArg, c: DateArg)
    requires IsValidArg(a) && IsValidArg(b) && IsValidArg(c)
    requires AtOrBefore(a.local, b.local) && AtOrBefore(b.local, c.local)
    ensures DaysBetweenDates(a, c).value
         == DaysBetweenDates(a, b).value + DaysBetweenDates(b, c).value
  {
    PrecedesIffSmallerDayNumber(b.local, a.local);
    PrecedesIffSmallerDayNumber(c.local, b.local);
  }

  /** Across the end of February: two days in a leap year, one otherwise. */
  lemma EndOfFebruary(y: int)
    ensures DaysBetweenDates(Instant(Date(y, 2, 28), 0), Instant(Date(y, 3, 1), 0))
         == Success(if IsLeapYear(y) then 2 else 1)
  {
  }

  // ---------------------------------------------------------------------------
  // The cases of the unit tests

  lemma FourDaysExample()
    ensures DaysBetweenDates(Instant(Date(2023, 1, 1), 0), Instant(Date(2023, 1, 5), 0)) == Success(4)
    ensures DaysBetweenDates(Instant(Date(2023, 1, 5), 0), Instant(Date(2023, 1, 1), 0)) == Success(4)
  {
  }

  lemma LeapYearExample()
    ensures IsLeapYear(2024)
    ensures DaysBetweenDates(Instant(Date(2024, 2, 28), 0), Instant(Date(2024, 3, 1), 0)) == Success(2)
  {
    EndOfFebruary(2024);
  }

  lemma InvalidDateExample()
    ensures DaysBetweenDates(NotANumber, Instant(Date(2023, 1, 1), 0))
         == Failure(InvalidDateError("Invalid Date object provided."))
    ensures DaysBetweenDates(Instant(Date(2023, 1, 1), 0), Missing)
         == Failure(InvalidDateError("Invalid Date object provided."))
  {
  }

  // ---------------------------------------------------------------------------
  // `Date.UTC` as ECMAScript defines it

  /**
   The year `Date.UTC` (section 21.4.3.4 of ECMA-262) uses after passing its argument
   through MakeFullYear: a year from 0 to 99 is read as 1900 plus that year, and every
   other year is kept.
   */
  function DateUtcYear(y: int): (r: int)
    ensures r == y <==> !(0 <= y <= 99)
    ensures r != y ==> 1900 <= r <= 1999 && r % 100 == y
  {
    if 0 <= y <= 99 then 1900 + y else y
  }

  /**
   `Date.UTC(y, m - 1, d)`, with the day running on past the end of the month: always a
   whole number of days, and UTC midnight of the date whenever the year is not 0 to 99.
   */
  function DateUtc(y: int, m: int, d: int): (t: int)
    requires 1 <= m <= 12
    ensures t % MillisecondsPerDay == 0
    ensures ValidDate(Date(y, m, d)) && !(0 <= y <= 99) ==> t == UtcMidnight(Date(y, m, d))
  {
    (DayNumberOf(DateUtcYear(y), m, d) - UnixEpochDayNumber) * MillisecondsPerDay
  }

  /** The function exactly as written, with the two-digit-year reading of `Date.UTC`. */
  function DaysBetweenDatesAsWritten(date1: DateArg, date2: DateArg): (r: Result<nat, DateError>)
    ensures r.Failure? <==> !IsValidArg(date1) || !IsValidArg(date2)
    ensures r.Failure? ==> r.error == InvalidDateError(InvalidDateMessage)
    ensures r.Success? ==>
      r.value == Dist(DayNumberOf(DateUtcYear(date1.local.year), date1.local.month, date1.local.day),
                      DayNumberOf(DateUtcYear(date2.local.year), date2.local.month, date2.local.day))
  {
    if !IsValidArg(date1) || !IsValidArg(date2) then
      Failure(InvalidDateError(InvalidDateMessage))
    else
      var d1, d2 := date1.local, date2.local;
      var utcDate1 := DateUtc(d1.year, d1.month, d1.day);
      var utcDate2 := DateUtc(d2.year, d2.month, d2.day);
      var diffMilliseconds := Dist(utcDate1, utcDate2);
      ExactDayDivision(DayNumberOf(DateUtcYear(d1.year), d1.month, d1.day) - UnixEpochDayNumber,
                       DayNumberOf(DateUtcYear(d2.year), d2.month, d2.day) - UnixEpochDayNumber);
      Success(diffMilliseconds / MillisecondsPerDay)
  }

  /** Outside the years 0 to 99 the code as written gives the calendar-day difference. */
  lemma AsWrittenAgreesOutsideTwoDigitYears(a: DateArg, b: DateArg)
    requires IsValidArg(a) ==> !(0 <= a.local.year <= 99)
    requires IsValidArg(b) ==> !(0 <= b.local.year <= 99)
    ensures DaysBetweenDatesAsWritten(a, b) == DaysBetweenDates(a, b)
  {
  }

  /** 0050-01-01 and 1950-01-01 are 693,960 days apart, but the code as written says 0. */
  lemma TwoDigitYearIsConfused()
    ensures DaysBetweenDatesAsWritten(Instant(Date(50, 1, 1), 0), Instant(Date(1950, 1, 1), 0)) == Success(0)
    ensures DaysBetweenDates(Instant(Date(50, 1, 1), 0), Instant(Date(1950, 1, 1), 0)) == Success(693960)
  {
    ClosedFormAgrees(50);
    ClosedFormAgrees(1950);
    assert DateUtcYear(50) == 1950;
    assert DayNumber(Date(50, 1, 1)) == 17897;
    assert DayNumber(Date(1950, 1, 1)) == 711857;
  }
}
