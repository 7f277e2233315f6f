/**
 A calendar date in the proleptic Gregorian calendar: a day number counted from
 0001-01-01 as day 0, as `System.DateTime` counts (ECMAScript time values count from
 1970-01-01, which is day 719162 here), a leap-year rule, the day after a date, the
 chronological order of dates and the day of the week.

 Years are unbounded integers (astronomical numbering, so year 0 exists and is a leap
 year); divisions by a positive constant are Euclidean, which for a positive divisor is
 floor division, so the day-number formula holds for years before 1 as well.
 */
module Calendar {

  /** A calendar date: no time of day, no time zone. Month and day are 1-based. */
  datatype Date = Date(year: int, month: int, day: int)

  /** Gregorian leap-year rule: every fourth year, except centuries not divisible by 400. */
  predicate IsLeapYear(y: int) {
    y % 4 == 0 && (y % 100 != 0 || y % 400 == 0)
  }

  function DaysInYear(y: int): int {
    if IsLeapYear(y) then 366 else 365
  }

  function DaysInMonth(y: int, m: int): (n: int)
    requires 1 <= m <= 12
    ensures 28 <= n <= 31
    ensures m == 2 ==> (n == 29 <==> IsLeapYear(y))
  {
    if m == 2 then (if IsLeapYear(y) then 29 else 28)
    else if m == 4 || m == 6 || m == 9 || m == 11 then 30
    else 31
  }

  /** A date that exists: a month 1..12 and a day within that month. */
  predicate ValidDate(d: Date) {
    1 <= d.month <= 12 && 1 <= d.day <= DaysInMonth(d.year, d.month)
  }

  /**
   Days in all years before `y`, counted from the start of year 1 (negative for y < 1):
   the lengths of the years in between, added up one year at a time.
   */
  function DaysBeforeYear(y: int): int
    decreases if y < 1 then 2 - y else y
  {
    if y == 1 then 0
    else if y > 1 then DaysBeforeYear(y - 1) + DaysInYear(y - 1)
    else DaysBeforeYear(y + 1) - DaysInYear(y)
  }

  /**
   The closed formula `System.DateTime` uses for the same count, read with floor
   division. `DateTime` evaluates it only for the years 1 to 9999, where C#'s truncating
   division agrees with floor division; before year 1 only the floor reading is a year count.
   */
  function DaysBeforeYearClosedForm(y: int): int {
    var p := y - 1;
    365 * p + p / 4 - p / 100 + p / 400
  }

  /** Days of year `y` that come before the first of month `m`. */
  function DaysBeforeMonth(y: int, m: int): int
    requires 1 <= m <= 12
  {
    var common :=
      if m == 1 then 0 else if m == 2 then 31 else if m == 3 then 59
      else if m == 4 then 90 else if m == 5 then 120 else if m == 6 then 151
      else if m == 7 then 181 else if m == 8 then 212 else if m == 9 then 243
      else if m == 10 then 273 else if m == 11 then 304 else 334;
    common + (if m > 2 && IsLeapYear(y) then 1 else 0)
  }

  /**
   Day number of year `y`, month `m`, day `d`, with 0001-01-01 as day 0. The day is
   not range-checked: a day past the end of the month runs on into the next month,
   which is how ECMAScript's MakeDay treats it.
   */
  function DayNumberOf(y: int, m: int, d: int): int
    requires 1 <= m <= 12
  {
    DaysBeforeYear(y) + DaysBeforeMonth(y, m) + d - 1
  }

  function DayNumber(d: Date): int
    requires ValidDate(d)
  {
    DayNumberOf(d.year, d.month, d.day)
  }

  // ---------------------------------------------------------------------------
  // Arithmetic behind the day-number formula

  /** Euclidean division has one quotient and remainder. */
  lemma DivUnique(a: int, k: int, q: int, r: int)
    requires k > 0 && a == k * q + r && 0 <= r < k
    ensures a / k == q && a % k == r
  {
    var q0, r0 := a / k, a % k;
    assert k * (q - q0) == r0 - r;
    if q > q0 {
      MulAtLeast(k, q - q0);
    } else if q < q0 {
      MulAtLeast(k, q0 - q);
    }
  }

  lemma MulAtLeast(k: int, t: int)
    requires k > 0 && t >= 1
    ensures k * t >= k
  {
  }

  /** Stepping the dividend by one raises a floor quotient exactly at a multiple. */
  lemma DivStep(p: int, k: int)
    requires k > 0
    ensures (p + 1) / k == p / k + (if (p + 1) % k == 0 then 1 else 0)
  {
    var q, r := p / k, p % k;
    if r == k - 1 {
      DivUnique(p + 1, k, q + 1, 0);
    } else {
      DivUnique(p + 1, k, q, r + 1);
    }
  }

  /** A multiple of 400 is a multiple of 100, and a multiple of 100 a multiple of 4. */
  lemma CenturyDivisibility(y: int)
    ensures y % 400 == 0 ==> y % 100 == 0
    ensures y % 100 == 0 ==> y % 4 == 0
  {
    if y % 400 == 0 {
      DivUnique(y, 400, y / 400, 0);
      DivUnique(y, 100, 4 * (y / 400), 0);
    }
    if y % 100 == 0 {
      DivUnique(y, 100, y / 100, 0);
      DivUnique(y, 4, 25 * (y / 100), 0);
    }
  }

  /** The closed formula advances by the length of the year it passes. */
  lemma ClosedFormStep(y: int)
    ensures DaysBeforeYearClosedForm(y + 1) == DaysBeforeYearClosedForm(y) + DaysInYear(y)
  {
    var p := y - 1;
    DivStep(p, 4);
    DivStep(p, 100);
    DivStep(p, 400);
    CenturyDivisibility(y);
  }

  /** Adding up year lengths gives the closed formula of `DateTime`, for every year. */
  lemma {:induction false} ClosedFormAgrees(y: int)
    ensures DaysBeforeYear(y) == DaysBeforeYearClosedForm(y)
    decreases if y < 1 then 2 - y else y
  {
    if y > 1 {
      ClosedFormAgrees(y - 1);
      ClosedFormStep(y - 1);
    } else if y < 1 {
      ClosedFormAgrees(y + 1);
      ClosedFormStep(y);
    }
  }

  /** Years before `y2` take up at least a full year more than years before `y1 < y2`. */
  lemma {:induction false} DaysBeforeYearGrows(y1: int, y2: int)
    requires y1 < y2
    ensures DaysBeforeYear(y1) + DaysInYear(y1) <= DaysBeforeYear(y2)
    decreases y2 - y1
  {
    if y1 + 1 < y2 {
      DaysBeforeYearGrows(y1 + 1, y2);
    }
  }

  /** The month table is the running sum of the month lengths. */
  lemma DaysBeforeMonthStep(y: int, m: int)
    requires 1 <= m < 12
    ensures DaysBeforeMonth(y, m + 1) == DaysBeforeMonth(y, m) + DaysInMonth(y, m)
  {
  }

  /** The twelve months together make up the year. */
  lemma MonthsFillYear(y: int)
    ensures DaysBeforeMonth(y, 12) + DaysInMonth(y, 12) == DaysInYear(y)
  {
  }

  /** A later month of the same year starts after every day of an earlier month. */
  lemma MonthsGrow(y: int, m1: int, m2: int)
    requires 1 <= m1 < m2 <= 12
    ensures DaysBeforeMonth(y, m1) + DaysInMonth(y, m1) <= DaysBeforeMonth(y, m2)
  {
  }

  /** Every valid date falls inside its own year. */
  lemma DayOfYearBound(d: Date)
    requires ValidDate(d)
    ensures DaysBeforeYear(d.year) <= DayNumber(d) < DaysBeforeYear(d.year) + DaysInYear(d.year)
  {
    if d.month < 12 {
      MonthsGrow(d.year, d.month, 12);
    }
    MonthsFillYear(d.year);
  }

  // ---------------------------------------------------------------------------
  // The next day

  /** The day after `d`: `DateTime.AddDays(1)` on a whole-day date. */
  function NextDay(d: Date): (r: Date)
    requires ValidDate(d)
    ensures ValidDate(r)
    ensures DayNumber(r) == DayNumber(d) + 1
  {
    if d.day < DaysInMonth(d.year, d.month) then
      Date(d.year, d.month, d.day + 1)
    else if d.month < 12 then
      DaysBeforeMonthStep(d.year, d.month);
      Date(d.year, d.month + 1, 1)
    else
      MonthsFillYear(d.year);
      Date(d.year + 1, 1, 1)
  }

  /** The date `k` days after `d`. */
  function Advance(d: Date, k: nat): (r: Date)
    requires ValidDate(d)
    ensures ValidDate(r)
    ensures DayNumber(r) == DayNumber(d) + k
    decreases k
  {
    if k == 0 then d else Advance(NextDay(d), k - 1)
  }

  // ---------------------------------------------------------------------------
  // Chronological order

  /** `a` comes strictly before `b`: `a < b` of `DateTime` on whole-day dates. */
  predicate Precedes(a: Date, b: Date)
    ensures Precedes(a, b) ==> a != b && a.year <= b.year
  {
    a.year < b.year
    || (a.year == b.year && (a.month < b.month || (a.month == b.month && a.day < b.day)))
  }

  /** `a <= b` as `DateTime` compares them: reflexive, and total together with `Precedes`. */
  predicate AtOrBefore(a: Date, b: Date)
    ensures a == b ==> AtOrBefore(a, b)
    ensures AtOrBefore(a, b) <==> a == b || Precedes(a, b)
  {
    !Precedes(b, a)
  }

  /** Comparing dates field by field agrees with comparing their day numbers. */
  lemma PrecedesIffSmallerDayNumber(a: Date, b: Date)
    requires ValidDate(a) && ValidDate(b)
    ensures Precedes(a, b) <==> DayNumber(a) < DayNumber(b)
  {
    if Precedes(a, b) {
      PrecedingDayNumber(a, b);
    } else if Precedes(b, a) {
      PrecedingDayNumber(b, a);
    } else {
      assert a == b;
    }
  }

  lemma PrecedingDayNumber(a: Date, b: Date)
    requires ValidDate(a) && ValidDate(b) && Precedes(a, b)
    ensures DayNumber(a) < DayNumber(b)
  {
    if a.year < b.year {
      DayOfYearBound(a);
      DayOfYearBound(b);
      DaysBeforeYearGrows(a.year, b.year);
    } else if a.month < b.month {
      MonthsGrow(a.year, a.month, b.month);
    }
  }

  /** Distinct dates have distinct day numbers. */
  lemma DayNumberInjective(a: Date, b: Date)
    requires ValidDate(a) && ValidDate(b)
    ensures DayNumber(a) == DayNumber(b) <==> a == b
  {
    PrecedesIffSmallerDayNumber(a, b);
    PrecedesIffSmallerDayNumber(b, a);
  }

  /**
   Every date from `start` on is reached by advancing `start`: the date whose day
   number lies `k` days after `start` is exactly `Advance(start, k)`.
   */
  lemma AdvanceReachesEveryLaterDate(start: Date, d: Date)
    requires ValidDate(start) && ValidDate(d) && AtOrBefore(start, d)
    ensures DayNumber(start) <= DayNumber(d)
    ensures d == Advance(start, DayNumber(d) - DayNumber(start))
  {
    PrecedesIffSmallerDayNumber(d, start);
    DayNumberInjective(d, Advance(start, DayNumber(d) - DayNumber(start)));
  }

  // ---------------------------------------------------------------------------
  // Day of the week

  /** Days of the week in the order and numbering of .NET's `DayOfWeek` (Sunday is 0). */
  datatype DayOfWeek = Sunday | Monday | Tuesday | Wednesday | Thursday | Friday | Saturday

  function DayOfWeekFromIndex(i: int): DayOfWeek
    requires 0 <= i < 7
  {
    match i
    case 0 => Sunday
    case 1 => Monday
    case 2 => Tuesday
    case 3 => Wednesday
    case 4 => Thursday
    case 5 => Friday
    case _ => Saturday
  }

  /** Day of the week of day number `n`; day 0 (0001-01-01) is a Monday. */
  function DayOfWeekOfNumber(n: int): DayOfWeek {
    DayOfWeekFromIndex((n + 1) % 7)
  }

  /**
   `DateTime.DayOfWeek` of a date. Day numbers that are multiples of 7 are Mondays, and
   the weekend is the days whose day number leaves remainder 5 (Saturday) or 6 (Sunday).
   */
  function DayOfWeekOf(d: Date): (w: DayOfWeek)
    requires ValidDate(d)
    ensures w == Monday <==> DayNumber(d) % 7 == 0
    ensures w == Saturday <==> DayNumber(d) % 7 == 5
    ensures w == Sunday <==> DayNumber(d) % 7 == 6
  {
    DivStep(DayNumber(d), 7);
    DayOfWeekOfNumber(DayNumber(d))
  }

  /** The weekday that follows `w`, Saturday wrapping round to Sunday. */
  function Following(w: DayOfWeek): DayOfWeek {
    match w
    case Sunday => Monday
    case Monday => Tuesday
    case Tuesday => Wednesday
    case Wednesday => Thursday
    case Thursday => Friday
    case Friday => Saturday
    case Saturday => Sunday
  }

  /** The day after a date falls on the following day of the week. */
  lemma NextDayFollows(d: Date)
    requires ValidDate(d)
    ensures DayOfWeekOf(NextDay(d)) == Following(DayOfWeekOf(d))
  {
    var n := DayNumber(d);
    DivStep(n + 1, 7);
  }

  /** Anchor of the count: 0001-01-01 is a Monday, as in .NET. */
  lemma FirstDayIsMonday()
    ensures DayOfWeekOf(Date(1, 1, 1)) == Monday
  {
  }
}
