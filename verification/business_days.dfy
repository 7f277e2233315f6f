/**
 The business-day counter of `BusinessDayCalculator.CalculateBusinessDays`: the number
 of dates from a start date to an end date, both included, that fall on Monday to
 Friday, and 0 when the start comes after the end.

 `DateTime` values compare as full timestamps; the dates here are whole days, so `<=`
 and `>` below are the order of calendar dates.
 */
module BusinessDays {
  import opened Calendar
  import opened Wrappers

  /** A business day is any day that is neither a Saturday nor a Sunday. */
  predicate IsBusinessDayNumber(n: int) {
    DayOfWeekOfNumber(n) != Saturday && DayOfWeekOfNumber(n) != Sunday
  }

  predicate IsBusinessDay(d: Date)
    requires ValidDate(d)
  {
    IsBusinessDayNumber(DayNumber(d))
  }

  /** Number of business days among the day numbers `lo .. hi - 1`. */
  function BusinessDayCount(lo: int, hi: int): (c: nat)
    ensures c <= if hi <= lo then 0 else hi - lo
    decreases hi - lo
  {
    if hi <= lo then 0
    else BusinessDayCount(lo, hi - 1) + (if IsBusinessDayNumber(hi - 1) then 1 else 0)
  }

  /** The set of business-day numbers in `lo .. hi - 1`, as an independent reference. */
  ghost function BusinessDayNumbers(lo: int, hi: int): set<int> {
    set n | lo <= n < hi && IsBusinessDayNumber(n)
  }

  /** The business-day count of the dates `start .. end`, both included. */
  function BusinessDaysBetween(start: Date, end: Date): nat
    requires ValidDate(start) && ValidDate(end)
  {
    BusinessDayCount(DayNumber(start), DayNumber(end) + 1)
  }

  // ---------------------------------------------------------------------------
  // The counting loop

  /**
   `CalculateBusinessDays`: walks from `startDate` to `endDate` one day at a time and
   counts the days that are not Saturday or Sunday; a reversed range gives 0.
   */
  method CalculateBusinessDays(startDate: Date, endDate: Date) returns (businessDays: nat)
    requires ValidDate(startDate) && ValidDate(endDate)
    ensures Precedes(endDate, startDate) ==> businessDays == 0
    ensures businessDays == BusinessDaysBetween(startDate, endDate)
    ensures businessDays <= if Precedes(endDate, startDate) then 0
                            else DayNumber(endDate) - DayNumber(startDate) + 1
  {
    PrecedesIffSmallerDayNumber(endDate, startDate);
    if Precedes(endDate, startDate) {
      return 0;
    }
    businessDays := 0;
    var date := startDate;
    while AtOrBefore(date, endDate)
      invariant ValidDate(date)
      invariant DayNumber(startDate) <= DayNumber(date) <= DayNumber(endDate) + 1
      invariant businessDays == BusinessDayCount(DayNumber(startDate), DayNumber(date))
      decreases DayNumber(endDate) - DayNumber(date)
    {
      PrecedesIffSmallerDayNumber(endDate, date);
      if DayOfWeekOf(date) != Saturday && DayOfWeekOf(date) != Sunday {
        businessDays := businessDays + 1;
      }
      date := NextDay(date);
    }
    PrecedesIffSmallerDayNumber(endDate, date);
  }

  // ---------------------------------------------------------------------------
  // What the count means

  /** The recursive count is the size of the set of business-day numbers in the range. */
  lemma {:induction false} CountIsCardinality(lo: int, hi: int)
    ensures BusinessDayCount(lo, hi) == |BusinessDayNumbers(lo, hi)|
    decreases hi - lo
  {
    if hi <= lo {
      assert BusinessDayNumbers(lo, hi) == {};
    } else {
      CountIsCardinality(lo, hi - 1);
      var last: set<int> := if IsBusinessDayNumber(hi - 1) then {hi - 1} else {};
      var before := BusinessDayNumbers(lo, hi - 1);
      forall n | n in BusinessDayNumbers(lo, hi)
        ensures n in before + last
      {
        if n < hi - 1 {
          assert n in before;
        }
      }
      assert BusinessDayNumbers(lo, hi) == before + last;
      assert hi - 1 !in before;
      assert |before + last| == |before| + |last|;
    }
  }

  /**
   A date is a business day within `start .. end` exactly when its day number is in
   the reference set; with `DayNumberInjective` this makes the count a count of dates.
   */
  lemma BusinessDateInRange(start: Date, end: Date, d: Date)
    requires ValidDate(start) && ValidDate(end) && ValidDate(d)
    ensures AtOrBefore(start, d) && AtOrBefore(d, end) && IsBusinessDay(d)
            <==> DayNumber(d) in BusinessDayNumbers(DayNumber(start), DayNumber(end) + 1)
  {
    PrecedesIffSmallerDayNumber(d, start);
    PrecedesIffSmallerDayNumber(end, d);
  }

  /** Every number of the reference set is the day number of a business date in the range. */
  lemma BusinessDayNumberIsDate(start: Date, end: Date, n: int)
    requires ValidDate(start) && ValidDate(end)
    requires n in BusinessDayNumbers(DayNumber(start), DayNumber(end) + 1)
    ensures var d := DateOfNumber(start, n);
            DayNumber(d) == n && AtOrBefore(start, d) && AtOrBefore(d, end) && IsBusinessDay(d)
  {
    var d := DateOfNumber(start, n);
    BusinessDateInRange(start, end, d);
  }

  /** The date `n - DayNumber(start)` days after `start`: the date with day number `n`. */
  function DateOfNumber(start: Date, n: int): (d: Date)
    requires ValidDate(start) && DayNumber(start) <= n
    ensures ValidDate(d) && DayNumber(d) == n
  {
    Advance(start, n - DayNumber(start))
  }

  /** The dates reached from `start` at the day numbers in `numbers`. */
  ghost function DatesOfNumbers(start: Date, numbers: set<int>): set<Date>
    requires ValidDate(start)
  {
    set n | n in numbers && DayNumber(start) <= n :: DateOfNumber(start, n)
  }

  /** The business dates from `start` to `end`, reached from `start` one day at a time. */
  ghost function BusinessDates(start: Date, end: Date): set<Date>
    requires ValidDate(start) && ValidDate(end)
  {
    DatesOfNumbers(start, BusinessDayNumbers(DayNumber(start), DayNumber(end) + 1))
  }

  /** A date is in `BusinessDates` exactly when it is a business day within the range. */
  lemma BusinessDatesMembers(start: Date, end: Date, d: Date)
    requires ValidDate(start) && ValidDate(end)
    ensures d in BusinessDates(start, end)
            <==> ValidDate(d) && AtOrBefore(start, d) && AtOrBefore(d, end) && IsBusinessDay(d)
  {
    if d in BusinessDates(start, end) {
      var numbers := BusinessDayNumbers(DayNumber(start), DayNumber(end) + 1);
      var n :| n in numbers && DayNumber(start) <= n && d == DateOfNumber(start, n);
      BusinessDayNumberIsDate(start, end, n);
    }
    if ValidDate(d) && AtOrBefore(start, d) && AtOrBefore(d, end) && IsBusinessDay(d) {
      BusinessDateIsReached(start, end, d);
    }
  }

  /** Every business day within the range is reached by `BusinessDates`. */
  lemma BusinessDateIsReached(start: Date, end: Date, d: Date)
    requires ValidDate(start) && ValidDate(end) && ValidDate(d)
    requires AtOrBefore(start, d) && AtOrBefore(d, end) && IsBusinessDay(d)
    ensures d in BusinessDates(start, end)
  {
    AdvanceReachesEveryLaterDate(start, d);
    BusinessDateInRange(start, end, d);
    assert d == DateOfNumber(start, DayNumber(d));
  }

  /** Adding the day number `hi - 1` to the range adds its date, if it is a business day. */
  lemma DatesOfNumbersStep(start: Date, hi: int)
    requires ValidDate(start) && DayNumber(start) < hi
    ensures DatesOfNumbers(start, BusinessDayNumbers(DayNumber(start), hi))
         == DatesOfNumbers(start, BusinessDayNumbers(DayNumber(start), hi - 1))
          + (if IsBusinessDayNumber(hi - 1) then {DateOfNumber(start, hi - 1)} else {})
  {
  }

  /** The date of `hi - 1` is not among the dates of smaller day numbers. */
  lemma NewDateOfNumber(start: Date, hi: int)
    requires ValidDate(start) && DayNumber(start) < hi
    ensures DateOfNumber(start, hi - 1) !in DatesOfNumbers(start, BusinessDayNumbers(DayNumber(start), hi - 1))
  {
  }

  /**
   Walking from `start` to the business-day numbers below `hi` reaches as many distinct
   dates as the count says.
   */
  lemma {:induction false} DatesOfBusinessDayNumbersSize(start: Date, hi: int)
    requires ValidDate(start)
    ensures |DatesOfNumbers(start, BusinessDayNumbers(DayNumber(start), hi))|
            == BusinessDayCount(DayNumber(start), hi)
    decreases hi - DayNumber(start)
  {
    var lo := DayNumber(start);
    if hi <= lo {
      assert BusinessDayNumbers(lo, hi) == {};
      assert DatesOfNumbers(start, BusinessDayNumbers(lo, hi)) == {};
    } else {
      DatesOfBusinessDayNumbersSize(start, hi - 1);
      DatesOfNumbersStep(start, hi);
      NewDateOfNumber(start, hi);
    }
  }

  /** The result counts dates: it is the number of business dates in the range. */
  lemma CountIsNumberOfDates(start: Date, end: Date)
    requires ValidDate(start) && ValidDate(end)
    ensures BusinessDaysBetween(start, end) == |BusinessDates(start, end)|
  {
    var hi := DayNumber(end) + 1;
    DatesOfBusinessDayNumbersSize(start, hi);
    assert BusinessDates(start, end) == DatesOfNumbers(start, BusinessDayNumbers(DayNumber(start), hi));
  }

  /** A one-day range counts 1 for a weekday and 0 for a Saturday or Sunday. */
  lemma SingleDay(d: Date)
    requires ValidDate(d)
    ensures BusinessDaysBetween(d, d) == (if IsBusinessDay(d) then 1 else 0)
    ensures BusinessDaysBetween(d, d) == 1
            <==> DayOfWeekOf(d) != Saturday && DayOfWeekOf(d) != Sunday
  {
  }

  /** Counts over adjacent ranges add up. */
  lemma {:induction false} CountSplits(lo: int, mid: int, hi: int)
    requires lo <= mid <= hi
    ensures BusinessDayCount(lo, mid) + BusinessDayCount(mid, hi) == BusinessDayCount(lo, hi)
    decreases hi - mid
  {
    if mid < hi {
      CountSplits(lo, mid, hi - 1);
    }
  }

  /** Any seven consecutive days hold exactly five business days. */
  lemma WeekHasFiveBusinessDays(n: int)
    ensures BusinessDayCount(n, n + 7) == 5
  {
    var r := (n + 1) % 7;
    assert n + 1 == 7 * ((n + 1) / 7) + r;
    assert BusinessDayCount(n, n + 7)
        == BusinessDayCount(n, n + 6) + (if IsBusinessDayNumber(n + 6) then 1 else 0);
    assert BusinessDayCount(n, n + 6)
        == BusinessDayCount(n, n + 5) + (if IsBusinessDayNumber(n + 5) then 1 else 0);
    assert BusinessDayCount(n, n + 5)
        == BusinessDayCount(n, n + 4) + (if IsBusinessDayNumber(n + 4) then 1 else 0);
    assert BusinessDayCount(n, n + 4)
        == BusinessDayCount(n, n + 3) + (if IsBusinessDayNumber(n + 3) then 1 else 0);
    assert BusinessDayCount(n, n + 3)
        == BusinessDayCount(n, n + 2) + (if IsBusinessDayNumber(n + 2) then 1 else 0);
    assert BusinessDayCount(n, n + 2)
        == BusinessDayCount(n, n + 1) + (if IsBusinessDayNumber(n + 1) then 1 else 0);
  }

  /** Monday to the following Friday: five business days. */
  lemma MondayToFriday(n: int)
    requires DayOfWeekOfNumber(n) == Monday
    ensures BusinessDayCount(n, n + 5) == 5
  {
    assert (n + 1) % 7 == 1;
    assert n + 1 == 7 * ((n + 1) / 7) + 1;
    assert BusinessDayCount(n, n + 5)
        == BusinessDayCount(n, n + 4) + (if IsBusinessDayNumber(n + 4) then 1 else 0);
    assert BusinessDayCount(n, n + 4)
        == BusinessDayCount(n, n + 3) + (if IsBusinessDayNumber(n + 3) then 1 else 0);
    assert BusinessDayCount(n, n + 3)
        == BusinessDayCount(n, n + 2) + (if IsBusinessDayNumber(n + 2) then 1 else 0);
    assert BusinessDayCount(n, n + 2)
        == BusinessDayCount(n, n + 1) + (if IsBusinessDayNumber(n + 1) then 1 else 0);
  }

  /** A range of `w` whole weeks holds exactly `5 * w` business days. */
  lemma {:induction false} WholeWeeks(n: int, w: nat)
    ensures BusinessDayCount(n, n + 7 * w) == 5 * w
  {
    if w > 0 {
      WholeWeeks(n, w - 1);
      WeekHasFiveBusinessDays(n + 7 * (w - 1));
      CountSplits(n, n + 7 * (w - 1), n + 7 * w);
    }
  }

  // ---------------------------------------------------------------------------
  // The two cases of the unit tests

  lemma TestDatesWeekdays()
    ensures DayOfWeekOf(Date(2026, 1, 19)) == Monday
    ensures DayOfWeekOf(Date(2026, 1, 23)) == Friday
    ensures DayOfWeekOf(Date(2026, 1, 25)) == Sunday
  {
    ClosedFormAgrees(2026);
    assert DayNumber(Date(2026, 1, 19)) == 739634;
    assert DayNumber(Date(2026, 1, 23)) == 739638;
    assert DayNumber(Date(2026, 1, 25)) == 739640;
  }

  /** Monday 2026-01-19 to Friday 2026-01-23: five business days. */
  lemma SameWeekExample()
    ensures BusinessDaysBetween(Date(2026, 1, 19), Date(2026, 1, 23)) == 5
  {
    ClosedFormAgrees(2026);
    var n := DayNumber(Date(2026, 1, 19));
    assert n == 739634;
    MondayToFriday(n);
  }

  /** Monday 2026-01-19 to Sunday 2026-01-25: the Saturday and Sunday are not counted. */
  lemma WeekendExcludedExample()
    ensures BusinessDaysBetween(Date(2026, 1, 19), Date(2026, 1, 25)) == 5
  {
    ClosedFormAgrees(2026);
    var n := DayNumber(Date(2026, 1, 19));
    assert n == 739634;
    WeekHasFiveBusinessDays(n);
  }

  // ---------------------------------------------------------------------------
  // The loop as written, on the bounded range of DateTime

  /** `DateTime` holds the years 0001 to 9999. */
  const MaxYear: int := 9999
  /** The last date `DateTime` can hold. */
  const MaxDate: Date := Date(MaxYear, 12, 31)

  predicate InDateTimeRange(d: Date) {
    ValidDate(d) && 1 <= d.year <= MaxYear
  }

  /** The exception `DateTime.AddDays` throws when the result is past `MaxValue`. */
  datatype DateTimeError = ArgumentOutOfRange

  /** `DateTime.AddDays(1)` on a whole-day date: fails on the last representable date. */
  function AddOneDay(d: Date): (r: Result<Date, DateTimeError>)
    requires InDateTimeRange(d)
    ensures r.Failure? <==> d == MaxDate
    ensures r.Success? ==> InDateTimeRange(r.value) && DayNumber(r.value) == DayNumber(d) + 1
  {
    if d == MaxDate then Failure(ArgumentOutOfRange) else Success(NextDay(d))
  }

  /**
   The loop exactly as written: the increment `date = date.AddDays(1)` runs after the
   last day too, so it throws whenever the range reaches 9999-12-31.
   */
  method CalculateBusinessDaysAsWritten(startDate: Date, endDate: Date)
    returns (r: Result<nat, DateTimeError>)
    requires InDateTimeRange(startDate) && InDateTimeRange(endDate)
    ensures r.Failure? <==> AtOrBefore(startDate, endDate) && endDate == MaxDate
    ensures r.Success? ==> r.value == BusinessDaysBetween(startDate, endDate)
  {
    PrecedesIffSmallerDayNumber(endDate, startDate);
    if Precedes(endDate, startDate) {
      return Success(0);
    }
    var businessDays := 0;
    var date := startDate;
    while AtOrBefore(date, endDate)
      invariant InDateTimeRange(date)
      invariant DayNumber(startDate) <= DayNumber(date) <= DayNumber(endDate) + 1
      invariant businessDays == BusinessDayCount(DayNumber(startDate), DayNumber(date))
      invariant endDate == MaxDate ==> AtOrBefore(date, endDate)
      decreases DayNumber(endDate) - DayNumber(date)
    {
      PrecedesIffSmallerDayNumber(endDate, date);
      if DayOfWeekOf(date) != Saturday && DayOfWeekOf(date) != Sunday {
        businessDays := businessDays + 1;
      }
      var next :- AddOneDay(date);
      StepWithinRange(date, endDate);
      date := next;
    }
    PrecedesIffSmallerDayNumber(endDate, date);
    r := Success(businessDays);
  }

  /** A step from a date before the end date of a range stays within the range. */
  lemma StepWithinRange(date: Date, endDate: Date)
    requires InDateTimeRange(date) && InDateTimeRange(endDate)
    requires AtOrBefore(date, endDate) && date != MaxDate
    ensures endDate == MaxDate ==> AtOrBefore(NextDay(date), endDate)
  {
    PrecedesIffSmallerDayNumber(date, endDate);
    PrecedesIffSmallerDayNumber(endDate, NextDay(date));
  }

  /** The whole of 9999's last week cannot be counted by the loop as written. */
  lemma LastWeekOfDateTimeFails()
    ensures AddOneDay(MaxDate) == Failure(ArgumentOutOfRange)
    ensures DayOfWeekOf(Date(9999, 12, 27)) == Monday
    ensures BusinessDaysBetween(Date(9999, 12, 27), MaxDate) == 5
  {
    ClosedFormAgrees(9999);
    var n := DayNumber(Date(9999, 12, 27));
    assert n == 3652054;
    MondayToFriday(n);
  }
}
