# Business days and calendar-day differences, modelled in Dafny

This project models two small date utilities:

- **`BusinessDayCalculator.CalculateBusinessDays`** (C#). It counts the dates from a start date to an end date, both included, that are neither Saturday nor Sunday. It returns 0 when the start comes after the end.
- **`calculateDaysBetweenDates`** (TypeScript). It rejects a missing or invalid `Date` with the error "Invalid Date object provided.". Otherwise it rebuilds both dates as UTC midnight with `Date.UTC` (years 0 to 99 are read as 1900 to 1999; see "## Findings"). It takes the absolute millisecond difference and floor-divides it by the milliseconds in one day.

Both rest on one calendar model (`calendar.dfy`, module `Calendar`):

- A `Date` is an immutable year/month/day value in the proleptic Gregorian calendar.
- Its day number counts from 0001-01-01 as day 0, as `System.DateTime` does. The days before a year are defined by adding up year lengths. `Calendar.ClosedFormAgrees` proves that this sum equals the closed formula `DateTime` uses, read with floor division, for every year. `DateTime` itself evaluates the formula with truncating division and only for the years 1 to 9999, where the two readings agree.
- `NextDay` is `AddDays(1)` on every date except 9999-12-31, where `AddDays` throws (`BusinessDays.AddOneDay`). `Precedes` and `AtOrBefore` give the `DateTime` order of whole-day dates.
- The day of the week is `(dayNumber + 1) % 7` in the numbering of .NET's `DayOfWeek` enum, so 0001-01-01 is a Monday.

The other files:

- `business_days.dfy` (module `BusinessDays`): the counting loop as a method. Its loop invariant ties the running count to a recursive count over day numbers. That count is in turn tied to a set of day numbers and, through the day-number bijection, to the dates in the range.
- `day_difference.dfy` (module `DayDifference`): the difference as a function returning a `Result`. It proves that the floor division is exact, so the result is the distance between the two day numbers.
- `wrappers.dfy` (module `Wrappers`): the `Result` type used for the error paths.

The integer `businessDays` of the C# method cannot overflow. `DateTime` spans 3,652,059 days, far below 2^31.

## Model

| member | source | states |
|---|---|---|
| Calendar.Precedes | sample/ZennTestProject/MyFirstTest/BusinessDayCalculator.cs:19 | `startDate > endDate` as a strict order of dates: a date never precedes itself, and a preceding date is in the same or an earlier year |
| Calendar.AtOrBefore | sample/ZennTestProject/MyFirstTest/BusinessDayCalculator.cs:28 | the loop test `date <= endDate` holds exactly when the dates are equal or the first precedes the second |
| Calendar.NextDay | sample/ZennTestProject/MyFirstTest/BusinessDayCalculator.cs:28 | the loop step `date.AddDays(1)` yields a valid date whose day number is one more |
| Calendar.Advance | sample/ZennTestProject/MyFirstTest/BusinessDayCalculator.cs:28 | `k` loop steps reach a valid date exactly `k` day numbers later |
| Calendar.PrecedesIffSmallerDayNumber | sample/ZennTestProject/MyFirstTest/BusinessDayCalculator.cs:19 | the `DateTime` comparison of two dates agrees, in both directions, with comparing their day numbers |
| Calendar.DayNumberInjective | sample/typescript-test-project/src/date-calculator.ts:13-14 | two valid dates get the same UTC-midnight day exactly when they are the same date |
| Calendar.AdvanceReachesEveryLaterDate | sample/ZennTestProject/MyFirstTest/BusinessDayCalculator.cs:28 | every valid date at or after the start is reached by the loop's steps, after as many steps as the day numbers differ |
| Calendar.DayOfWeekOf | sample/ZennTestProject/MyFirstTest/BusinessDayCalculator.cs:32 | `date.DayOfWeek` is Monday exactly on day numbers that are multiples of 7, Saturday exactly on remainder 5 and Sunday exactly on remainder 6 |
| Calendar.FirstDayIsMonday | sample/ZennTestProject/MyFirstTest/BusinessDayCalculator.cs:32 | 0001-01-01, day 0 of `DateTime`, is a Monday |
| Calendar.NextDayFollows | sample/ZennTestProject/MyFirstTest/BusinessDayCalculator.cs:32 | the `DayOfWeek` of the next date is the following weekday, Saturday wrapping to Sunday |
| BusinessDays.CalculateBusinessDays | sample/ZennTestProject/MyFirstTest/BusinessDayCalculator.cs:16-41 | a reversed range returns 0; otherwise the result is the number of business days from start to end inclusive, at most the number of days in the range |
| BusinessDays.BusinessDayCount | sample/ZennTestProject/MyFirstTest/BusinessDayCalculator.cs:25-36 | the count over a range never exceeds the length of the range |
| BusinessDays.CountIsCardinality | sample/ZennTestProject/MyFirstTest/BusinessDayCalculator.cs:28-36 | the count equals the size of the set of day numbers in the range that are not Saturday or Sunday |
| BusinessDays.BusinessDateInRange | sample/ZennTestProject/MyFirstTest/BusinessDayCalculator.cs:28-32 | a date lies in the range and is a weekday exactly when its day number is in that set |
| BusinessDays.BusinessDayNumberIsDate | sample/ZennTestProject/MyFirstTest/BusinessDayCalculator.cs:28-32 | every number in that set is the day number of a weekday date in the range, so the count counts dates |
| BusinessDays.BusinessDatesMembers | sample/ZennTestProject/MyFirstTest/BusinessDayCalculator.cs:28-32 | the dates the loop counts are exactly the valid dates from start to end that are not Saturday or Sunday |
| BusinessDays.CountIsNumberOfDates | sample/ZennTestProject/MyFirstTest/BusinessDayCalculator.cs:25-36 | the business-day count of a range is the number of those dates |
| BusinessDays.SingleDay | sample/ZennTestProject/MyFirstTest/BusinessDayCalculator.cs:28-36 | when start equals end the result is 1 for Monday to Friday and 0 for Saturday or Sunday |
| BusinessDays.CountSplits | sample/ZennTestProject/MyFirstTest/BusinessDayCalculator.cs:28-37 | counts over two adjacent ranges add up to the count over their union |
| BusinessDays.WeekHasFiveBusinessDays | sample/ZennTestProject/MyFirstTest/BusinessDayCalculator.cs:32-36 | any seven consecutive days contain exactly five business days |
| BusinessDays.MondayToFriday | sample/ZennTestProject/MyFirstTest/BusinessDayCalculator.cs:32-36 | a Monday and the four days after it are all business days |
| BusinessDays.WholeWeeks | sample/ZennTestProject/MyFirstTest/BusinessDayCalculator.cs:28-36 | a range of `w` whole weeks contains exactly `5 * w` business days |
| BusinessDays.TestDatesWeekdays | sample/ZennTestProject/MyFirstTest.Tests/UnitTest1.cs:18-19 | 2026-01-19 is a Monday, 2026-01-23 a Friday and 2026-01-25 a Sunday |
| BusinessDays.SameWeekExample | sample/ZennTestProject/MyFirstTest.Tests/UnitTest1.cs:18-26 | Monday 2026-01-19 to Friday 2026-01-23 gives 5 |
| BusinessDays.WeekendExcludedExample | sample/ZennTestProject/MyFirstTest.Tests/UnitTest1.cs:34-42 | Monday 2026-01-19 to Sunday 2026-01-25 gives 5: the weekend is not counted |
| BusinessDays.AddOneDay | sample/ZennTestProject/MyFirstTest/BusinessDayCalculator.cs:28 | `AddDays(1)` fails exactly on 9999-12-31; otherwise it gives the next date in range |
| BusinessDays.CalculateBusinessDaysAsWritten | sample/ZennTestProject/MyFirstTest/BusinessDayCalculator.cs:16-41 | the loop as written throws exactly when start is not after end and end is 9999-12-31; otherwise it returns the business-day count |
| BusinessDays.LastWeekOfDateTimeFails | sample/ZennTestProject/MyFirstTest/BusinessDayCalculator.cs:28 | the step fails at 9999-12-31, although 9999-12-27 to 9999-12-31 is Monday to Friday with 5 business days |
| DayDifference.IsValidArg | sample/typescript-test-project/src/date-calculator.ts:7 | on every argument that stands for a JavaScript value, the guard lets it through exactly when it is neither `Missing` (`null` or `undefined`) nor `NotANumber`; an `Instant` that names no real instant is rejected too |
| DayDifference.FailsOnlyOnMissingOrNaN | sample/typescript-test-project/src/date-calculator.ts:7-9 | on JavaScript values, both the intended function and the code as written throw exactly when an argument is missing or NaN |
| DayDifference.UtcMidnight | sample/typescript-test-project/src/date-calculator.ts:13-14 | outside the years 0 to 99, `Date.UTC` of a date is a whole number of days from the epoch, namely its day number minus that of 1970-01-01, and 0 only for 1970-01-01 |
| DayDifference.DaysBetweenDates | sample/typescript-test-project/src/date-calculator.ts:3-18 | fails with "Invalid Date object provided." exactly when an argument is missing or invalid; otherwise returns the distance between the two calendar dates' day numbers |
| DayDifference.ExactDayDivision | sample/typescript-test-project/src/date-calculator.ts:11-17 | flooring the millisecond distance between two UTC midnights by one day's milliseconds loses nothing |
| DayDifference.Symmetric | sample/typescript-test-project/src/date-calculator.ts:16 | swapping the arguments gives the same result, including the error |
| DayDifference.SameArgumentIsZero | sample/typescript-test-project/src/date-calculator.ts:13-17 | a valid date is 0 days from itself |
| DayDifference.ZeroIffSameDate | sample/typescript-test-project/src/date-calculator.ts:13-17 | the result is 0 exactly when both arguments fall on the same calendar date |
| DayDifference.TimeOfDayIgnored | sample/typescript-test-project/src/date-calculator.ts:13-14 | the times of day of the arguments never change the result; two instants on the same date give 0 |
| DayDifference.NextDayIsOneDayAway | sample/typescript-test-project/src/date-calculator.ts:13-17 | a date and the day after it are 1 day apart |
| DayDifference.OrderedDifferencesAdd | sample/typescript-test-project/src/date-calculator.ts:16-17 | for chronologically ordered dates a, b, c the difference a–c is the sum of a–b and b–c |
| DayDifference.EndOfFebruary | sample/typescript-test-project/src/date-calculator.ts:13-17 | from February 28 to March 1 is 2 days in a leap year and 1 day otherwise |
| DayDifference.FourDaysExample | sample/typescript-test-project/src/date-calculator.test.ts:5-15 | 2023-01-01 and 2023-01-05 are 4 days apart, in either order |
| DayDifference.LeapYearExample | sample/typescript-test-project/src/date-calculator.test.ts:37-41 | 2024 is a leap year and 2024-02-28 to 2024-03-01 is 2 days |
| DayDifference.InvalidDateExample | sample/typescript-test-project/src/date-calculator.test.ts:29-35 | an invalid date next to a valid one fails with "Invalid Date object provided.", and so does a missing one |
| DayDifference.DateUtcYear | sample/typescript-test-project/src/date-calculator.ts:13-14 | `Date.UTC` keeps a year exactly when it is not 0 to 99, and moves such a year to the 1900s with the same last two digits |
| DayDifference.DateUtc | sample/typescript-test-project/src/date-calculator.ts:13-14 | `Date.UTC(y, m - 1, d)` is always a whole number of days, and equals UTC midnight of the date whenever the year is not 0 to 99 |
| DayDifference.DaysBetweenDatesAsWritten | sample/typescript-test-project/src/date-calculator.ts:13-17 | with `Date.UTC`'s year rule, a valid pair gives the distance between the day numbers of the years as `Date.UTC` reads them |
| DayDifference.AsWrittenAgreesOutsideTwoDigitYears | sample/typescript-test-project/src/date-calculator.ts:13-14 | outside the years 0 to 99 the code as written gives the calendar-day difference |
| DayDifference.TwoDigitYearIsConfused | sample/typescript-test-project/src/date-calculator.ts:13-14 | 0050-01-01 and 1950-01-01 are 693,960 days apart, yet the code as written returns 0 |

## Left out

- Time of day of `DateTime`: the C# comparisons at BusinessDayCalculator.cs:19 and :28 compare full timestamps, but the model works on whole-day dates. If the start's time of day is later than the end's, the source leaves out the end date. The model does not show this.
- Range of `DateTime` in `CalculateBusinessDays`: the corrected method accepts any valid proleptic date. Only `CalculateBusinessDaysAsWritten` keeps to the years 0001 to 9999.
- Time zones and daylight saving: `getFullYear`, `getMonth` and `getDate` read local time. The model takes each argument's local calendar date and time of day as given.
- `Instant` values whose components name no real date, or whose time of day lies outside one day, stand for no JavaScript `Date`. `IsValidArg` rejects them like an invalid date.
- Parsing of date strings such as `new Date('not a date')`: a `Date` whose time value is NaN is the constructor `NotANumber`. `null` and `undefined` are `Missing`.
- IEEE-754 arithmetic in `Math.abs`, `Math.floor` and the division: every value involved is a whole number, so the model uses `int`.
- The ECMAScript time-value limit of ±8.64e15 ms (TimeClip): the model accepts dates of any year.
- Test framework wiring (xUnit, Jest): the tests are used only as expected values.

## Findings

| source | as written | input that shows it | evidently intended | confidence | as-written member | corrected member |
|---|---|---|---|---|---|---|
| sample/ZennTestProject/MyFirstTest/BusinessDayCalculator.cs:28 | the step `date.AddDays(1)` also runs after the last date of the range, and `AddDays` throws `ArgumentOutOfRangeException` when the result is past 9999-12-31 | start 9999-12-27, end 9999-12-31 | return 5, the Monday-to-Friday count | not executed; high | BusinessDays.CalculateBusinessDaysAsWritten | BusinessDays.CalculateBusinessDays |
| sample/typescript-test-project/src/date-calculator.ts:13-14 | `Date.UTC` reads a year from 0 to 99 as 1900 plus that year (ECMA-262, section 21.4.3.4), so dates in those years are confused with dates in 1900 to 1999 | 0050-01-01 and 1950-01-01 | 693,960 days | not executed; high | DayDifference.DaysBetweenDatesAsWritten | DayDifference.DaysBetweenDates |

`BusinessDays.LastWeekOfDateTimeFails` and `DayDifference.TwoDigitYearIsConfused` give the concrete inputs. The corrected members carry the intended properties:

- `CalculateBusinessDays` never fails and returns the business-day count of the range.
- `DaysBetweenDates` returns the calendar-day distance. `ZeroIffSameDate` proves it is 0 only for the same date.
