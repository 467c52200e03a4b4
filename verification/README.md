# persian-dtpicker: a verified model of its calendar core

persian-dtpicker is a Jetpack Compose date and time picker for the Jalali (Persian solar
Hijri) calendar. Below its widgets sits a small calendar core, and that core is what this
project models:

- **the conversion engine.** `DatePickerUtils.gregorianToJalali` and
  `DatePickerUtils.jalaliToGregorian` count days with Kotlin `Int` arithmetic. The Jalali
  side uses a 33-year arithmetic cycle and the Gregorian side the 400/100/4-year cycles.
- **the calendar metadata.** This is the literal leap-year table, `isLeap`, `monthLength`
  and `dayOfWeek`.
- **the option-list builders.** `initHours`, `initDaysList`, `initYearList`, `initMinutes`,
  `initMonthList` and `initAmPm` fill the wheels and lists.
- **the `SimpleDate`/`SimpleTime` value model.** This covers `totGregorianDate`,
  `toTimestampSeconds`, `toString`, and the clock-period rule of `now`, `from` and
  `SimpleTime.now`.
- **the state rules inside the widgets.** `PersianCalendar` has month navigation, day
  selection and the day grid (`daysList`). `TimePicker` has the initial wheel positions and
  the hour, minute and period wheels.

Modules, one concept each:

| file | module | what it holds |
|---|---|---|
| `kotlin_int.dfy` | `KotlinInt` | Kotlin's truncating `/` and `%` on `Int` |
| `wrappers.dfy` | `Wrappers` | `Option` |
| `gregorian.dfy` | `Gregorian` | the proleptic Gregorian calendar: validity, day numbers, their inverse, the epoch day `LocalDate.toEpochDay` returns, and `Calendar.DAY_OF_WEEK` |
| `jalali.dfy` | `Jalali` | the engine's own Jalali calendar (the 33-year rule), its day numbers and their inverse |
| `conversion.dfy` | `Conversion` | the two Kotlin conversion functions, step by step as methods, proved against the day numbers; their functional forms; round trips |
| `decimal_text.dfy` | `DecimalText` | `Int.toString()` and a reader for it |
| `date_picker_utils.dfy` | `DatePickerUtils` | leap table, month lengths, weekday columns, the list builders, `currentJalaliDate` |
| `simple_date_time.dfy` | `SimpleDateTime` | `SimpleDate`, `SimpleTime`, `ClockPeriod` and their operations |
| `persian_calendar.dfy` | `PersianCalendar` | the calendar's state (a class), navigation and the grid |
| `time_picker.dfy` | `TimePicker` | the time picker's state (a class) and its wheels |

Both calendars are given day numbers that count the same days. Gregorian 0000-01-01 is day
1. A Jalali date's number is the Gregorian day number of the same day plus 355667, which is
the engine's own offset. Each conversion is proved to keep the day:
`Jalali.DayNumber(result) == Gregorian.DayNumber(input) + 355667`. The round trips, the
fixed point 2024-03-20 = 1403-01-01 and the findings below are derived from that.

The Kotlin code is modelled on `Int` with its truncating division. The conversion methods
mirror every statement of the source, including the pre-decrement `--days`, the `days++` and
the `sal_a[gm++]` loop. Their postconditions hold wherever every dividend in the engine is
non-negative: the Gregorian year from 0 (month 1 .. 12), or the Jalali year from -1595, and
in both directions the engine's day count from 0. That covers every Gregorian year from 0
and every Jalali year from 1.

## Model

| member | source | states |
|---|---|---|
| `KotlinInt.TDiv` | lib/src/main/java/com/hshamkhani/persiandtpicker/utils/DatePickerUtils.kt:198-213 | Kotlin's `/` rounds toward zero: Dafny's division for a non-negative dividend, and for a negative one the non-positive quotient whose multiple is the dividend rounded up to the divisor |
| `KotlinInt.TMod` | lib/src/main/java/com/hshamkhani/persiandtpicker/utils/DatePickerUtils.kt:199-213 | Kotlin's `%` takes the sign of the dividend, and `b * (a / b) + a % b == a` |
| `Gregorian.DaysBeforeMonthTable` | lib/src/main/java/com/hshamkhani/persiandtpicker/utils/DatePickerUtils.kt:194 | the cumulative month table `g_d_m` is the sum of the month lengths of a common year, plus one day from March on in a leap year |
| `Gregorian.NextDayNumber` | lib/src/main/java/com/hshamkhani/persiandtpicker/utils/Utils.kt:19-20 | the next valid date has the next day number |
| `Gregorian.DayNumberInjective` | lib/src/main/java/com/hshamkhani/persiandtpicker/utils/DatePickerUtils.kt:222-257 | two valid dates with the same day number are the same date |
| `Gregorian.YearAndDay` | lib/src/main/java/com/hshamkhani/persiandtpicker/utils/DatePickerUtils.kt:226-238 | a day count splits into a year from 0 on and a zero-based day inside that year's length |
| `Gregorian.MonthOf` | lib/src/main/java/com/hshamkhani/persiandtpicker/utils/DatePickerUtils.kt:239-256 | subtracting month lengths from a day of the year ends on a valid month and day with the same offset |
| `Gregorian.FromDayNumber` | lib/src/main/java/com/hshamkhani/persiandtpicker/utils/DatePickerUtils.kt:226-257 | every day number from 1 on is the day number of one valid date from year 0 on |
| `Gregorian.FromDayNumberInverse` | lib/src/main/java/com/hshamkhani/persiandtpicker/utils/DatePickerUtils.kt:226-257 | decoding the day number of a valid date gives the date back |
| `Gregorian.EpochDayAnchor` | lib/src/main/java/com/hshamkhani/persiandtpicker/utils/Utils.kt:19-20 | 1970-01-01 is epoch day 0, and the next valid date is the next epoch day |
| `Gregorian.FromEpochDay` | lib/src/main/java/com/hshamkhani/persiandtpicker/utils/SimpleDateTime.kt:59-70 | every epoch day that is day 1 or later is the epoch day of one valid date |
| `Gregorian.CalendarWeekday` | lib/src/main/java/com/hshamkhani/persiandtpicker/utils/SimpleDateTime.kt:160-177 | `Calendar.DAY_OF_WEEK` of an epoch day lies in 1 .. 7 (Sunday = 1 .. Saturday = 7) |
| `Gregorian.CalendarWeekdayStep` | lib/src/main/java/com/hshamkhani/persiandtpicker/utils/SimpleDateTime.kt:160-177 | 1970-01-01 is a Thursday, and the next day is the next weekday, Saturday wrapping to Sunday |
| `Jalali.YearAndDay` | lib/src/main/java/com/hshamkhani/persiandtpicker/utils/DatePickerUtils.kt:198-205 | a day count splits into a year and a zero-based day inside that year's length, by 33-year cycles and four-year blocks |
| `Jalali.MonthOfDay` | lib/src/main/java/com/hshamkhani/persiandtpicker/utils/DatePickerUtils.kt:208-214 | a zero-based day of the year is a valid month and day: six 31-day months, then 30-day months |
| `Jalali.FromDays` | lib/src/main/java/com/hshamkhani/persiandtpicker/utils/DatePickerUtils.kt:198-215 | every day count from 0 on is one less than the day number of one valid Jalali date |
| `Jalali.YearStartMonotone` | lib/src/main/java/com/hshamkhani/persiandtpicker/utils/DatePickerUtils.kt:225 | later years start on later days |
| `Jalali.DayNumberInjective` | lib/src/main/java/com/hshamkhani/persiandtpicker/utils/DatePickerUtils.kt:222-225 | two valid Jalali dates with the same day number are the same date |
| `Jalali.FromDaysInverse` | lib/src/main/java/com/hshamkhani/persiandtpicker/utils/DatePickerUtils.kt:198-215 | decoding the day count of a valid Jalali date gives the date back |
| `Conversion.EngineGregorianDays` | lib/src/main/java/com/hshamkhani/persiandtpicker/utils/DatePickerUtils.kt:194-197 | the engine's opening day count (with `gy2` and `g_d_m`) is the Gregorian day number |
| `Conversion.EngineJalaliDecode` | lib/src/main/java/com/hshamkhani/persiandtpicker/utils/DatePickerUtils.kt:198-214 | the engine's quotients and remainders, taken the Kotlin way, decode the day count to the valid Jalali date with that day number |
| `Conversion.EngineJalaliDays` | lib/src/main/java/com/hshamkhani/persiandtpicker/utils/DatePickerUtils.kt:223-225 | the engine's opening day count is the Jalali day number moved to the Gregorian count |
| `Conversion.EngineEraYear` | lib/src/main/java/com/hshamkhani/persiandtpicker/utils/DatePickerUtils.kt:227-238 | the century, four-year-block and year steps (with `--days` and `days++`) find the year of the 400-year era and the day in it |
| `Conversion.ToJalali` | lib/src/main/java/com/hshamkhani/persiandtpicker/utils/DatePickerUtils.kt:193-216 | the conversion result is a valid Jalali date for the same day |
| `Conversion.ToGregorian` | lib/src/main/java/com/hshamkhani/persiandtpicker/utils/DatePickerUtils.kt:222-258 | the conversion result is a valid Gregorian date from year 0 on for the same day |
| `Conversion.GregorianToJalali` | lib/src/main/java/com/hshamkhani/persiandtpicker/utils/DatePickerUtils.kt:193-216 | the Kotlin steps, for month 1 .. 12, return a valid Jalali date (month 1 .. 12, day 1 .. 31 in months 1 .. 6, 1 .. 30 after) for the same day |
| `Conversion.MonthSearch` | lib/src/main/java/com/hshamkhani/persiandtpicker/utils/DatePickerUtils.kt:239-256 | the `sal_a` loop turns a zero-based day of the year into a valid month and day of that year |
| `Conversion.JalaliToGregorian` | lib/src/main/java/com/hshamkhani/persiandtpicker/utils/DatePickerUtils.kt:222-258 | the Kotlin steps return a valid Gregorian date (month 1 .. 12, day within the month under the 4/100/400 rule) for the same day |
| `Conversion.GregorianDateInRange` | lib/src/main/java/com/hshamkhani/persiandtpicker/utils/DatePickerUtils.kt:193-197 | every valid Gregorian date from year 0 on is inside the engine's exact range |
| `Conversion.GregorianRoundTrip` | lib/src/main/java/com/hshamkhani/persiandtpicker/utils/DatePickerUtils.kt:193-258 | `jalaliToGregorian(gregorianToJalali(g)) == g` for every valid Gregorian date from year 0 on |
| `Conversion.JalaliRoundTrip` | lib/src/main/java/com/hshamkhani/persiandtpicker/utils/DatePickerUtils.kt:193-258 | `gregorianToJalali(jalaliToGregorian(j)) == j` for every valid Jalali date in range |
| `Conversion.ToJalaliNextDay` | lib/src/main/java/com/hshamkhani/persiandtpicker/utils/DatePickerUtils.kt:193-216 | the next Gregorian day converts to the next Jalali day |
| `Conversion.Nowruz1403` | lib/src/main/java/com/hshamkhani/persiandtpicker/utils/DatePickerUtils.kt:193-258 | 2024-03-20 converts to 1403-01-01, and back |
| `DecimalText.Digits` | lib/src/main/java/com/hshamkhani/persiandtpicker/utils/SimpleDateTime.kt:90-93 | the decimal digits of a number, all digits, with no leading zero |
| `DecimalText.DecimalString` | lib/src/main/java/com/hshamkhani/persiandtpicker/utils/SimpleDateTime.kt:90-93 | `Int.toString()` is non-empty and starts with '-' exactly for a negative number |
| `DecimalText.DigitsValueOfDigits` | lib/src/main/java/com/hshamkhani/persiandtpicker/utils/SimpleDateTime.kt:90-93 | the digits of n denote n |
| `DecimalText.ReadDecimalString` | lib/src/main/java/com/hshamkhani/persiandtpicker/utils/SimpleDateTime.kt:90-93 | the text of n, followed by anything that is not a digit, reads back as n and that remainder |
| `DatePickerUtils.WeekDays` | lib/src/main/java/com/hshamkhani/persiandtpicker/utils/DatePickerUtils.kt:12-62 | seven weekday names, Saturday first and Friday last |
| `DatePickerUtils.InitMonthList` | lib/src/main/java/com/hshamkhani/persiandtpicker/utils/DatePickerUtils.kt:111-121 | twelve month names, Farvardin first and Esfand last |
| `DatePickerUtils.InitAmPm` | lib/src/main/java/com/hshamkhani/persiandtpicker/utils/DatePickerUtils.kt:153-155 | two distinct labels, ("AM", "PM") in English |
| `DatePickerUtils.IsLeapTable` | lib/src/main/java/com/hshamkhani/persiandtpicker/utils/DatePickerUtils.kt:157-173 | `isLeap(y)` holds iff 1403 <= y <= 1439 and y - 1403 is a multiple of 4 |
| `DatePickerUtils.MonthLength` | lib/src/main/java/com/hshamkhani/persiandtpicker/utils/DatePickerUtils.kt:179-191 | `monthLength` is exactly 1 .. 31 for months 1 .. 6, 1 .. 30 for 7 .. 11, 1 .. 30 or 1 .. 29 for month 12 as `isLeap` says, and empty otherwise |
| `DatePickerUtils.MonthLengthMatchesCalendar` | lib/src/main/java/com/hshamkhani/persiandtpicker/utils/DatePickerUtils.kt:179-191 | where the table and the engine's rule agree on the year, the listed days are exactly the valid days of the month |
| `DatePickerUtils.LeapTableDisagrees` | lib/src/main/java/com/hshamkhani/persiandtpicker/utils/DatePickerUtils.kt:157-173 | in 1403 .. 1439 the table and the engine agree only on 1403: the engine's leap years there are 1403 and the multiples of 4 from 1408 to 1436 |
| `DatePickerUtils.Esfand1407Collision` | lib/src/main/java/com/hshamkhani/persiandtpicker/utils/DatePickerUtils.kt:157-191 | Esfand 1407 is listed with 30 days, yet 1407-12-30 and 1408-01-01 both convert to 2029-03-20 |
| `DatePickerUtils.MonthLengthCorrected` | lib/src/main/java/com/hshamkhani/persiandtpicker/utils/DatePickerUtils.kt:179-191 | with the engine's leap rule the listed days are exactly the valid days of the month, as many as the month has |
| `DatePickerUtils.MonthLengthCorrectedRoundTrip` | lib/src/main/java/com/hshamkhani/persiandtpicker/utils/DatePickerUtils.kt:179-191 | every day of the corrected list converts to a Gregorian date and back to itself |
| `DatePickerUtils.WeekdayIndex` | lib/src/main/java/com/hshamkhani/persiandtpicker/utils/DatePickerUtils.kt:66-75 | the column is 0 exactly outside the seven weekdays, and otherwise in 1 .. 7 but never 3 |
| `DatePickerUtils.WeekdayIndexCorrected` | lib/src/main/java/com/hshamkhani/persiandtpicker/utils/DatePickerUtils.kt:66-75 | the Saturday-first column lies in 1 .. 7 for a weekday and is 0 otherwise |
| `DatePickerUtils.WeekdayIndexCorrectedProperties` | lib/src/main/java/com/hshamkhani/persiandtpicker/utils/DatePickerUtils.kt:66-75 | the corrected table differs from the source's only on Monday, is one-to-one, moves with the next weekday, and has Saturday at 1 and Friday at 7 |
| `DatePickerUtils.MondayColumn` | lib/src/main/java/com/hshamkhani/persiandtpicker/utils/DatePickerUtils.kt:66-75 | the source's column equals the corrected one except for Monday, which it reports as 2 |
| `DatePickerUtils.InitHours` | lib/src/main/java/com/hshamkhani/persiandtpicker/utils/DatePickerUtils.kt:78-86 | 24 hours 0 .. 23, or 12 hours 1 .. 12, in order, and nothing else |
| `DatePickerUtils.InitDaysList` | lib/src/main/java/com/hshamkhani/persiandtpicker/utils/DatePickerUtils.kt:88-94 | the days 1 .. n in order, and nothing else (empty when n <= 0) |
| `DatePickerUtils.InitYearList` | lib/src/main/java/com/hshamkhani/persiandtpicker/utils/DatePickerUtils.kt:103-109 | exactly the twenty years y .. y + 19, in order |
| `DatePickerUtils.InitMinutes` | lib/src/main/java/com/hshamkhani/persiandtpicker/utils/DatePickerUtils.kt:144-151 | exactly the minutes 0 .. 59, in order |
| `DatePickerUtils.CurrentJalaliDate` | lib/src/main/java/com/hshamkhani/persiandtpicker/utils/DatePickerUtils.kt:131-137 | today's date converts to a valid Jalali date for the same day |
| `SimpleDateTime.PeriodFor` | lib/src/main/java/com/hshamkhani/persiandtpicker/utils/SimpleDateTime.kt:45-47 | the period is null iff the clock is 24-hour, otherwise Am iff the hour is below 12 |
| `SimpleDateTime.TimeNow` | lib/src/main/java/com/hshamkhani/persiandtpicker/utils/SimpleDateTime.kt:114-125 | the time keeps the clock's raw hour and minute, and in 12-hour mode an afternoon hour reads 12 hours late |
| `SimpleDateTime.Now` | lib/src/main/java/com/hshamkhani/persiandtpicker/utils/SimpleDateTime.kt:33-51 | today as a valid Jalali date for the same day, at the clock's time |
| `SimpleDateTime.LocalEpochDay` | lib/src/main/java/com/hshamkhani/persiandtpicker/utils/SimpleDateTime.kt:59-64 | the local day of a timestamp is the day whose 86400 seconds contain it |
| `SimpleDateTime.From` | lib/src/main/java/com/hshamkhani/persiandtpicker/utils/SimpleDateTime.kt:58-87 | the date is the Jalali date of the timestamp's local day; the time comes from the clock, not from the timestamp |
| `SimpleDateTime.ToGregorianDate` | lib/src/main/java/com/hshamkhani/persiandtpicker/utils/SimpleDateTime.kt:139-151 | `totGregorianDate` gives a valid Gregorian date for the same day and keeps the time |
| `SimpleDateTime.ToTimestampSeconds` | lib/src/main/java/com/hshamkhani/persiandtpicker/utils/Utils.kt:18-31 | for a time inside its day, the whole days are the date's epoch day and the remainder is the time of day |
| `SimpleDateTime.PmIsTwelveHoursAfterAm` | lib/src/main/java/com/hshamkhani/persiandtpicker/utils/Utils.kt:22-24 | a Pm time is exactly 43200 seconds after the same Am time |
| `SimpleDateTime.AmIsTwentyFourHour` | lib/src/main/java/com/hshamkhani/persiandtpicker/utils/Utils.kt:22-26 | Am and no period give the same timestamp |
| `SimpleDateTime.TimestampSteps` | lib/src/main/java/com/hshamkhani/persiandtpicker/utils/Utils.kt:28-30 | one more minute adds 60 seconds, one more hour 3600 |
| `SimpleDateTime.TimestampDays` | lib/src/main/java/com/hshamkhani/persiandtpicker/utils/Utils.kt:19-20 | 1970-01-01 00:00 is 0, and the next calendar day adds 86400 |
| `SimpleDateTime.TwelveIsNotNormalised` | lib/src/main/java/com/hshamkhani/persiandtpicker/utils/Utils.kt:22-24 | 12 Am is noon, and 12 Pm is the next day's midnight |
| `SimpleDateTime.CalendarDayCarry` | lib/src/main/java/com/hshamkhani/persiandtpicker/utils/SimpleDateTime.kt:166-173 | the lenient calendar moves no day for a time inside the day and one day for a time of 24:00 .. 47:59 |
| `SimpleDateTime.CalendarDayOfWeek` | lib/src/main/java/com/hshamkhani/persiandtpicker/utils/SimpleDateTime.kt:160-177 | `toCalendar().get(DAY_OF_WEEK)` is the weekday of the epoch day moved by the hour-of-day carry |
| `SimpleDateTime.DayOfWeek` | lib/src/main/java/com/hshamkhani/persiandtpicker/utils/DatePickerUtils.kt:64-76 | `dayOfWeek` is a column in 1 .. 7 and never 3 |
| `SimpleDateTime.WeekColumnStep` | lib/src/main/java/com/hshamkhani/persiandtpicker/utils/DatePickerUtils.kt:64-76 | the next day sits in the next column, Friday wrapping to Saturday |
| `SimpleDateTime.DayOfWeekCorrected` | lib/src/main/java/com/hshamkhani/persiandtpicker/utils/DatePickerUtils.kt:64-76 | the corrected column of every Jalali date lies in 1 .. 7 |
| `SimpleDateTime.DayOfWeekCorrectedIsCalendarWeekday` | lib/src/main/java/com/hshamkhani/persiandtpicker/utils/DatePickerUtils.kt:64-76 | the corrected column is the Saturday-first column of the weekday `Calendar` gives for the converted date |
| `SimpleDateTime.DayOfWeekAsWritten` | lib/src/main/java/com/hshamkhani/persiandtpicker/utils/DatePickerUtils.kt:64-76 | for a time inside its day, `dayOfWeek` is the corrected column, except that Monday (column 3) comes out as 2 |
| `SimpleDateTime.AfternoonIn12HourMode` | lib/src/main/java/com/hshamkhani/persiandtpicker/utils/SimpleDateTime.kt:114-125 | an afternoon reading in 12-hour mode gives a timestamp 43200 seconds later than in 24-hour mode, and a weekday one day later |
| `SimpleDateTime.TimeNowCorrected` | lib/src/main/java/com/hshamkhani/persiandtpicker/utils/SimpleDateTime.kt:100-101 | the hour is the clock's in 24-hour mode and 1 .. 12 (the same hour modulo 12) in 12-hour mode; the period as `PeriodFor` |
| `SimpleDateTime.ToTimestampSecondsCorrected` | lib/src/main/java/com/hshamkhani/persiandtpicker/utils/Utils.kt:18-31 | with 12 read as 0, the timestamp splits into the epoch day and the time of day |
| `SimpleDateTime.TimeNowCorrectedKeepsTheHour` | lib/src/main/java/com/hshamkhani/persiandtpicker/utils/SimpleDateTime.kt:100-125 | with the corrected hour the clock's time has the same hour of day and timestamp in both modes |
| `SimpleDateTime.ToString` | lib/src/main/java/com/hshamkhani/persiandtpicker/utils/SimpleDateTime.kt:90-93 | the text is never empty and ends in a space exactly when there is no period |
| `SimpleDateTime.ParseToString` | lib/src/main/java/com/hshamkhani/persiandtpicker/utils/SimpleDateTime.kt:90-93 | the text `year-month-day hour:minute period` reads back as the same date and time, so it loses nothing |
| `PersianCalendar.NextMonthOf` | lib/src/main/java/com/hshamkhani/persiandtpicker/calendar/PersianCalendar.kt:196-207 | forward raises year * 12 + month by one, keeps the month in 1 .. 12, and keeps the day and time |
| `PersianCalendar.PreviousMonthOf` | lib/src/main/java/com/hshamkhani/persiandtpicker/calendar/PersianCalendar.kt:151-163 | back does nothing at the opening month and otherwise lowers year * 12 + month by one, keeping the day and time |
| `PersianCalendar.MonthIndexInjective` | lib/src/main/java/com/hshamkhani/persiandtpicker/calendar/PersianCalendar.kt:152 | two dates share year * 12 + month iff they share year and month |
| `PersianCalendar.NavigationRoundTrip` | lib/src/main/java/com/hshamkhani/persiandtpicker/calendar/PersianCalendar.kt:151-207 | back after forward, and forward after back, restore the date when back is not blocked |
| `PersianCalendar.PreviousBlockedOnlyAtOpeningMonth` | lib/src/main/java/com/hshamkhani/persiandtpicker/calendar/PersianCalendar.kt:152 | back is blocked exactly at the opening month, so a view opened on an earlier date goes back without limit |
| `PersianCalendar.NavigationKeepsDay` | lib/src/main/java/com/hshamkhani/persiandtpicker/calendar/PersianCalendar.kt:196-207 | forward from 1403-06-31 gives 1403-07-31, which is not a valid date |
| `PersianCalendar.CalendarState.constructor` | lib/src/main/java/com/hshamkhani/persiandtpicker/calendar/PersianCalendar.kt:108-109 | the view opens at now and shows the selected date if there is one, otherwise now |
| `PersianCalendar.CalendarState.Previous` | lib/src/main/java/com/hshamkhani/persiandtpicker/calendar/PersianCalendar.kt:151-163 | the back arrow sets the date to `PreviousMonthOf` the old date |
| `PersianCalendar.CalendarState.Next` | lib/src/main/java/com/hshamkhani/persiandtpicker/calendar/PersianCalendar.kt:196-207 | the forward arrow sets the date to `NextMonthOf` the old date |
| `PersianCalendar.CalendarState.SelectDay` | lib/src/main/java/com/hshamkhani/persiandtpicker/calendar/PersianCalendar.kt:258-279 | a day click sets the day and keeps year, month and time |
| `PersianCalendar.Grid` | lib/src/main/java/com/hshamkhani/persiandtpicker/calendar/PersianCalendar.kt:125-131 | start blanks, then the days 1 .. n, then end blanks |
| `PersianCalendar.MonthInRange` | lib/src/main/java/com/hshamkhani/persiandtpicker/calendar/PersianCalendar.kt:120-123 | every month of a year from 1 on is inside the conversion's exact range |
| `PersianCalendar.DaysList` | lib/src/main/java/com/hshamkhani/persiandtpicker/calendar/PersianCalendar.kt:111-133 | the grid has `dayOfWeek(day 1) - 1` leading blanks (0 .. 6), then the 29 .. 31 days of `monthLength` in order with day k at position start + k - 1, then `7 - dayOfWeek(last day)` trailing blanks, and nothing else |
| `PersianCalendar.DaysListCorrected` | lib/src/main/java/com/hshamkhani/persiandtpicker/calendar/PersianCalendar.kt:111-133 | whole weeks; day 1 in its weekday's column; every cell a valid date in its own weekday's column; every day of the month present |
| `PersianCalendar.DaysListMatchesCorrected` | lib/src/main/java/com/hshamkhani/persiandtpicker/calendar/PersianCalendar.kt:111-133 | where the leap table is right and neither the first nor the last day is a Monday, the grid as written is the corrected grid |
| `PersianCalendar.Mordad1403Weekdays` | lib/src/main/java/com/hshamkhani/persiandtpicker/utils/DatePickerUtils.kt:64-76 | 1403-05-01 is a Monday, which `dayOfWeek` reports as column 2; 1403-05-31 is in column 5 |
| `PersianCalendar.Mordad1403Grid` | lib/src/main/java/com/hshamkhani/persiandtpicker/calendar/PersianCalendar.kt:120-133 | the grid for Mordad 1403 has 34 cells, with day 1 in the Sunday column; the corrected grid has it in the Monday column |
| `TimePicker.InitialHourIndex` | lib/src/main/java/com/hshamkhani/persiandtpicker/picker/TimePicker.kt:141 | for an hour 0 .. 23 the hour wheel opens inside its list, on the hour (24-hour mode) or on hour % 12 shown as 12 for 0 |
| `TimePicker.InitialPeriodIndex` | lib/src/main/java/com/hshamkhani/persiandtpicker/picker/TimePicker.kt:163 | the period wheel opens at 0 iff the period is Am |
| `TimePicker.WithHour` | lib/src/main/java/com/hshamkhani/persiandtpicker/picker/TimePicker.kt:148-155 | the hour becomes the value and the minute stays; the period is null in 24-hour mode, and otherwise Am iff the value is below 12 |
| `TimePicker.HourWheelOverridesPeriod` | lib/src/main/java/com/hshamkhani/persiandtpicker/picker/TimePicker.kt:141-155 | in 12-hour mode the labels 1 .. 11 force Am and 12 forces Pm; choosing the opening hour again keeps the period only for hours 1 .. 12 |
| `TimePicker.TimePickerState.constructor` | lib/src/main/java/com/hshamkhani/persiandtpicker/picker/TimePicker.kt:74-88 | the wheels open at the clock's raw hour and minute with the period of `PeriodFor` |
| `TimePicker.TimePickerState.SelectMinute` | lib/src/main/java/com/hshamkhani/persiandtpicker/picker/TimePicker.kt:125-129 | the minute wheel sets the minute to its index and keeps the rest |
| `TimePicker.TimePickerState.SelectHour` | lib/src/main/java/com/hshamkhani/persiandtpicker/picker/TimePicker.kt:148-155 | the hour wheel applies `WithHour` with the label at the index |
| `TimePicker.TimePickerState.SelectPeriod` | lib/src/main/java/com/hshamkhani/persiandtpicker/picker/TimePicker.kt:170-174 | the period wheel, present in 12-hour mode only, sets Am at index 0 and Pm otherwise, keeping hour and minute |

## Left out

- Clock, time zone and locale: `LocalDate.now`, `LocalDateTime.now`, `LocalTime.now`, the zone offset, `DateFormat.is24HourFormat` and `Locale.getDefault()`/`Locale.current` are parameters. `now`, `from` and `SimpleTime.now` take the clock's reading, and `from` takes the zone's offset in seconds.
- `SimpleDateTime.From`: `from` reads the clock a second time for its time fields. The model takes that reading as a separate parameter. The daylight-saving rules that set the offset are not modelled.
- `currentDate` (DatePickerUtils.kt:142) only reads the clock, so it is not modelled.
- `Conversion.GregorianToJalali`: the month must be 1 .. 12, because `g_d_m[gm - 1]` would fail otherwise. Its results are stated only where every dividend in the engine is non-negative: the year from 0 and the engine's day count from 0, which together hold for every valid date from year 0. Outside that range Kotlin's truncating division is still computed exactly, but nothing is proved about the result.
- `Conversion.JalaliToGregorian`: results are stated only where every dividend in the engine is non-negative: the year from -1595 and the engine's day count from 0, which together hold for every Jalali year from 1.
- `Conversion.MonthSearch`: the `sal_a` table and its loop are a helper method that `JalaliToGregorian` calls. They are not inlined.
- Int overflow is not modelled. The days, years and seconds of the conversions and of `toTimestampSeconds` are unbounded integers. The source's `Int`/`Long` would overflow only far outside any calendar year.
- `SimpleDateTime.ToTimestampSeconds`: `LocalDate.of` rejects an invalid date and a year beyond ±999999999. Both are preconditions. The exception itself is not modelled.
- `toCalendar` (SimpleDateTime.kt:160-177) builds a mutable `java.util.Calendar`. Only the weekday it yields is modelled. `Calendar` reads a year, month and day before 1582-10-15 as a Julian date, which is a different day from the proleptic Gregorian date the conversion computes, so for those triples its weekday differs from the model's. Its seconds and milliseconds, left over from the moment of the call, are not modelled.
- `SimpleDateTime.CalendarDayOfWeek`: the weekday is that of the proleptic Gregorian date, so it is faithful only from 1582-10-15 (about Jalali year 961) on; before that `Calendar`'s Julian reading gives another weekday.
- `SimpleDateTime.DayOfWeek`: built on `CalendarDayOfWeek`, so faithful only for dates from 1582-10-15 (about Jalali year 961) on.
- `PersianCalendar.DaysList`: its columns come from `dayOfWeek`, so they are faithful only for months from about Jalali year 961 on.
- `PersianCalendar.DaysListCorrected`: its columns are the proleptic Gregorian weekdays, which is what the source would show only from about Jalali year 961 on.
- `SimpleDateTime.DayOfWeek`: its own contract states only the range and that 3 never occurs. Its relation to the real weekday is stated in `SimpleDateTime.DayOfWeekAsWritten`, for times inside the day.
- `PersianNumberUtils` (digit shaping, zero padding, month names by number) is not part of this model. The option lists are lists of integers instead of their rendered strings, and the hour wheel's value is the integer of its label.
- `formatToHindiIfLanguageIsFa` is not part of this model. `daysList` cells are day numbers.
- `DatePickerUtils.initMonthDays`, which `PersianCalendar` calls (PersianCalendar.kt:113), is not part of this model. It is taken to be `monthLength`, and its `size` is the number of days.
- `DateUtils` (Utils.kt:72, TimePicker.kt:92-104) is not part of this model. It is taken to be `DatePickerUtils`.
- `PersianCalendar.DaysList`: stated for years from 1 and months 1 .. 12, where every day the grid asks `dayOfWeek` about is inside the conversion's exact range.
- The duplicate declarations of `SimpleDate`, `SimpleTime`, `ClockPeriod` and `totGregorianDate` in Utils.kt and SimpleDateTime.kt are modelled once. `SimpleDate` carries the operations of both files.
- `copy` is Dafny's datatype update.
- The Compose UI is not modelled: layout, colours, `WheelPicker`, `Day`, `DayWitchContent`, `IconButton`, the `remember`/`derivedStateOf` caching and the `LaunchedEffect` callbacks.
- `PersianDatePicker` is not modelled. Its day list is keyed on the month only, not the year, so it can go stale across years.
- The name tables are modelled with their entries, as in the source. This includes the misspelt Persian Thursday.
- The minute wheel's initial index (TimePicker.kt:118) is the clock's minute. It is not modelled separately from the opening time.

## Findings

| source | as written | input that shows it | evidently intended | confidence | as-written member | corrected member |
|---|---|---|---|---|---|---|
| lib/src/main/java/com/hshamkhani/persiandtpicker/utils/DatePickerUtils.kt:157-173 | the leap-year table lists 1403, 1407, .., 1439; the conversion's own rule makes 1403 and 1408, 1412, .., 1436 leap | `monthLength(12, 1407)` offers day 30, but 1407-12-30 and 1408-01-01 both convert to 2029-03-20; 1408 is offered only 29 days of Esfand | the month lengths follow the calendar the conversion computes | not executed | `DatePickerUtils.Esfand1407Collision` | `DatePickerUtils.MonthLengthCorrected` |
| lib/src/main/java/com/hshamkhani/persiandtpicker/utils/DatePickerUtils.kt:69 | `Calendar.MONDAY -> 2`, the same column as Sunday | 1403-05-01 (Monday 2024-07-22) is placed in column 2, so Mordad 1403's grid starts one column early and has 34 cells | Monday is column 3 of the Saturday-first week | not executed | `SimpleDateTime.DayOfWeekAsWritten` | `SimpleDateTime.DayOfWeekCorrected` |
| lib/src/main/java/com/hshamkhani/persiandtpicker/utils/SimpleDateTime.kt:119-123 | in 12-hour mode the raw hour 12 .. 23 is stored beside Pm, and `toTimestampSeconds` adds 12 to it | a 15:30 reading in 12-hour mode is stored as (15, 30, Pm), whose timestamp is 27:30 and whose `toCalendar` weekday is the next day | the hour is 1 .. 12 beside its period, as the doc comment at lines 100-101 says | not executed | `SimpleDateTime.AfternoonIn12HourMode` | `SimpleDateTime.TimeNowCorrected` |
