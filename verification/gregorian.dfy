/** The proleptic ISO 8601 (Gregorian) calendar.

    This is the reference against which the Gregorian half of the conversion engine is
    proved, and the calendar of `LocalDate`: the epoch-day arithmetic of `toEpochDay` and the
    weekday that `java.util.Calendar` reports are both stated here as functions of a plain
    day number. */
module Gregorian {

  /** Leap rule of ISO 8601:2004, section 3.2.1: every fourth year, except centuries that
      are not divisible by 400. */
  predicate IsLeapYear(y: int) {
    (y % 4 == 0 && y % 100 != 0) || y % 400 == 0
  }

  function YearLength(y: int): int {
    if IsLeapYear(y) then 366 else 365
  }

  function MonthDays(y: int, m: int): int
    requires 1 <= m <= 12
  {
    if m == 2 then (if IsLeapYear(y) then 29 else 28)
    else if m == 4 || m == 6 || m == 9 || m == 11 then 30
    else 31
  }

  predicate ValidDate(y: int, m: int, d: int) {
    1 <= m <= 12 && 1 <= d <= MonthDays(y, m)
  }

  /** Days in the years 0 .. y-1. Dafny's `/` floors for a positive divisor, so the three
      quotients count the years in [0, y) divisible by 4, 100 and 400 for every y. */
  function DaysBeforeYear(y: int): int {
    365 * y + (y + 3) / 4 - (y + 99) / 100 + (y + 399) / 400
  }

  /** Days in the months 1 .. m-1 of year y. */
  function DaysBeforeMonth(y: int, m: int): int
    requires 1 <= m <= 13
  {
    if m == 1 then 0 else DaysBeforeMonth(y, m - 1) + MonthDays(y, m - 1)
  }

  /** Days since the day before 0000-01-01: 0000-01-01 is day 1. */
  function DayNumber(y: int, m: int, d: int): int
    requires 1 <= m <= 12
  {
    DaysBeforeYear(y) + DaysBeforeMonth(y, m) + d
  }

  /** Cumulative days before each month of a common year; the last entry is the year. */
  const CumulativeDays: seq<int> := [0, 31, 59, 90, 120, 151, 181, 212, 243, 273, 304, 334, 365]

  lemma YearStep(y: int)
    ensures DaysBeforeYear(y + 1) == DaysBeforeYear(y) + YearLength(y)
  {
    QuotientStepFour(y);
    QuotientStepHundred(y);
    QuotientStepFourHundred(y);
    DivisibilityChain(y);
  }

  /** A multiple of 400 is a multiple of 100, and a multiple of 100 a multiple of 4. */
  lemma DivisibilityChain(y: int)
    ensures y % 400 == 0 ==> y % 100 == 0
    ensures y % 100 == 0 ==> y % 4 == 0
  {
    if y % 400 == 0 {
      var q := y / 400;
      assert y == 100 * (4 * q);
      ModShiftHundred(4 * q, 0);
    }
    if y % 100 == 0 {
      var q := y / 100;
      assert y == 4 * (25 * q);
      ModShiftFour(25 * q, 0);
    }
  }

  lemma QuotientStepFour(y: int)
    ensures (y + 4) / 4 == (y + 3) / 4 + (if y % 4 == 0 then 1 else 0)
  {
  }

  lemma QuotientStepHundred(y: int)
    ensures (y + 100) / 100 == (y + 99) / 100 + (if y % 100 == 0 then 1 else 0)
  {
  }

  lemma QuotientStepFourHundred(y: int)
    ensures (y + 400) / 400 == (y + 399) / 400 + (if y % 400 == 0 then 1 else 0)
  {
  }

  /** The month-by-month sum agrees with the table of common-year offsets, plus one day
      after February in a leap year. */
  lemma {:induction false} DaysBeforeMonthTable(y: int, m: int)
    requires 1 <= m <= 13
    ensures DaysBeforeMonth(y, m) == CumulativeDays[m - 1] + (if m > 2 && IsLeapYear(y) then 1 else 0)
  {
    if m > 1 {
      DaysBeforeMonthTable(y, m - 1);
    }
  }

  lemma MonthsFillYear(y: int)
    ensures DaysBeforeMonth(y, 13) == YearLength(y)
  {
    DaysBeforeMonthTable(y, 13);
  }

  /** The day after a valid date. */
  function NextDay(y: int, m: int, d: int): (r: (int, int, int))
    requires ValidDate(y, m, d)
    ensures ValidDate(r.0, r.1, r.2)
  {
    if d < MonthDays(y, m) then (y, m, d + 1)
    else if m < 12 then (y, m + 1, 1)
    else (y + 1, 1, 1)
  }

  /** Consecutive calendar days have consecutive day numbers: together with any one anchor
      this pins DayNumber down completely. */
  lemma NextDayNumber(y: int, m: int, d: int)
    requires ValidDate(y, m, d)
    ensures DayNumber(NextDay(y, m, d).0, NextDay(y, m, d).1, NextDay(y, m, d).2) == DayNumber(y, m, d) + 1
  {
    if d == MonthDays(y, m) && m == 12 {
      YearStep(y);
      MonthsFillYear(y);
    }
  }

  /** A valid date lies inside its year and inside its month. */
  lemma DayNumberInYear(y: int, m: int, d: int)
    requires ValidDate(y, m, d)
    ensures DaysBeforeYear(y) < DayNumber(y, m, d) <= DaysBeforeYear(y + 1)
    ensures DaysBeforeMonth(y, m) < DayNumber(y, m, d) - DaysBeforeYear(y) <= DaysBeforeMonth(y, m + 1)
  {
    DaysBeforeMonthTable(y, m);
    DaysBeforeMonthTable(y, m + 1);
    DaysBeforeMonthTable(y, 13);
    YearStep(y);
  }

  lemma {:induction false} DaysBeforeYearMonotone(a: int, b: int)
    requires a <= b
    ensures DaysBeforeYear(a) + 365 * (b - a) <= DaysBeforeYear(b)
    decreases b - a
  {
    if a < b {
      DaysBeforeYearMonotone(a, b - 1);
      YearStep(b - 1);
    }
  }

  lemma {:induction false} DaysBeforeMonthMonotone(y: int, a: int, b: int)
    requires 1 <= a <= b <= 13
    ensures DaysBeforeMonth(y, a) + 28 * (b - a) <= DaysBeforeMonth(y, b)
    decreases b - a
  {
    if a < b {
      DaysBeforeMonthMonotone(y, a, b - 1);
    }
  }

  /** Inside one year, distinct valid dates lie on distinct days of the year. */
  lemma MonthDayInjective(y: int, m1: int, d1: int, m2: int, d2: int)
    requires ValidDate(y, m1, d1) && ValidDate(y, m2, d2)
    requires DaysBeforeMonth(y, m1) + d1 == DaysBeforeMonth(y, m2) + d2
    ensures m1 == m2 && d1 == d2
  {
    if m1 < m2 {
      assert DaysBeforeMonth(y, m1 + 1) == DaysBeforeMonth(y, m1) + MonthDays(y, m1);
      DaysBeforeMonthMonotone(y, m1 + 1, m2);
      assert false;
    } else if m2 < m1 {
      assert DaysBeforeMonth(y, m2 + 1) == DaysBeforeMonth(y, m2) + MonthDays(y, m2);
      DaysBeforeMonthMonotone(y, m2 + 1, m1);
      assert false;
    }
  }

  /** Distinct valid dates have distinct day numbers. */
  lemma DayNumberInjective(y1: int, m1: int, d1: int, y2: int, m2: int, d2: int)
    requires ValidDate(y1, m1, d1) && ValidDate(y2, m2, d2)
    requires DayNumber(y1, m1, d1) == DayNumber(y2, m2, d2)
    ensures y1 == y2 && m1 == m2 && d1 == d2
  {
    if y1 < y2 {
      YearsApart(y1, m1, d1, y2, m2, d2);
      assert false;
    } else if y2 < y1 {
      YearsApart(y2, m2, d2, y1, m1, d1);
      assert false;
    }
    MonthDayInjective(y1, m1, d1, m2, d2);
  }

  /** A date of an earlier year has a smaller day number. */
  lemma YearsApart(y1: int, m1: int, d1: int, y2: int, m2: int, d2: int)
    requires ValidDate(y1, m1, d1) && ValidDate(y2, m2, d2) && y1 < y2
    ensures DayNumber(y1, m1, d1) < DayNumber(y2, m2, d2)
  {
    DayNumberInYear(y1, m1, d1);
    DayNumberInYear(y2, m2, d2);
    DaysBeforeYearMonotone(y1 + 1, y2);
  }

  /** Year 100c + 4q + k of the first 400-year era: the century c, the four-year block q
      inside it and the year k inside the block. Only year 0 of a block can be leap, and
      of block 0 only in century 0. */
  lemma EraYear(c: int, q: int, k: int)
    requires 0 <= c < 4 && 0 <= q < 25 && 0 <= k < 4
    ensures DaysBeforeYear(100 * c + 4 * q + k)
      == 36524 * c + 1461 * q + 365 * k + (if k > 0 then 1 else 0)
         - (if 4 * q + k > 0 then 1 else 0) + (if 100 * c + 4 * q + k > 0 then 1 else 0)
    ensures IsLeapYear(100 * c + 4 * q + k) <==> k == 0 && (q > 0 || c == 0)
  {
    var y := 100 * c + 4 * q + k;
    assert (y + 3) / 4 == 25 * c + q + (if k > 0 then 1 else 0);
    assert (y + 99) / 100 == c + (if 4 * q + k > 0 then 1 else 0);
    assert (y + 399) / 400 == (if y > 0 then 1 else 0);
    ModShiftFour(25 * c + q, k);
    ModShiftHundred(c, 4 * q + k);
    assert y % 4 == k && y % 100 == 4 * q + k && y % 400 == y;
  }

  /** Whole 400-year eras of 146097 days shift the calendar without changing it. */
  lemma EraShift(e: int, y: int)
    ensures DaysBeforeYear(400 * e + y) == 146097 * e + DaysBeforeYear(y)
    ensures IsLeapYear(400 * e + y) == IsLeapYear(y)
  {
    assert (400 * e + y + 3) / 4 == 100 * e + (y + 3) / 4;
    assert (400 * e + y + 99) / 100 == 4 * e + (y + 99) / 100;
    assert (400 * e + y + 399) / 400 == e + (y + 399) / 400;
    ModShift(e, y);
  }

  lemma ModShift(a: int, y: int)
    ensures (400 * a + y) % 4 == y % 4
    ensures (400 * a + y) % 100 == y % 100
    ensures (400 * a + y) % 400 == y % 400
  {
    ModShiftFour(100 * a, y);
    ModShiftHundred(4 * a, y);
    ModShiftFourHundred(a, y);
  }

  lemma ModShiftFour(a: int, y: int)
    ensures (4 * a + y) % 4 == y % 4
  {
  }

  lemma ModShiftHundred(a: int, y: int)
    ensures (100 * a + y) % 100 == y % 100
  {
  }

  lemma ModShiftFourHundred(a: int, y: int)
    ensures (400 * a + y) % 400 == y % 400
  {
  }

  /** Splits a day offset inside a 400-year era into a year of the era and a zero-based day
      of that year, the way the conversion engine does: a 36525-day first century, then
      36524-day centuries in which a day 366 is pretended for the first year so that every
      four-year block has 1461 days. */
  function YearInEra(r: int): (res: (int, int))
    requires 0 <= r < 146097
    ensures 0 <= res.0 < 400 && 0 <= res.1 < YearLength(res.0)
    ensures DaysBeforeYear(res.0) + res.1 == r
  {
    var c := if r > 36524 then (r - 1) / 36524 else 0;
    var rc := if r > 36524 then (r - 1) % 36524 else r;
    var w := if r > 36524 && rc >= 365 then rc + 1 else rc;
    var q := w / 1461;
    var r4 := w % 1461;
    var k := if r4 > 365 then (r4 - 1) / 365 else 0;
    var d := if r4 > 365 then (r4 - 1) % 365 else r4;
    EraYear(c, q, k);
    (100 * c + 4 * q + k, d)
  }

  /** Splits a zero-based day count z >= 0 (0 is 0000-01-01) into a year and a zero-based
      day of that year. */
  function YearAndDay(z: int): (res: (int, int))
    requires z >= 0
    ensures res.0 >= 0 && 0 <= res.1 < YearLength(res.0)
    ensures DaysBeforeYear(res.0) + res.1 == z
  {
    var e := z / 146097;
    var r := z % 146097;
    EraSplit(z);
    var yd := YearInEra(r);
    EraShift(e, yd.0);
    (400 * e + yd.0, yd.1)
  }

  lemma EraSplit(z: int)
    requires z >= 0
    ensures z / 146097 >= 0 && 0 <= z % 146097 < 146097
    ensures z == 146097 * (z / 146097) + z % 146097
  {
  }

  /** Finds the month of the d-th day counted from the start of month m: the search the
      conversion engine performs by subtracting month lengths. */
  function MonthOf(y: int, m: int, d: int): (res: (int, int))
    requires 1 <= m <= 12 && 1 <= d && DaysBeforeMonth(y, m) + d <= YearLength(y)
    ensures ValidDate(y, res.0, res.1)
    ensures DaysBeforeMonth(y, res.0) + res.1 == DaysBeforeMonth(y, m) + d
    decreases 12 - m
  {
    if d <= MonthDays(y, m) then (m, d)
    else
      MonthsFillYear(y);
      assert m < 12;
      MonthOf(y, m + 1, d - MonthDays(y, m))
  }

  /** The valid date with day number n, for n >= 1 (years from 0 on). */
  function FromDayNumber(n: int): (r: (int, int, int))
    requires n >= 1
    ensures ValidDate(r.0, r.1, r.2) && r.0 >= 0
    ensures DayNumber(r.0, r.1, r.2) == n
  {
    var yd := YearAndDay(n - 1);
    var md := MonthOf(yd.0, 1, yd.1 + 1);
    (yd.0, md.0, md.1)
  }

  /** Decoding the day number of a valid date from year 0 on gives the date back. */
  lemma FromDayNumberInverse(y: int, m: int, d: int)
    requires ValidDate(y, m, d) && y >= 0
    ensures DayNumber(y, m, d) >= 1
    ensures FromDayNumber(DayNumber(y, m, d)) == (y, m, d)
  {
    DayNumberInYear(y, m, d);
    DaysBeforeYearMonotone(0, y);
    var r := FromDayNumber(DayNumber(y, m, d));
    DayNumberInjective(r.0, r.1, r.2, y, m, d);
  }

  /** Day number of 1970-01-01, the epoch of `LocalDate.toEpochDay`. */
  const UnixEpochDayNumber: int := 719529

  /** `LocalDate.of(y, m, d).toEpochDay()`: days since 1970-01-01 (negative before it). */
  function EpochDay(y: int, m: int, d: int): int
    requires 1 <= m <= 12
  {
    DayNumber(y, m, d) - UnixEpochDayNumber
  }

  /** 1970-01-01 is epoch day 0, and the next calendar day is always one epoch day later. */
  lemma EpochDayAnchor(y: int, m: int, d: int)
    requires ValidDate(y, m, d)
    ensures EpochDay(1970, 1, 1) == 0
    ensures EpochDay(NextDay(y, m, d).0, NextDay(y, m, d).1, NextDay(y, m, d).2) == EpochDay(y, m, d) + 1
  {
    NextDayNumber(y, m, d);
  }

  /** `LocalDate.ofEpochDay(e)` for dates from year 0 on. */
  function FromEpochDay(e: int): (r: (int, int, int))
    requires e + UnixEpochDayNumber >= 1
    ensures ValidDate(r.0, r.1, r.2) && r.0 >= 0
    ensures EpochDay(r.0, r.1, r.2) == e
  {
    FromDayNumber(e + UnixEpochDayNumber)
  }

  /** `Calendar.DAY_OF_WEEK` of a day: Sunday = 1 .. Saturday = 7, 1970-01-01 a Thursday. */
  function CalendarWeekday(epochDay: int): (w: int)
    ensures 1 <= w <= 7
  {
    (epochDay + 4) % 7 + 1
  }

  /** The weekday advances by one each day, Saturday wrapping round to Sunday, and
      1970-01-01 is a Thursday. */
  lemma CalendarWeekdayStep(epochDay: int)
    ensures CalendarWeekday(0) == Thursday
    ensures CalendarWeekday(epochDay + 1) == CalendarWeekday(epochDay) % 7 + 1
  {
  }

  const Sunday: int := 1
  const Monday: int := 2
  const Tuesday: int := 3
  const Wednesday: int := 4
  const Thursday: int := 5
  const Friday: int := 6
  const Saturday: int := 7
}
