/** The calendar metadata and option lists of `DatePickerUtils`: the literal leap-year table
    and the month lengths built on it, the weekday column table, the wheel option lists
    (as numbers; their digit shaping is presentation), the name tables, and today's Jalali
    date. */
module DatePickerUtils {
  import Gregorian
  import Jalali
  import Conversion

  /* ---------------- Name tables ---------------- */

  const EnglishWeekDays: seq<string> :=
    ["Saturday", "Sunday", "Monday", "Tuesday", "Wednesday", "Thursday", "Friday"]

  const PersianWeekDays: seq<string> :=
    ["شنیه", "یک\U{200C}شنبه", "دوشنبه", "سه\U{200C}شنبه", "چهارشنبه", "پتج\U{200C}شنبه", "جمعه"]

  const FarsiMonthNames: seq<string> :=
    ["فروردین", "اردیبهشت", "خرداد", "تیر", "مرداد", "شهریور",
     "مهر", "آبان", "آذر", "دی", "بهمن", "اسفند"]

  const EnglishMonthNames: seq<string> :=
    ["Farvardin", "Ordibehesht", "Khordad", "Tir", "Mordad", "Shahrivar",
     "Mehr", "Aban", "Azar", "Day", "Bahman", "Esfand"]

  /** `weekDays()`: the column headers, Saturday first; isFa is whether the default
      locale's language is Persian. */
  function WeekDays(isFa: bool): (names: seq<string>)
    ensures |names| == 7
    ensures !isFa ==> names[0] == "Saturday" && names[6] == "Friday"
  {
    if isFa then PersianWeekDays else EnglishWeekDays
  }

  /** `initMonthList(isEng)`: the twelve month names, Farvardin to Esfand. */
  function InitMonthList(isEng: bool): (names: seq<string>)
    ensures |names| == 12
    ensures isEng ==> names[0] == "Farvardin" && names[11] == "Esfand"
  {
    if isEng then EnglishMonthNames else FarsiMonthNames
  }

  /** `initAmPm(isEng)`: the two labels of the period wheel, Am first. */
  function InitAmPm(isEng: bool): (labels: (string, string))
    ensures labels.0 != labels.1
    ensures isEng ==> labels == ("AM", "PM")
  {
    if isEng then ("AM", "PM") else ("ق.ظ", "ب.ظ")
  }

  /* ---------------- Leap years and month lengths ---------------- */

  /** The literal table of leap years. */
  const LeapYears: seq<int> := [1403, 1407, 1411, 1415, 1419, 1423, 1427, 1431, 1435, 1439]

  /** `isLeap()`: membership in the table. */
  predicate IsLeap(y: int) {
    y in LeapYears
  }

  /** The table is every fourth year from 1403 to 1439 and nothing else. */
  lemma IsLeapTable(y: int)
    ensures IsLeap(y) <==> 1403 <= y <= 1439 && (y - 1403) % 4 == 0
  {
    if 1403 <= y <= 1439 && (y - 1403) % 4 == 0 {
      var k := (y - 1403) / 4;
      assert 0 <= k < 10 && y == 1403 + 4 * k;
      assert LeapYears[k] == y;
    }
  }

  /** The days 1 .. n, in order; no days for n <= 0. */
  function DayRange(n: int): (days: seq<int>)
    ensures |days| == if n > 0 then n else 0
    ensures forall i :: 0 <= i < |days| ==> days[i] == i + 1
    decreases if n > 0 then n else 0
  {
    if n <= 0 then [] else DayRange(n - 1) + [n]
  }

  /** Membership in a day range. */
  lemma InDayRange(n: int, d: int)
    ensures d in DayRange(n) <==> 1 <= d <= n
  {
    if 1 <= d <= n {
      assert DayRange(n)[d - 1] == d;
    }
  }

  /** `monthLength(monthNumber, year)`: the days of a Jalali month, by the leap table. */
  function MonthLength(monthNumber: int, year: int): (days: seq<int>)
    ensures monthNumber < 1 || monthNumber > 12 ==> days == []
    ensures 1 <= monthNumber <= 6 ==> days == DayRange(31)
    ensures 7 <= monthNumber <= 11 ==> days == DayRange(30)
    ensures monthNumber == 12 ==> days == DayRange(if IsLeap(year) then 30 else 29)
  {
    if 1 <= monthNumber <= 6 then DayRange(31)
    else if 7 <= monthNumber <= 11 then DayRange(30)
    else if monthNumber == 12 then (if IsLeap(year) then DayRange(30) else DayRange(29))
    else []
  }

  /** Where the table agrees with the conversion's leap rule, the listed days are exactly
      the days the conversion accepts. */
  lemma MonthLengthMatchesCalendar(monthNumber: int, year: int, d: int)
    requires IsLeap(year) == Jalali.IsLeapYear(year)
    ensures d in MonthLength(monthNumber, year) <==> Jalali.ValidDate(year, monthNumber, d)
  {
    if 1 <= monthNumber <= 12 {
      InDayRange(Jalali.MonthDays(year, monthNumber), d);
    }
  }

  /** The table and the conversion's 33-year rule agree on 1403 and on no later listed
      year: the rule puts the leap years of 1403 .. 1439 at 1403, 1408, 1412, .., 1436. */
  lemma LeapTableDisagrees(y: int)
    requires 1403 <= y <= 1439
    ensures IsLeap(1403) && Jalali.IsLeapYear(1403)
    ensures IsLeap(y) && y != 1403 ==> !Jalali.IsLeapYear(y)
    ensures Jalali.IsLeapYear(y) <==> y == 1403 || (1408 <= y <= 1436 && y % 4 == 0)
  {
    IsLeapTable(y);
    IsLeapTable(1403);
    var k := y - 1403;
    assert Jalali.CycleYear(y) == if k <= 4 then 28 + k else k - 5;
  }

  /** A month length the table gives that the conversion does not honour: Esfand 1407 is
      listed with 30 days, and its 30th day converts to the same Gregorian date as
      Farvardin 1 of 1408 (both 2029-03-20). */
  lemma Esfand1407Collision()
    ensures IsLeap(1407) && |MonthLength(12, 1407)| == 30
    ensures !Jalali.IsLeapYear(1407) && Jalali.IsLeapYear(1408) && !IsLeap(1408)
    ensures Conversion.JalaliInRange(1407, 12, 30) && Conversion.JalaliInRange(1408, 1, 1)
    ensures Conversion.ToGregorian(1407, 12, 30) == Conversion.ToGregorian(1408, 1, 1) == (2029, 3, 20)
  {
    IsLeapTable(1407);
    IsLeapTable(1408);
    assert !Jalali.IsLeapYear(1407) && Jalali.IsLeapYear(1408) by {
      assert Jalali.CycleYear(1407) == 32 && Jalali.CycleYear(1408) == 0;
    }
    NowruzDayNumbers();
    Conversion.ToGregorianDate(1408, 1, 1, 2029, 3, 20);
    Conversion.ToGregorianDate(1407, 12, 30, 2029, 3, 20);
  }

  /** The day numbers of Esfand 30, 1407, Farvardin 1, 1408 and 2029-03-20. */
  lemma NowruzDayNumbers()
    ensures Jalali.DayNumber(1407, 12, 30) == Jalali.DayNumber(1408, 1, 1) == 1096824
    ensures Gregorian.ValidDate(2029, 3, 20) && Gregorian.DayNumber(2029, 3, 20) == 741157
  {
    Gregorian.DaysBeforeMonthTable(2029, 3);
  }

  /** `monthLength` with the conversion's leap rule. */
  function MonthLengthCorrected(monthNumber: int, year: int): (days: seq<int>)
    ensures forall d :: d in days <==> Jalali.ValidDate(year, monthNumber, d)
    ensures |days| == if 1 <= monthNumber <= 12 then Jalali.MonthDays(year, monthNumber) else 0
  {
    var days := if 1 <= monthNumber <= 12 then DayRange(Jalali.MonthDays(year, monthNumber)) else [];
    assert forall d :: d in days <==> Jalali.ValidDate(year, monthNumber, d) by {
      forall d ensures d in days <==> Jalali.ValidDate(year, monthNumber, d) {
        if 1 <= monthNumber <= 12 {
          InDayRange(Jalali.MonthDays(year, monthNumber), d);
        }
      }
    }
    days
  }

  /** Every day the corrected list offers, in a year the conversion covers, converts to a
      Gregorian date and back to itself, so no two listed days share a Gregorian date. */
  lemma MonthLengthCorrectedRoundTrip(monthNumber: int, year: int, d: int)
    requires d in MonthLengthCorrected(monthNumber, year) && Conversion.JalaliInRange(year, monthNumber, d)
    ensures var g := Conversion.ToGregorian(year, monthNumber, d);
      Conversion.GregorianInRange(g.0, g.1, g.2) && Conversion.ToJalali(g.0, g.1, g.2) == (year, monthNumber, d)
  {
    Conversion.JalaliRoundTrip(year, monthNumber, d);
  }

  /* ---------------- Weekday columns ---------------- */

  /** The `when` table of `dayOfWeek`: a `Calendar.DAY_OF_WEEK` value (Sunday = 1 ..
      Saturday = 7) to a column of the Saturday-first week, 0 for any other value. Monday
      is mapped to 2, the column of Sunday. */
  function WeekdayIndex(calendarDay: int): (column: int)
    ensures 0 <= column <= 7 && column != 3
    ensures column == 0 <==> calendarDay < 1 || calendarDay > 7
  {
    if calendarDay == Gregorian.Saturday then 1
    else if calendarDay == Gregorian.Sunday then 2
    else if calendarDay == Gregorian.Monday then 2
    else if calendarDay == Gregorian.Tuesday then 4
    else if calendarDay == Gregorian.Wednesday then 5
    else if calendarDay == Gregorian.Thursday then 6
    else if calendarDay == Gregorian.Friday then 7
    else 0
  }

  /** The Saturday-first column of a weekday, Monday in column 3. */
  function WeekdayIndexCorrected(calendarDay: int): (column: int)
    ensures 1 <= calendarDay <= 7 ==> 1 <= column <= 7
    ensures calendarDay < 1 || calendarDay > 7 ==> column == 0
  {
    if 1 <= calendarDay <= 7 then calendarDay % 7 + 1 else 0
  }

  /** The corrected table differs from the written one at Monday only, and gives each
      weekday its own column, the next day the next column. */
  lemma WeekdayIndexCorrectedProperties(c1: int, c2: int)
    ensures WeekdayIndexCorrected(c1) != WeekdayIndex(c1) <==> c1 == Gregorian.Monday
    ensures 1 <= c1 <= 7 && 1 <= c2 <= 7 && WeekdayIndexCorrected(c1) == WeekdayIndexCorrected(c2) ==> c1 == c2
    ensures 1 <= c1 <= 7 ==> WeekdayIndexCorrected(c1 % 7 + 1) == WeekdayIndexCorrected(c1) % 7 + 1
    ensures WeekdayIndexCorrected(Gregorian.Saturday) == 1 && WeekdayIndexCorrected(Gregorian.Friday) == 7
  {
  }

  /** For a weekday, the written table gives the corrected column except Monday's 3, which
      it gives as 2. */
  lemma MondayColumn(calendarDay: int, column: int, corrected: int)
    requires 1 <= calendarDay <= 7
    requires column == WeekdayIndex(calendarDay) && corrected == WeekdayIndexCorrected(calendarDay)
    ensures corrected != 3 ==> column == corrected
    ensures corrected == 3 ==> column == 2
  {
  }

  /* ---------------- Option lists ---------------- */

  /** The hour shown at position index of the hour wheel: 0 .. 23, or 1 .. 12 in 12-hour
      mode. */
  function HourLabel(index: int, is24h: bool): int {
    if is24h then index else index + 1
  }

  /** `initHours(is24h)`. */
  method InitHours(is24h: bool) returns (values: seq<int>)
    ensures |values| == if is24h then 24 else 12
    ensures forall i :: 0 <= i < |values| ==> values[i] == HourLabel(i, is24h)
    ensures forall v :: v in values <==> if is24h then 0 <= v < 24 else 1 <= v <= 12
  {
    values := [];
    var repeatValue := if is24h then 24 else 12;
    var index := 0;
    while index < repeatValue
      invariant 0 <= index <= repeatValue
      invariant |values| == index
      invariant forall i :: 0 <= i < index ==> values[i] == HourLabel(i, is24h)
    {
      var hour := if is24h then index else index + 1;
      values := values + [hour];
      index := index + 1;
    }
    forall v | if is24h then 0 <= v < 24 else 1 <= v <= 12
      ensures v in values
    {
      var i := if is24h then v else v - 1;
      assert values[i] == v;
    }
  }

  /** `initDaysList(monthLength)`: a non-positive length repeats nothing. */
  method InitDaysList(monthLength: int) returns (values: seq<int>)
    ensures |values| == if monthLength > 0 then monthLength else 0
    ensures forall i :: 0 <= i < |values| ==> values[i] == i + 1
    ensures forall v :: v in values <==> 1 <= v <= monthLength
  {
    values := [];
    var monthDay := 0;
    while monthDay < monthLength
      invariant 0 <= monthDay <= if monthLength > 0 then monthLength else 0
      invariant |values| == monthDay
      invariant forall i :: 0 <= i < monthDay ==> values[i] == i + 1
    {
      values := values + [monthDay + 1];
      monthDay := monthDay + 1;
    }
    forall v | 1 <= v <= monthLength
      ensures v in values
    {
      assert values[v - 1] == v;
    }
  }

  /** `initYearList(shYear)`: twenty consecutive years from shYear. */
  method InitYearList(shYear: int) returns (values: seq<int>)
    ensures |values| == 20
    ensures forall i :: 0 <= i < 20 ==> values[i] == shYear + i
    ensures forall y :: y in values <==> shYear <= y < shYear + 20
  {
    values := [];
    var year := shYear;
    while year < shYear + 20
      invariant shYear <= year <= shYear + 20
      invariant |values| == year - shYear
      invariant forall i :: 0 <= i < |values| ==> values[i] == shYear + i
    {
      values := values + [year];
      year := year + 1;
    }
    forall y | shYear <= y < shYear + 20
      ensures y in values
    {
      assert values[y - shYear] == y;
    }
  }

  /** `initMinutes()`. */
  method InitMinutes() returns (values: seq<int>)
    ensures |values| == 60
    ensures forall i :: 0 <= i < 60 ==> values[i] == i
  {
    values := [];
    var index := 0;
    while index < 60
      invariant 0 <= index <= 60
      invariant |values| == index
      invariant forall i :: 0 <= i < index ==> values[i] == i
    {
      values := values + [index];
      index := index + 1;
    }
  }

  /* ---------------- Today ---------------- */

  /** `currentJalaliDate()` for the device's date today (a Gregorian date). */
  function CurrentJalaliDate(today: (int, int, int)): (j: (int, int, int))
    requires Gregorian.ValidDate(today.0, today.1, today.2) && today.0 >= 0
    ensures Jalali.ValidDate(j.0, j.1, j.2)
    ensures Jalali.DayNumber(j.0, j.1, j.2) == Gregorian.DayNumber(today.0, today.1, today.2) + Conversion.SameDayShift
  {
    Conversion.GregorianDateInRange(today.0, today.1, today.2);
    Conversion.ToJalali(today.0, today.1, today.2)
  }
}
