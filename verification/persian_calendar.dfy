/** The state behind the `PersianCalendar` month view: the date shown (a Jalali
    `SimpleDate`), moved a month back or forward by the arrow buttons and given a new day
    by a click on the grid, and the grid of cells for the month shown. */
module PersianCalendar {
  import opened Wrappers
  import opened SimpleDateTime
  import Jalali
  import Conversion
  import DatePickerUtils

  /** Months counted from year 0: one step of navigation moves it by one. */
  function MonthIndex(d: SimpleDate): int {
    d.year * 12 + d.month
  }

  /** The back arrow does nothing while the month shown is the month the view opened at. */
  predicate PreviousBlocked(initialDate: SimpleDate, d: SimpleDate) {
    initialDate.month == d.month && initialDate.year == d.year
  }

  /** The date the forward arrow moves to: the next month, the day and time kept (the day
      is not clamped to the new month's length). */
  function NextMonthOf(d: SimpleDate): (r: SimpleDate)
    ensures MonthIndex(r) == MonthIndex(d) + 1
    ensures r.day == d.day && r.time == d.time
    ensures 1 <= d.month <= 12 ==> 1 <= r.month <= 12
  {
    if d.month == 12 then d.(month := 1, year := d.year + 1) else d.(month := d.month + 1)
  }

  /** The date the back arrow moves to, from the view that opened at initialDate. */
  function PreviousMonthOf(initialDate: SimpleDate, d: SimpleDate): (r: SimpleDate)
    ensures PreviousBlocked(initialDate, d) ==> r == d
    ensures !PreviousBlocked(initialDate, d) ==> MonthIndex(r) == MonthIndex(d) - 1
    ensures r.day == d.day && r.time == d.time
    ensures 1 <= d.month <= 12 ==> 1 <= r.month <= 12
  {
    if PreviousBlocked(initialDate, d) then d
    else if d.month == 1 then d.(month := 12, year := d.year - 1)
    else d.(month := d.month - 1)
  }

  /** For months in 1 .. 12 the month index tells the year and the month. */
  lemma MonthIndexInjective(a: SimpleDate, b: SimpleDate)
    requires 1 <= a.month <= 12 && 1 <= b.month <= 12
    ensures MonthIndex(a) == MonthIndex(b) <==> a.year == b.year && a.month == b.month
  {
    if a.year < b.year {
      assert MonthIndex(a) < MonthIndex(b);
    } else if b.year < a.year {
      assert MonthIndex(b) < MonthIndex(a);
    }
  }

  /** Back after forward returns to the date, unless forward reached the opening month; and
      forward after an unblocked back returns to the date. */
  lemma NavigationRoundTrip(initialDate: SimpleDate, d: SimpleDate)
    requires 1 <= d.month <= 12
    ensures !PreviousBlocked(initialDate, NextMonthOf(d)) ==> PreviousMonthOf(initialDate, NextMonthOf(d)) == d
    ensures !PreviousBlocked(initialDate, d) ==> NextMonthOf(PreviousMonthOf(initialDate, d)) == d
  {
    var n := NextMonthOf(d);
    if !PreviousBlocked(initialDate, n) {
      MonthIndexInjective(PreviousMonthOf(initialDate, n), d);
    }
    if !PreviousBlocked(initialDate, d) {
      MonthIndexInjective(NextMonthOf(PreviousMonthOf(initialDate, d)), d);
    }
  }

  /** The back arrow is blocked exactly at the opening month, so a view opened on a
      selected date earlier than today is never blocked, however far back it goes. */
  lemma PreviousBlockedOnlyAtOpeningMonth(initialDate: SimpleDate, d: SimpleDate)
    requires 1 <= initialDate.month <= 12 && 1 <= d.month <= 12
    ensures PreviousBlocked(initialDate, d) <==> MonthIndex(d) == MonthIndex(initialDate)
    ensures MonthIndex(d) < MonthIndex(initialDate) ==>
      !PreviousBlocked(initialDate, d) && MonthIndex(PreviousMonthOf(initialDate, d)) < MonthIndex(initialDate)
  {
    MonthIndexInjective(initialDate, d);
  }

  /** Navigation keeps the day even where the new month is shorter: forward from Shahrivar 31
      of 1403 shows Mehr 31, which is not a date. */
  lemma NavigationKeepsDay()
    ensures Jalali.ValidDate(1403, 6, 31)
    ensures NextMonthOf(SimpleDate(1403, 6, 31, DefaultTime)) == SimpleDate(1403, 7, 31, DefaultTime)
    ensures !Jalali.ValidDate(1403, 7, 31)
  {
  }

  /** The view's state: the date it opened at and the date it shows. */
  class CalendarState {
    const initialDate: SimpleDate
    var simpleDate: SimpleDate

    /** Opens at now (`SimpleDate.now`), showing the selected date if there is one. */
    constructor (now: SimpleDate, selectedDate: Option<SimpleDate>)
      ensures initialDate == now
      ensures simpleDate == if selectedDate.Some? then selectedDate.value else now
    {
      initialDate := now;
      simpleDate := if selectedDate.Some? then selectedDate.value else now;
    }

    /** The back arrow. */
    method Previous()
      modifies this
      ensures simpleDate == PreviousMonthOf(initialDate, old(simpleDate))
    {
      if initialDate.month == simpleDate.month && initialDate.year == simpleDate.year {
        return;
      }
      if simpleDate.month == 1 {
        simpleDate := simpleDate.(month := 12, year := simpleDate.year - 1);
      } else {
        simpleDate := simpleDate.(month := simpleDate.month - 1);
      }
    }

    /** The forward arrow. */
    method Next()
      modifies this
      ensures simpleDate == NextMonthOf(old(simpleDate))
    {
      if simpleDate.month == 12 {
        simpleDate := simpleDate.(month := 1, year := simpleDate.year + 1);
      } else {
        simpleDate := simpleDate.(month := simpleDate.month + 1);
      }
    }

    /** A click on the cell of day `day`. */
    method SelectDay(day: int)
      modifies this
      ensures simpleDate == old(simpleDate).(day := day)
    {
      simpleDate := simpleDate.(day := day);
    }
  }

  /* ---------------- The month grid ---------------- */

  /** A grid cell: a blank filler, or the number of a day. */
  datatype Cell = Blank | DayCell(day: int)

  /** `padStart + monthDays + padEnd`. */
  function Grid(start: nat, days: nat, end: nat): (cells: seq<Cell>)
    ensures |cells| == start + days + end
    ensures forall i :: 0 <= i < |cells| ==>
      cells[i] == if start <= i < start + days then DayCell(i - start + 1) else Blank
  {
    seq(start, _ => Blank) + seq(days, i => DayCell(i + 1)) + seq(end, _ => Blank)
  }

  /** Every day of a month of a year from 1 on is in the conversion's range. */
  lemma MonthInRange(year: int, month: int, day: int)
    requires year >= 1 && 1 <= month <= 12 && day >= 0
    ensures Conversion.JalaliInRange(year, month, day)
  {
    Jalali.YearStartMonotone(1, year);
  }

  /** `daysList` for the month shown by d: blanks for the columns before day 1, the days
      `monthLength` lists, and blanks for the columns after the last day, the columns
      found by `dayOfWeek` of day 1 and of the last day, with d's time. */
  function DaysList(d: SimpleDate): (cells: seq<Cell>)
    requires d.year >= 1 && 1 <= d.month <= 12
    ensures var n := |DatePickerUtils.MonthLength(d.month, d.year)|;
      Conversion.JalaliInRange(d.year, d.month, 1) && Conversion.JalaliInRange(d.year, d.month, n) &&
      cells == Grid(DayOfWeek(d.(day := 1)) - 1, n, 7 - DayOfWeek(d.(day := n)))
    ensures var n := |DatePickerUtils.MonthLength(d.month, d.year)|;
      Conversion.JalaliInRange(d.year, d.month, 1) && Conversion.JalaliInRange(d.year, d.month, n) &&
      (var start := DayOfWeek(d.(day := 1)) - 1;
       29 <= n <= 31 && 0 <= start <= 6 && |cells| == start + n + 7 - DayOfWeek(d.(day := n)) &&
       (forall i :: 0 <= i < start ==> cells[i] == Blank) &&
       (forall i :: start <= i < start + n ==> cells[i] == DayCell(i - start + 1)) &&
       (forall i :: start + n <= i < |cells| ==> cells[i] == Blank))
  {
    var daysInMonth := |DatePickerUtils.MonthLength(d.month, d.year)|;
    MonthInRange(d.year, d.month, 1);
    MonthInRange(d.year, d.month, daysInMonth);
    var start := DayOfWeek(d.(day := 1)) - 1;
    var end := 7 - DayOfWeek(d.(day := daysInMonth));
    Grid(start, daysInMonth, end)
  }

  /** The grid with the corrected weekday columns and month lengths: whole weeks, day 1 in
      the column of its weekday, and every day of the month in the column of its own
      weekday. */
  function DaysListCorrected(d: SimpleDate): (cells: seq<Cell>)
    requires 1 <= d.month <= 12
    ensures |cells| % 7 == 0
    ensures |cells| >= DayOfWeekCorrected(d.(day := 1)) && cells[DayOfWeekCorrected(d.(day := 1)) - 1] == DayCell(1)
    ensures forall i :: 0 <= i < |cells| && cells[i].DayCell? ==>
      Jalali.ValidDate(d.year, d.month, cells[i].day) &&
      i % 7 + 1 == DayOfWeekCorrected(d.(day := cells[i].day))
    ensures forall k :: 1 <= k <= Jalali.MonthDays(d.year, d.month) ==> DayCell(k) in cells
  {
    var n := |DatePickerUtils.MonthLengthCorrected(d.month, d.year)|;
    var first := Jalali.DayNumber(d.year, d.month, 1);
    var start := DayOfWeekCorrected(d.(day := 1)) - 1;
    var end := 7 - DayOfWeekCorrected(d.(day := n));
    var cells := Grid(start, n, end);
    WholeWeeks(first, start, n, end);
    forall i | 0 <= i < |cells| && cells[i].DayCell?
      ensures Jalali.ValidDate(d.year, d.month, cells[i].day)
      ensures i % 7 + 1 == DayOfWeekCorrected(d.(day := cells[i].day))
    {
      CorrectedCell(d, start, n, i);
    }
    forall k | 1 <= k <= n
      ensures DayCell(k) in cells
    {
      assert cells[start + k - 1] == DayCell(k);
    }
    cells
  }

  /** Cell i of the corrected layout holds a day of the month, in its weekday's column. */
  lemma CorrectedCell(d: SimpleDate, start: int, n: int, i: int)
    requires 1 <= d.month <= 12 && n == Jalali.MonthDays(d.year, d.month)
    requires start == DayOfWeekCorrected(d.(day := 1)) - 1
    requires start <= i < start + n
    ensures Jalali.ValidDate(d.year, d.month, i - start + 1)
    ensures i % 7 + 1 == DayOfWeekCorrected(d.(day := i - start + 1))
  {
    var k := i - start + 1;
    var first := Jalali.DayNumber(d.year, d.month, 1);
    assert Jalali.DayNumber(d.year, d.month, k) == first + k - 1;
    ColumnShift(first, start, k);
  }

  /** Day k of a month whose day 1 has day number first sits k - 1 cells after it. */
  lemma ColumnShift(first: int, start: int, k: int)
    requires start == (first + 2) % 7 && k >= 1
    ensures (start + k - 1) % 7 + 1 == WeekColumn(first + k - 1)
  {
    var q := (first + 2) / 7;
    assert first + k - 1 + 2 == 7 * q + (start + k - 1);
  }

  /** The blanks after the last day complete its week. */
  lemma WholeWeeks(first: int, start: int, n: int, end: int)
    requires start == (first + 2) % 7 && end == 6 - (first + n - 1 + 2) % 7
    ensures (start + n + end) % 7 == 0
  {
    var q := (first + 2) / 7;
    assert first + 2 == 7 * q + start;
    var q2 := (first + n + 1) / 7;
    assert start + n + end == 7 * (q2 - q) + 7;
  }

  /** Where the leap table agrees with the conversion, the time lies inside its day, and
      neither the first nor the last day of the month is a Monday, the grid as written is
      the corrected one. */
  lemma DaysListMatchesCorrected(d: SimpleDate)
    requires d.year >= 1 && 1 <= d.month <= 12
    requires DatePickerUtils.IsLeap(d.year) == Jalali.IsLeapYear(d.year)
    requires 0 <= HourOfDay(d.time) * 60 + d.time.minute < 1440
    requires Conversion.JalaliInRange(d.year, d.month, 1) && DayOfWeekCorrected(d.(day := 1)) != 3
    requires var n := Jalali.MonthDays(d.year, d.month);
      Conversion.JalaliInRange(d.year, d.month, n) && DayOfWeekCorrected(d.(day := n)) != 3
    ensures DaysList(d) == DaysListCorrected(d)
  {
    var n := Jalali.MonthDays(d.year, d.month);
    assert |DatePickerUtils.MonthLength(d.month, d.year)| == n;
    MonthInRange(d.year, d.month, 1);
    MonthInRange(d.year, d.month, n);
    DayOfWeekAsWritten(d.(day := 1));
    DayOfWeekAsWritten(d.(day := n));
  }

  /** Mordad 1403 opens on a Monday (Gregorian 2024-07-22) and closes on a Wednesday
      (2024-08-21): `dayOfWeek` reports the Monday as column 2. */
  lemma Mordad1403Weekdays()
    ensures Conversion.JalaliInRange(1403, 5, 1) && Conversion.JalaliInRange(1403, 5, 31)
    ensures DayOfWeekCorrected(SimpleDate(1403, 5, 1, DefaultTime)) == 3
    ensures DayOfWeek(SimpleDate(1403, 5, 1, DefaultTime)) == 2
    ensures DayOfWeek(SimpleDate(1403, 5, 31, DefaultTime)) == 5
  {
    MonthInRange(1403, 5, 1);
    MonthInRange(1403, 5, 31);
    assert Jalali.DayNumber(1403, 5, 1) == 1095122;
    assert Jalali.DayNumber(1403, 5, 31) == 1095152;
    DayOfWeekAsWritten(SimpleDate(1403, 5, 1, DefaultTime));
    DayOfWeekAsWritten(SimpleDate(1403, 5, 31, DefaultTime));
  }

  /** The grid as written for Mordad 1403 puts day 1 in the Sunday column and has 34
      cells, not whole weeks; the corrected grid puts day 1 in the Monday column. */
  lemma Mordad1403Grid()
    ensures var d := SimpleDate(1403, 5, 1, DefaultTime);
      var cells := DaysList(d);
      |cells| == 34 && cells[0] == Blank && cells[1] == DayCell(1) &&
      DaysListCorrected(d)[2] == DayCell(1)
  {
    var d := SimpleDate(1403, 5, 1, DefaultTime);
    Mordad1403Weekdays();
    assert d.(day := 1) == d;
    assert |DatePickerUtils.MonthLength(5, 1403)| == 31;
    assert DaysList(d) == Grid(1, 31, 2);
  }
}
