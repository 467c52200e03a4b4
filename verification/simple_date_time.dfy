/** The `SimpleDate` / `SimpleTime` value model shared by the pickers: a date (Jalali or
    Gregorian, depending on where it is used) with an optional time of day, the clock-period
    rule applied when a time is read from the clock, the conversion of a Jalali date to a
    Gregorian one, seconds since the Unix epoch, and the text form.

    The clock, the time zone and the 24-hour setting are read by the original code; here
    they are parameters. */
module SimpleDateTime {
  import opened Wrappers
  import opened DecimalText
  import Gregorian
  import Jalali
  import Conversion
  import DatePickerUtils

  datatype ClockPeriod = Am | Pm

  /** `hour` is stored as read: 0 .. 23 from the clock, even with a clock period. */
  datatype SimpleTime = SimpleTime(hour: int, minute: int, clockPeriod: Option<ClockPeriod>)

  datatype SimpleDate = SimpleDate(year: int, month: int, day: int, time: SimpleTime)

  /** `SimpleTime()`: every parameter at its default. */
  const DefaultTime: SimpleTime := SimpleTime(0, 0, None)

  /** The clock period `now`, `from` and the time picker attach to an hour of the clock. */
  function PeriodFor(hour: int, is24Hour: bool): (p: Option<ClockPeriod>)
    ensures p == None <==> is24Hour
    ensures !is24Hour ==> (p == Some(Am) <==> hour < 12) && (p == Some(Pm) <==> hour >= 12)
  {
    if is24Hour then None else if hour < 12 then Some(Am) else Some(Pm)
  }

  /** The hour of the day a time stands for once its period is applied: a Pm time counts
      twelve hours on from its stored hour, Am and no period count the hour as it is. */
  function HourOfDay(t: SimpleTime): int {
    if t.clockPeriod == Some(Pm) then t.hour + 12 else t.hour
  }

  /** `SimpleTime.now(context)` for the clock reading clockHour:clockMinute. The stored hour
      is the clock's 0 .. 23 hour in both modes, so in 12-hour mode every afternoon time
      stands for an hour of day twelve hours later than the clock's. */
  function TimeNow(clockHour: int, clockMinute: int, is24Hour: bool): (t: SimpleTime)
    ensures t.hour == clockHour && t.minute == clockMinute
    ensures (t.clockPeriod == None) == is24Hour
    ensures HourOfDay(t) == if !is24Hour && clockHour >= 12 then clockHour + 12 else clockHour
  {
    SimpleTime(clockHour, clockMinute, PeriodFor(clockHour, is24Hour))
  }

  /** `SimpleDate.now(context)`: today's date converted to Jalali, with the clock's time. */
  function Now(today: (int, int, int), clockHour: int, clockMinute: int, is24Hour: bool): (d: SimpleDate)
    requires Gregorian.ValidDate(today.0, today.1, today.2) && today.0 >= 0
    ensures Jalali.ValidDate(d.year, d.month, d.day)
    ensures Jalali.DayNumber(d.year, d.month, d.day)
      == Gregorian.DayNumber(today.0, today.1, today.2) + Conversion.SameDayShift
    ensures d.time == TimeNow(clockHour, clockMinute, is24Hour)
  {
    var j := DatePickerUtils.CurrentJalaliDate(today);
    SimpleDate(j.0, j.1, j.2, TimeNow(clockHour, clockMinute, is24Hour))
  }

  /** The local epoch day of an instant given in milliseconds since the epoch, in a zone
      whose offset from UTC at that instant is offsetSeconds: the day whose 86400 seconds
      contain the instant's local second. */
  function LocalEpochDay(timestampMillis: int, offsetSeconds: int): (e: int)
    ensures 86400 * e <= timestampMillis / 1000 + offsetSeconds < 86400 * e + 86400
  {
    (timestampMillis / 1000 + offsetSeconds) / 86400
  }

  /** `SimpleDate.from(timestamp, context)`: the Jalali date of the timestamp's local day,
      but the time of the clock at the moment of the call, not the timestamp's. */
  function From(timestampMillis: int, offsetSeconds: int, clockHour: int, clockMinute: int,
                is24Hour: bool): (d: SimpleDate)
    requires LocalEpochDay(timestampMillis, offsetSeconds) + Gregorian.UnixEpochDayNumber >= 1
    ensures Jalali.ValidDate(d.year, d.month, d.day)
    ensures Jalali.DayNumber(d.year, d.month, d.day)
      == Gregorian.UnixEpochDayNumber + LocalEpochDay(timestampMillis, offsetSeconds) + Conversion.SameDayShift
    ensures d.time == TimeNow(clockHour, clockMinute, is24Hour)
  {
    var g := Gregorian.FromEpochDay(LocalEpochDay(timestampMillis, offsetSeconds));
    Conversion.GregorianDateInRange(g.0, g.1, g.2);
    var j := Conversion.ToJalali(g.0, g.1, g.2);
    SimpleDate(j.0, j.1, j.2, TimeNow(clockHour, clockMinute, is24Hour))
  }

  /** `totGregorianDate()`: the Gregorian date of the same day, the time kept. */
  function ToGregorianDate(d: SimpleDate): (g: SimpleDate)
    requires Conversion.JalaliInRange(d.year, d.month, d.day)
    ensures Gregorian.ValidDate(g.year, g.month, g.day)
    ensures Gregorian.DayNumber(g.year, g.month, g.day)
      == Jalali.DayNumber(d.year, d.month, d.day) - Conversion.SameDayShift
    ensures g.time == d.time
  {
    var r := Conversion.ToGregorian(d.year, d.month, d.day);
    SimpleDate(r.0, r.1, r.2, d.time)
  }

  /** The years `LocalDate.of` accepts. */
  predicate LocalDateYear(y: int) {
    -999999999 <= y <= 999999999
  }

  /** `toTimestampSeconds()` of a Gregorian date: seconds from 1970-01-01T00:00 to the
      date's time of day, the period applied by `HourOfDay`. For a time of day inside the
      day, the whole days are the date's epoch day and the rest is the time. */
  function ToTimestampSeconds(d: SimpleDate): (s: int)
    requires Gregorian.ValidDate(d.year, d.month, d.day) && LocalDateYear(d.year)
    ensures 0 <= HourOfDay(d.time) * 60 + d.time.minute < 1440 ==>
      s / 86400 == Gregorian.EpochDay(d.year, d.month, d.day) &&
      s % 86400 == HourOfDay(d.time) * 3600 + d.time.minute * 60
  {
    Gregorian.EpochDay(d.year, d.month, d.day) * 86400 + HourOfDay(d.time) * 3600 + d.time.minute * 60
  }

  /** A Pm time is exactly twelve hours after the same Am time. */
  lemma PmIsTwelveHoursAfterAm(y: int, m: int, d: int, hour: int, minute: int)
    requires Gregorian.ValidDate(y, m, d) && LocalDateYear(y)
    ensures ToTimestampSeconds(SimpleDate(y, m, d, SimpleTime(hour, minute, Some(Pm))))
      == ToTimestampSeconds(SimpleDate(y, m, d, SimpleTime(hour, minute, Some(Am)))) + 43200
  {
  }

  /** Am and no period read the hour alike. */
  lemma AmIsTwentyFourHour(y: int, m: int, d: int, hour: int, minute: int)
    requires Gregorian.ValidDate(y, m, d) && LocalDateYear(y)
    ensures ToTimestampSeconds(SimpleDate(y, m, d, SimpleTime(hour, minute, Some(Am))))
      == ToTimestampSeconds(SimpleDate(y, m, d, SimpleTime(hour, minute, None)))
  {
  }

  /** One more minute is 60 seconds more; one more hour, in the same period, 3600. */
  lemma TimestampSteps(d: SimpleDate)
    requires Gregorian.ValidDate(d.year, d.month, d.day) && LocalDateYear(d.year)
    ensures ToTimestampSeconds(d.(time := d.time.(minute := d.time.minute + 1))) == ToTimestampSeconds(d) + 60
    ensures ToTimestampSeconds(d.(time := d.time.(hour := d.time.hour + 1))) == ToTimestampSeconds(d) + 3600
  {
  }

  /** 1970-01-01 at 00:00 is second 0, and the same time on the next calendar day is 86400
      seconds later. */
  lemma TimestampDays(d: SimpleDate)
    requires Gregorian.ValidDate(d.year, d.month, d.day) && LocalDateYear(d.year)
    requires LocalDateYear(Gregorian.NextDay(d.year, d.month, d.day).0)
    ensures ToTimestampSeconds(SimpleDate(1970, 1, 1, DefaultTime)) == 0
    ensures var n := Gregorian.NextDay(d.year, d.month, d.day);
      ToTimestampSeconds(SimpleDate(n.0, n.1, n.2, d.time)) == ToTimestampSeconds(d) + 86400
  {
    Gregorian.EpochDayAnchor(d.year, d.month, d.day);
  }

  /** 12 is not read as 0: 12 Am is noon and 12 Pm is the next day's midnight. */
  lemma TwelveIsNotNormalised(y: int, m: int, d: int)
    requires Gregorian.ValidDate(y, m, d) && LocalDateYear(y)
    requires LocalDateYear(Gregorian.NextDay(y, m, d).0)
    ensures ToTimestampSeconds(SimpleDate(y, m, d, SimpleTime(12, 0, Some(Am))))
      == ToTimestampSeconds(SimpleDate(y, m, d, SimpleTime(12, 0, None)))
    ensures var n := Gregorian.NextDay(y, m, d);
      ToTimestampSeconds(SimpleDate(y, m, d, SimpleTime(12, 0, Some(Pm))))
      == ToTimestampSeconds(SimpleDate(n.0, n.1, n.2, DefaultTime))
  {
    Gregorian.EpochDayAnchor(y, m, d);
  }

  /* ---------------- Weekday ---------------- */

  /** The days `toCalendar()` moves past the date: the calendar is lenient, so a time of day
      of 24:00 or later runs into the following days (its seconds, left from the moment of
      the call, never reach a whole minute and change nothing). */
  function CalendarDayCarry(t: SimpleTime): (carry: int)
    ensures 0 <= HourOfDay(t) * 60 + t.minute < 1440 ==> carry == 0
    ensures 1440 <= HourOfDay(t) * 60 + t.minute < 2880 ==> carry == 1
  {
    (HourOfDay(t) * 60 + t.minute) / 1440
  }

  /** `toCalendar().get(Calendar.DAY_OF_WEEK)` of a Gregorian date (Sunday = 1 .. Saturday
      = 7). With a period the calendar adds the period's twelve hours to the stored hour;
      without one it takes the hour as the hour of day; both come to `HourOfDay`. */
  function CalendarDayOfWeek(g: SimpleDate): (w: int)
    requires 1 <= g.month <= 12
    ensures 1 <= w <= 7
    ensures w == (Gregorian.EpochDay(g.year, g.month, g.day) + CalendarDayCarry(g.time) + 4) % 7 + 1
  {
    Gregorian.CalendarWeekday(Gregorian.EpochDay(g.year, g.month, g.day) + CalendarDayCarry(g.time))
  }

  /** `dayOfWeek()` of a Jalali date: the column of its weekday in the Saturday-first grid,
      through `totGregorianDate().toCalendar()`. Monday falls in column 2, so column 3 is
      never returned. */
  function DayOfWeek(d: SimpleDate): (column: int)
    requires Conversion.JalaliInRange(d.year, d.month, d.day)
    ensures 1 <= column <= 7 && column != 3
  {
    DatePickerUtils.WeekdayIndex(CalendarDayOfWeek(ToGregorianDate(d)))
  }

  /** The column, in the Saturday-first week, of the day with Jalali day number j. */
  function WeekColumn(j: int): (column: int)
    ensures 1 <= column <= 7
  {
    (j + 2) % 7 + 1
  }

  /** Each day takes the next column, Friday's column 7 wrapping round to Saturday's 1. */
  lemma WeekColumnStep(j: int)
    ensures WeekColumn(j + 1) == WeekColumn(j) % 7 + 1
  {
  }

  /** The weekday column of a Jalali date, read from its day number alone: Saturday-first,
      Monday in column 3, whatever the time. */
  function DayOfWeekCorrected(d: SimpleDate): (column: int)
    ensures 1 <= column <= 7
  {
    WeekColumn(Jalali.DayNumber(d.year, d.month, d.day))
  }

  /** The corrected column is the column of the weekday `Calendar` gives the Gregorian date
      of the same day: the Jalali day numbers run 1075196 ahead of the epoch days. */
  lemma DayOfWeekCorrectedIsCalendarWeekday(d: SimpleDate)
    requires Conversion.JalaliInRange(d.year, d.month, d.day)
    ensures var g := ToGregorianDate(d);
      DayOfWeekCorrected(d) == DatePickerUtils.WeekdayIndexCorrected(
        Gregorian.CalendarWeekday(Gregorian.EpochDay(g.year, g.month, g.day)))
  {
    var g := ToGregorianDate(d);
    var e := Gregorian.EpochDay(g.year, g.month, g.day);
    ColumnOfEpochDay(e, Jalali.DayNumber(d.year, d.month, d.day));
  }

  lemma ColumnOfEpochDay(e: int, j: int)
    requires j == e + Gregorian.UnixEpochDayNumber + Conversion.SameDayShift
    ensures WeekColumn(j) == DatePickerUtils.WeekdayIndexCorrected(Gregorian.CalendarWeekday(e))
  {
    assert j + 2 == (e + 5) + 7 * 153599;
    assert (j + 2) % 7 == (e + 5) % 7;
    if (e + 4) % 7 == 6 {
      assert (e + 5) % 7 == 0;
    } else {
      assert (e + 5) % 7 == (e + 4) % 7 + 1;
    }
  }

  /** With a time inside its day, `dayOfWeek` is the corrected column except that Monday
      (column 3) is reported as 2. */
  lemma DayOfWeekAsWritten(d: SimpleDate)
    requires Conversion.JalaliInRange(d.year, d.month, d.day)
    requires 0 <= HourOfDay(d.time) * 60 + d.time.minute < 1440
    ensures DayOfWeekCorrected(d) != 3 ==> DayOfWeek(d) == DayOfWeekCorrected(d)
    ensures DayOfWeekCorrected(d) == 3 ==> DayOfWeek(d) == 2
  {
    var g := ToGregorianDate(d);
    var e := Gregorian.EpochDay(g.year, g.month, g.day);
    var w := Gregorian.CalendarWeekday(e);
    var column := DayOfWeek(d);
    var corrected := DayOfWeekCorrected(d);
    assert column == DatePickerUtils.WeekdayIndex(w) by {
      assert CalendarDayCarry(g.time) == 0;
      assert CalendarDayOfWeek(g) == Gregorian.CalendarWeekday(e + 0);
    }
    assert corrected == DatePickerUtils.WeekdayIndexCorrected(w) by {
      DayOfWeekCorrectedIsCalendarWeekday(d);
    }
    DatePickerUtils.MondayColumn(w, column, corrected);
  }

  /** In 12-hour mode an afternoon clock reading is stored with its 0 .. 23 hour and a Pm
      period, so the time stands for twelve hours later than the clock: the timestamp is
      12 hours late and `toCalendar` lands on the next day. */
  lemma AfternoonIn12HourMode(g: SimpleDate, h: int, m: int)
    requires Gregorian.ValidDate(g.year, g.month, g.day) && LocalDateYear(g.year)
    requires 12 <= h < 24 && 0 <= m < 60
    ensures ToTimestampSeconds(g.(time := TimeNow(h, m, false)))
      == ToTimestampSeconds(g.(time := TimeNow(h, m, true))) + 43200
    ensures CalendarDayOfWeek(g.(time := TimeNow(h, m, false)))
      == CalendarDayOfWeek(g.(time := TimeNow(h, m, true))) % 7 + 1
  {
    var e := Gregorian.EpochDay(g.year, g.month, g.day);
    assert CalendarDayCarry(TimeNow(h, m, false)) == 1;
    assert CalendarDayCarry(TimeNow(h, m, true)) == 0;
    Gregorian.CalendarWeekdayStep(e);
  }

  /** The time of a clock reading with the hour as its doc comment describes it: 0 .. 23
      in 24-hour mode, 1 .. 12 beside the period in 12-hour mode. */
  function TimeNowCorrected(clockHour: int, clockMinute: int, is24Hour: bool): (t: SimpleTime)
    requires 0 <= clockHour < 24
    ensures t.minute == clockMinute && t.clockPeriod == PeriodFor(clockHour, is24Hour)
    ensures is24Hour ==> t.hour == clockHour
    ensures !is24Hour ==> 1 <= t.hour <= 12 && t.hour % 12 == clockHour % 12
  {
    var hour := if is24Hour then clockHour else if clockHour % 12 == 0 then 12 else clockHour % 12;
    SimpleTime(hour, clockMinute, PeriodFor(clockHour, is24Hour))
  }

  /** The hour of day of a 12-hour time read with 12 as 0: 12 Am is midnight, 12 Pm noon. */
  function HourOfDayCorrected(t: SimpleTime): int {
    match t.clockPeriod
    case None => t.hour
    case Some(Am) => t.hour % 12
    case Some(Pm) => t.hour % 12 + 12
  }

  /** `toTimestampSeconds` with the corrected hour of day. */
  function ToTimestampSecondsCorrected(d: SimpleDate): (s: int)
    requires Gregorian.ValidDate(d.year, d.month, d.day) && LocalDateYear(d.year)
    ensures 0 <= HourOfDayCorrected(d.time) * 60 + d.time.minute < 1440 ==>
      s / 86400 == Gregorian.EpochDay(d.year, d.month, d.day) &&
      s % 86400 == HourOfDayCorrected(d.time) * 3600 + d.time.minute * 60
  {
    Gregorian.EpochDay(d.year, d.month, d.day) * 86400 + HourOfDayCorrected(d.time) * 3600 + d.time.minute * 60
  }

  /** With the corrected hour the clock's time means the same in both modes: its hour of
      day is the clock's hour, the timestamp does not depend on the mode, and the time
      stays inside its day, so `toCalendar` keeps the date. */
  lemma TimeNowCorrectedKeepsTheHour(g: SimpleDate, h: int, m: int, is24Hour: bool)
    requires Gregorian.ValidDate(g.year, g.month, g.day) && LocalDateYear(g.year)
    requires 0 <= h < 24 && 0 <= m < 60
    ensures HourOfDayCorrected(TimeNowCorrected(h, m, is24Hour)) == h
    ensures ToTimestampSecondsCorrected(g.(time := TimeNowCorrected(h, m, is24Hour)))
      == ToTimestampSecondsCorrected(g.(time := TimeNowCorrected(h, m, true)))
      == ToTimestampSeconds(g.(time := TimeNow(h, m, true)))
  {
  }

  function PeriodString(p: Option<ClockPeriod>): string {
    match p
    case None => ""
    case Some(Am) => "Am"
    case Some(Pm) => "Pm"
  }

  /** The time part of the text form: "hour:minute period". */
  function TimeString(t: SimpleTime): string {
    DecimalString(t.hour) + [':'] + (DecimalString(t.minute) + [' '] + PeriodString(t.clockPeriod))
  }

  /** `toString()`: "year-month-day hour:minute period", where no period prints as nothing
      and leaves the text ending in the space before it. */
  function ToString(d: SimpleDate): (s: string)
    ensures |s| > 0 && (s[|s| - 1] == ' ' <==> d.time.clockPeriod == None)
  {
    DecimalString(d.year) + ['-'] + (DecimalString(d.month) + ['-'] + (DecimalString(d.day) + [' '] + TimeString(d.time)))
  }

  /** A number followed by the separator sep. */
  function ReadField(s: string, sep: char): Option<(int, string)> {
    match ReadInt(s)
    case None => None
    case Some((n, rest)) => if |rest| > 0 && rest[0] == sep then Some((n, rest[1..])) else None
  }

  function ParsePeriod(s: string): Option<Option<ClockPeriod>> {
    if s == "" then Some(None)
    else if s == "Am" then Some(Some(Am))
    else if s == "Pm" then Some(Some(Pm))
    else None
  }

  function ParseTime(s: string): Option<SimpleTime> {
    match ReadField(s, ':')
    case None => None
    case Some((hour, s1)) =>
      match ReadField(s1, ' ')
      case None => None
      case Some((minute, s2)) =>
        match ParsePeriod(s2)
        case None => None
        case Some(p) => Some(SimpleTime(hour, minute, p))
  }

  /** Reads the text form back. */
  function Parse(s: string): Option<SimpleDate> {
    match ReadField(s, '-')
    case None => None
    case Some((year, s1)) =>
      match ReadField(s1, '-')
      case None => None
      case Some((month, s2)) =>
        match ReadField(s2, ' ')
        case None => None
        case Some((day, s3)) =>
          match ParseTime(s3)
          case None => None
          case Some(t) => Some(SimpleDate(year, month, day, t))
  }

  lemma ReadFieldAfterDecimal(n: int, sep: char, rest: string)
    requires !IsDigit(sep)
    ensures ReadField(DecimalString(n) + [sep] + rest, sep) == Some((n, rest))
  {
    assert DecimalString(n) + [sep] + rest == DecimalString(n) + ([sep] + rest);
    ReadDecimalString(n, [sep] + rest);
  }

  lemma ParseTimeString(t: SimpleTime)
    ensures ParseTime(TimeString(t)) == Some(t)
  {
    var p := PeriodString(t.clockPeriod);
    var s1 := DecimalString(t.minute) + [' '] + p;
    ReadFieldAfterDecimal(t.hour, ':', s1);
    ReadFieldAfterDecimal(t.minute, ' ', p);
    ParsePeriodString(t.clockPeriod);
    assert ReadField(TimeString(t), ':') == Some((t.hour, s1));
  }

  lemma ParsePeriodString(p: Option<ClockPeriod>)
    ensures ParsePeriod(PeriodString(p)) == Some(p)
  {
  }

  /** The text form loses nothing: reading it back gives the date and time. */
  lemma ParseToString(d: SimpleDate)
    ensures Parse(ToString(d)) == Some(d)
  {
    var s3 := TimeString(d.time);
    var s2 := DecimalString(d.day) + [' '] + s3;
    var s1 := DecimalString(d.month) + ['-'] + s2;
    ReadFieldAfterDecimal(d.year, '-', s1);
    ReadFieldAfterDecimal(d.month, '-', s2);
    ReadFieldAfterDecimal(d.day, ' ', s3);
    ParseTimeString(d.time);
  }
}
