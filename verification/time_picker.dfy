/** The state behind the `TimePicker` wheels: the time chosen (a `SimpleTime`), opened at
    the clock's time and changed by the minute, hour and period wheels. The hour wheel
    shows `initHours` (0 .. 23, or 1 .. 12 in 12-hour mode), the minute wheel 0 .. 59 and
    the period wheel Am then Pm. */
module TimePicker {
  import opened Wrappers
  import opened SimpleDateTime
  import KotlinInt
  import DatePickerUtils

  /** The position the hour wheel opens at for the clock's hour: the hour itself in 24-hour
      mode; in 12-hour mode the position of hour % 12, shown as 12 for 0. */
  function InitialHourIndex(clockHour: int, is24Hour: bool): (index: int)
    ensures 0 <= clockHour < 24 ==> 0 <= index < (if is24Hour then 24 else 12)
    ensures 0 <= clockHour < 24 ==>
      DatePickerUtils.HourLabel(index, is24Hour) ==
        if is24Hour then clockHour else if clockHour % 12 == 0 then 12 else clockHour % 12
  {
    if is24Hour then clockHour
    else if clockHour == 0 || clockHour == 12 then 11
    else KotlinInt.TMod(clockHour, 12) - 1
  }

  /** The position the period wheel opens at: Am first. */
  function InitialPeriodIndex(t: SimpleTime): (index: int)
    ensures index == 0 <==> t.clockPeriod == Some(Am)
    ensures index == 1 <==> t.clockPeriod != Some(Am)
  {
    if t.clockPeriod == Some(Am) then 0 else 1
  }

  /** The time after the hour wheel selects the hour `value`: in 12-hour mode the period
      follows the value, Am below 12. */
  function WithHour(t: SimpleTime, value: int, is24Hour: bool): (r: SimpleTime)
    ensures r.hour == value && r.minute == t.minute
    ensures (r.clockPeriod == None) == is24Hour
    ensures !is24Hour ==> (r.clockPeriod == Some(Am) <==> value < 12)
  {
    t.(hour := value, clockPeriod := PeriodFor(value, is24Hour))
  }

  /** In 12-hour mode the hour wheel decides the period on its own: 1 .. 11 always come out
      Am and 12 always Pm, whatever the period wheel said. So choosing again the hour the
      wheel opened at keeps the period for the hours 1 .. 12 only. */
  lemma HourWheelOverridesPeriod(t: SimpleTime, h: int, m: int)
    requires 0 <= h < 24
    ensures forall index :: 0 <= index < 11 ==>
      WithHour(t, DatePickerUtils.HourLabel(index, false), false).clockPeriod == Some(Am)
    ensures WithHour(t, DatePickerUtils.HourLabel(11, false), false).clockPeriod == Some(Pm)
    ensures var first := TimeNow(h, m, false);
      var again := WithHour(first, DatePickerUtils.HourLabel(InitialHourIndex(h, false), false), false);
      again.clockPeriod == first.clockPeriod <==> 1 <= h <= 12
  {
  }

  /** The state of the wheels. */
  class TimePickerState {
    const is24Hour: bool
    var simpleTime: SimpleTime

    /** Opens at the clock's time, in the device's clock mode. */
    constructor (clockHour: int, clockMinute: int, is24Hour: bool)
      ensures this.is24Hour == is24Hour
      ensures simpleTime == TimeNow(clockHour, clockMinute, is24Hour)
    {
      this.is24Hour := is24Hour;
      simpleTime := SimpleTime(
        clockHour,
        clockMinute,
        if is24Hour then None else if clockHour < 12 then Some(Am) else Some(Pm));
    }

    /** The minute wheel selects position index (showing minute index). */
    method SelectMinute(index: int)
      modifies this
      ensures simpleTime == old(simpleTime).(minute := index)
    {
      simpleTime := simpleTime.(minute := index);
    }

    /** The hour wheel selects position index, of the hours `initHours` lists. */
    method SelectHour(index: int)
      modifies this
      ensures simpleTime == WithHour(old(simpleTime), DatePickerUtils.HourLabel(index, is24Hour), is24Hour)
    {
      var value := if is24Hour then index else index + 1;
      simpleTime := simpleTime.(
        hour := value,
        clockPeriod := if is24Hour then None else if value < 12 then Some(Am) else Some(Pm));
    }

    /** The period wheel, shown in 12-hour mode only, selects position index: Am at 0, Pm
        otherwise. */
    method SelectPeriod(index: int)
      requires !is24Hour
      modifies this
      ensures simpleTime == old(simpleTime).(clockPeriod := if index == 0 then Some(Am) else Some(Pm))
    {
      simpleTime := simpleTime.(clockPeriod := if index == 0 then Some(Am) else Some(Pm));
    }
  }
}
