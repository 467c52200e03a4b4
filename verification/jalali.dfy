/** The Jalali (Persian solar Hijri) calendar as the conversion engine reckons it: an
    arithmetic calendar of 33-year cycles of 12053 days, each made of eight four-year blocks
    of 1461 days (a leap year first) and one closing common year. Jalali year jy is year
    (jy + 1595) mod 33 of its cycle. */
module Jalali {

  /** Shift from a Jalali year to its index in the engine's cycle count. */
  const CycleOrigin: int := 1595

  /** Position 0 .. 32 of Jalali year jy inside its 33-year cycle. */
  function CycleYear(jy: int): int {
    (jy + CycleOrigin) % 33
  }

  /** The engine's leap rule: cycle positions 0, 4, .., 28 are leap. */
  predicate IsLeapYear(jy: int) {
    CycleYear(jy) % 4 == 0 && CycleYear(jy) < 32
  }

  function YearLength(jy: int): int {
    if IsLeapYear(jy) then 366 else 365
  }

  /** Six 31-day months, five 30-day months, and Esfand with 29 days or 30 in a leap year. */
  function MonthDays(jy: int, jm: int): int
    requires 1 <= jm <= 12
  {
    if jm <= 6 then 31 else if jm <= 11 then 30 else if IsLeapYear(jy) then 30 else 29
  }

  predicate ValidDate(jy: int, jm: int, jd: int) {
    1 <= jm <= 12 && 1 <= jd <= MonthDays(jy, jm)
  }

  /** Days in the cycle-counted years 0 .. k-1: 365 a year, 8 leap days per whole cycle and
      one for each leap position passed in the current cycle. */
  function DaysBeforeCycleYear(k: int): int {
    365 * k + (k / 33) * 8 + ((k % 33) + 3) / 4
  }

  /** Days before month jm of a year, as the engine computes them (for any jm). */
  function DaysBeforeMonth(jm: int): int {
    if jm < 7 then (jm - 1) * 31 else (jm - 7) * 30 + 186
  }

  /** The engine's day number of a Jalali triple (for any triple, valid or not). */
  function DayNumber(jy: int, jm: int, jd: int): int {
    DaysBeforeCycleYear(jy + CycleOrigin) + DaysBeforeMonth(jm) + jd
  }

  /** The month offsets are the running sums of the month lengths, and the twelve months
      fill the year. */
  lemma MonthOffsets(jy: int, jm: int)
    requires 1 <= jm <= 12
    ensures DaysBeforeMonth(1) == 0
    ensures DaysBeforeMonth(jm) + MonthDays(jy, jm) == if jm < 12 then DaysBeforeMonth(jm + 1) else YearLength(jy)
  {
  }

  lemma YearStep(jy: int)
    ensures DayNumber(jy + 1, 1, 1) == DayNumber(jy, 1, 1) + YearLength(jy)
  {
    var k := jy + CycleOrigin;
    CycleStep(k);
  }

  lemma CycleStep(k: int)
    ensures DaysBeforeCycleYear(k + 1) == DaysBeforeCycleYear(k) + (if (k % 33) % 4 == 0 && k % 33 < 32 then 366 else 365)
  {
    if k % 33 == 32 {
      assert (k + 1) / 33 == k / 33 + 1 && (k + 1) % 33 == 0;
    } else {
      assert (k + 1) / 33 == k / 33 && (k + 1) % 33 == k % 33 + 1;
    }
  }

  /** Year 33Q + 4b + j of the cycle count: cycle Q, four-year block b (block 8 is the
      closing common year), year j of the block. */
  lemma CycleYearDays(cq: int, b: int, j: int)
    requires 0 <= b <= 8 && 0 <= j < 4 && 4 * b + j < 33
    ensures DaysBeforeCycleYear(33 * cq + 4 * b + j) == 12053 * cq + 1461 * b + 365 * j + (if j > 0 then 1 else 0)
    ensures IsLeapYear(33 * cq + 4 * b + j - CycleOrigin) <==> j == 0 && b < 8
  {
    var k := 33 * cq + 4 * b + j;
    assert k / 33 == cq && k % 33 == 4 * b + j;
    assert (4 * b + j + 3) / 4 == b + (if j > 0 then 1 else 0);
  }

  /** Splits a zero-based day count z >= 0 into a Jalali year and a zero-based day of that
      year, the way gregorianToJalali does: whole cycles, whole blocks, then the leap year
      of 366 days that opens a block followed by common years. */
  function YearAndDay(z: int): (res: (int, int))
    requires z >= 0
    ensures res.0 + CycleOrigin >= 0 && 0 <= res.1 < YearLength(res.0)
    ensures DayNumber(res.0, 1, 1) == z + 1 - res.1
  {
    var cq := z / 12053;
    var w := z % 12053;
    var b := w / 1461;
    var r4 := w % 1461;
    var j := if r4 > 365 then (r4 - 1) / 365 else 0;
    var d := if r4 > 365 then (r4 - 1) % 365 else r4;
    CycleYearDays(cq, b, j);
    (33 * cq + 4 * b + j - CycleOrigin, d)
  }

  /** Month and day of a zero-based day of the year, as gregorianToJalali computes them. */
  function MonthOfDay(jy: int, d: int): (res: (int, int))
    requires 0 <= d < YearLength(jy)
    ensures ValidDate(jy, res.0, res.1)
    ensures DaysBeforeMonth(res.0) + res.1 == d + 1
  {
    if d < 186 then (1 + d / 31, 1 + d % 31)
    else (7 + (d - 186) / 30, 1 + (d - 186) % 30)
  }

  /** The valid Jalali date with day number z + 1, for z >= 0. */
  function FromDays(z: int): (r: (int, int, int))
    requires z >= 0
    ensures ValidDate(r.0, r.1, r.2) && r.0 + CycleOrigin >= 0
    ensures DayNumber(r.0, r.1, r.2) == z + 1
  {
    var yd := YearAndDay(z);
    var md := MonthOfDay(yd.0, yd.1);
    (yd.0, md.0, md.1)
  }

  lemma {:induction false} YearStartMonotone(a: int, b: int)
    requires a <= b
    ensures DayNumber(a, 1, 1) + 365 * (b - a) <= DayNumber(b, 1, 1)
    decreases b - a
  {
    if a < b {
      YearStartMonotone(a, b - 1);
      YearStep(b - 1);
    }
  }

  /** A valid date lies inside its year. */
  lemma DayNumberInYear(jy: int, jm: int, jd: int)
    requires ValidDate(jy, jm, jd)
    ensures DayNumber(jy, 1, 1) <= DayNumber(jy, jm, jd) < DayNumber(jy + 1, 1, 1)
  {
    YearStep(jy);
  }

  /** Distinct valid Jalali dates have distinct day numbers. */
  lemma DayNumberInjective(y1: int, m1: int, d1: int, y2: int, m2: int, d2: int)
    requires ValidDate(y1, m1, d1) && ValidDate(y2, m2, d2)
    requires DayNumber(y1, m1, d1) == DayNumber(y2, m2, d2)
    ensures y1 == y2 && m1 == m2 && d1 == d2
  {
    DayNumberInYear(y1, m1, d1);
    DayNumberInYear(y2, m2, d2);
    if y1 < y2 {
      YearStartMonotone(y1 + 1, y2);
      assert false;
    } else if y2 < y1 {
      YearStartMonotone(y2 + 1, y1);
      assert false;
    }
  }

  /** Decoding the day number of a valid date with a non-negative cycle count gives the
      date back. */
  lemma FromDaysInverse(jy: int, jm: int, jd: int)
    requires ValidDate(jy, jm, jd) && jy + CycleOrigin >= 0
    ensures DayNumber(jy, jm, jd) >= 1
    ensures FromDays(DayNumber(jy, jm, jd) - 1) == (jy, jm, jd)
  {
    YearStartMonotone(-CycleOrigin, jy);
    var r := FromDays(DayNumber(jy, jm, jd) - 1);
    DayNumberInjective(r.0, r.1, r.2, jy, jm, jd);
  }
}
