/** The Jalali <-> Gregorian conversion engine of `DatePickerUtils`:
    `gregorianToJalali` and `jalaliToGregorian`, step by step with Kotlin's truncating
    division, each proved against the calendars' day numbers; and the functional forms used
    by the rest of the model, with the round trips between them. */
module Conversion {
  import opened KotlinInt
  import Gregorian
  import Jalali

  /** A Jalali date and a Gregorian date name the same day exactly when their day numbers
      differ by this much. */
  const SameDayShift: int := 355667

  /** `g_d_m`: days before each Gregorian month of a common year. */
  const GregorianMonthStarts: seq<int> := [0, 31, 59, 90, 120, 151, 181, 212, 243, 273, 304, 334]

  /** Inputs on which every dividend in gregorianToJalali is non-negative, so that Kotlin's
      truncating division is Dafny's; `gm` must index `g_d_m`. */
  predicate GregorianInRange(gy: int, gm: int, gd: int) {
    1 <= gm <= 12 && gy >= 0 && Gregorian.DayNumber(gy, gm, gd) + SameDayShift - 1 >= 0
  }

  /** Inputs on which every dividend in jalaliToGregorian is non-negative. */
  predicate JalaliInRange(jy: int, jm: int, jd: int) {
    jy + Jalali.CycleOrigin >= 0 && Jalali.DayNumber(jy, jm, jd) - SameDayShift - 1 >= 0
  }

  /** The day count gregorianToJalali builds from `g_d_m` and the leap years before the
      March that follows is the calendar's own day number (plus the engine's offset). */
  lemma EngineGregorianDays(gy: int, gm: int, gd: int)
    requires 1 <= gm <= 12 && gy >= 0
    ensures var gy2 := if gm > 2 then gy + 1 else gy;
      365 * gy + (gy2 + 3) / 4 - (gy2 + 99) / 100 + (gy2 + 399) / 400 + gd + GregorianMonthStarts[gm - 1]
      == Gregorian.DayNumber(gy, gm, gd)
  {
    Gregorian.DaysBeforeMonthTable(gy, gm);
    if gm > 2 {
      Gregorian.YearStep(gy);
    }
  }

  /** gregorianToJalali as a function: the Jalali date with the same day. */
  function ToJalali(gy: int, gm: int, gd: int): (r: (int, int, int))
    requires GregorianInRange(gy, gm, gd)
    ensures Jalali.ValidDate(r.0, r.1, r.2)
    ensures Jalali.DayNumber(r.0, r.1, r.2) == Gregorian.DayNumber(gy, gm, gd) + SameDayShift
  {
    Jalali.FromDays(Gregorian.DayNumber(gy, gm, gd) + SameDayShift - 1)
  }

  /** jalaliToGregorian as a function: the Gregorian date with the same day. */
  function ToGregorian(jy: int, jm: int, jd: int): (r: (int, int, int))
    requires JalaliInRange(jy, jm, jd)
    ensures Gregorian.ValidDate(r.0, r.1, r.2) && r.0 >= 0
    ensures Gregorian.DayNumber(r.0, r.1, r.2) == Jalali.DayNumber(jy, jm, jd) - SameDayShift
  {
    Gregorian.FromDayNumber(Jalali.DayNumber(jy, jm, jd) - SameDayShift)
  }

  lemma EngineJalaliYear(z: int)
    requires z >= 0
    ensures var w := TMod(z, 12053);
      var r4 := TMod(w, 1461);
      (-1595 + 33 * TDiv(z, 12053) + 4 * TDiv(w, 1461) + (if r4 > 365 then TDiv(r4 - 1, 365) else 0),
       if r4 > 365 then TMod(r4 - 1, 365) else r4)
      == Jalali.YearAndDay(z)
  {
  }

  lemma EngineJalaliMonth(jy: int, d: int)
    requires 0 <= d < Jalali.YearLength(jy)
    ensures (if d < 186 then (1 + TDiv(d, 31), 1 + TMod(d, 31))
             else (7 + TDiv(d - 186, 30), 1 + TMod(d - 186, 30)))
      == Jalali.MonthOfDay(jy, d)
  {
  }

  /** The engine's split of a day count into 33-year cycles, four-year blocks, years,
      months and days, with every quotient and remainder named as Kotlin computes it, is
      the Jalali date with day number z + 1. */
  lemma EngineJalaliDecode(z: int, cycles: int, w: int, block: int, r4: int, yearInBlock: int,
                           d: int, jy: int, jm: int, jd: int)
    requires z >= 0
    requires cycles == TDiv(z, 12053) && w == TMod(z, 12053)
    requires block == TDiv(w, 1461) && r4 == TMod(w, 1461)
    requires r4 > 365 ==> yearInBlock == TDiv(r4 - 1, 365) && d == TMod(r4 - 1, 365)
    requires r4 <= 365 ==> yearInBlock == 0 && d == r4
    requires jy == -1595 + 33 * cycles + 4 * block + yearInBlock
    requires d < 186 ==> jm == 1 + TDiv(d, 31) && jd == 1 + TMod(d, 31)
    requires d >= 186 ==> jm == 7 + TDiv(d - 186, 30) && jd == 1 + TMod(d - 186, 30)
    ensures (jy, jm, jd) == Jalali.FromDays(z)
    ensures Jalali.ValidDate(jy, jm, jd) && Jalali.DayNumber(jy, jm, jd) == z + 1
  {
    assert cycles == z / 12053 && w == z % 12053;
    assert block == w / 1461 && r4 == w % 1461;
    assert (jy, d) == Jalali.YearAndDay(z);
    EngineJalaliMonth(jy, d);
  }

  lemma ToJalaliDays(gy: int, gm: int, gd: int, z: int)
    requires GregorianInRange(gy, gm, gd)
    requires z == Gregorian.DayNumber(gy, gm, gd) + SameDayShift - 1
    ensures ToJalali(gy, gm, gd) == Jalali.FromDays(z)
  {
  }

  /** `gregorianToJalali(gy, gm, gd)`. */
  method GregorianToJalali(gy: int, gm: int, gd: int) returns (jy: int, jm: int, jd: int)
    requires 1 <= gm <= 12
    ensures GregorianInRange(gy, gm, gd) ==> Jalali.ValidDate(jy, jm, jd)
    ensures GregorianInRange(gy, gm, gd) ==>
      Jalali.DayNumber(jy, jm, jd) == Gregorian.DayNumber(gy, gm, gd) + SameDayShift
    ensures GregorianInRange(gy, gm, gd) ==> (jy, jm, jd) == ToJalali(gy, gm, gd)
  {
    var gDM := GregorianMonthStarts;
    var gy2 := if gm > 2 then gy + 1 else gy;
    var days := 355666 + 365 * gy + TDiv(gy2 + 3, 4) - TDiv(gy2 + 99, 100) + TDiv(gy2 + 399, 400) + gd + gDM[gm - 1];
    // The quotients and remainders are recorded under names for the proof.
    ghost var z := days;
    ghost var cycles := TDiv(days, 12053);
    jy := -1595 + 33 * TDiv(days, 12053);
    days := TMod(days, 12053);
    ghost var w := days;
    ghost var block := TDiv(days, 1461);
    jy := jy + 4 * TDiv(days, 1461);
    days := TMod(days, 1461);
    ghost var r4 := days;
    ghost var yearInBlock := 0;
    if days > 365 {
      yearInBlock := TDiv(days - 1, 365);
      jy := jy + TDiv(days - 1, 365);
      days := TMod(days - 1, 365);
    }
    if days < 186 {
      jm := 1 + TDiv(days, 31);
      jd := 1 + TMod(days, 31);
    } else {
      jm := 7 + TDiv(days - 186, 30);
      jd := 1 + TMod(days - 186, 30);
    }
    if GregorianInRange(gy, gm, gd) {
      EngineGregorianDays(gy, gm, gd);
      assert z == Gregorian.DayNumber(gy, gm, gd) + SameDayShift - 1;
      EngineJalaliDecode(z, cycles, w, block, r4, yearInBlock, days, jy, jm, jd);
      ToJalaliDays(gy, gm, gd, z);
    }
  }

  /** The day count jalaliToGregorian builds, for a non-negative cycle count, is the Jalali
      day number moved to the Gregorian count and made zero-based. */
  lemma EngineJalaliDays(jy: int, jm: int, jd: int)
    requires jy + 1595 >= 0
    ensures var jy1 := jy + 1595;
      -355668 + 365 * jy1 + TDiv(jy1, 33) * 8 + TDiv(TMod(jy1, 33) + 3, 4) + jd
        + (if jm < 7 then (jm - 1) * 31 else (jm - 7) * 30 + 186)
      == Jalali.DayNumber(jy, jm, jd) - SameDayShift - 1
  {
  }

  /** Inside one 400-year era, the engine's split into centuries (the first of 36525 days,
      the others of 36524 with a day 366 pretended for their first year), four-year blocks
      and years, with every quotient and remainder named as Kotlin computes it, is the year
      of the era and the day of that year. */
  lemma EngineEraYear(r: int, century: int, rc: int, w: int, block: int, r4: int,
                      yearInBlock: int, d: int)
    requires 0 <= r < 146097
    requires r > 36524 ==> century == TDiv(r - 1, 36524) && rc == TMod(r - 1, 36524)
                           && w == (if rc >= 365 then rc + 1 else rc)
    requires r <= 36524 ==> century == 0 && w == r
    requires block == TDiv(w, 1461) && r4 == TMod(w, 1461)
    requires r4 > 365 ==> yearInBlock == TDiv(r4 - 1, 365) && d == TMod(r4 - 1, 365)
    requires r4 <= 365 ==> yearInBlock == 0 && d == r4
    ensures 0 <= 100 * century + 4 * block + yearInBlock
    ensures 0 <= d < Gregorian.YearLength(100 * century + 4 * block + yearInBlock)
    ensures Gregorian.DaysBeforeYear(100 * century + 4 * block + yearInBlock) + d == r
  {
    if r > 36524 {
      assert century == (r - 1) / 36524 && rc == (r - 1) % 36524;
      assert r - 1 == 36524 * century + rc && 1 <= century <= 3;
    }
    assert 0 <= w <= 36524;
    assert block == w / 1461 && r4 == w % 1461;
    assert w == 1461 * block + r4;
    if r4 > 365 {
      assert yearInBlock == (r4 - 1) / 365 && d == (r4 - 1) % 365;
      assert r4 - 1 == 365 * yearInBlock + d;
    }
    Gregorian.EraYear(century, block, yearInBlock);
  }

  /** Whole eras first, then the split inside the era: the year containing day n (counted
      from 0000-01-01) and the day of that year. */
  lemma EngineGregorianYear(n: int, era: int, r: int, yearOfEra: int, d: int, gy: int)
    requires n >= 0
    requires era == TDiv(n, 146097) && r == TMod(n, 146097)
    requires 0 <= yearOfEra && 0 <= d < Gregorian.YearLength(yearOfEra)
    requires Gregorian.DaysBeforeYear(yearOfEra) + d == r
    requires gy == 400 * era + yearOfEra
    ensures gy >= 0 && 0 <= d < Gregorian.YearLength(gy)
    ensures Gregorian.DaysBeforeYear(gy) + d == n
  {
    assert n == 146097 * era + r && 0 <= r;
    Gregorian.EraShift(era, yearOfEra);
  }

  lemma ToGregorianDate(jy: int, jm: int, jd: int, gy: int, gm: int, gd: int)
    requires JalaliInRange(jy, jm, jd) && Gregorian.ValidDate(gy, gm, gd)
    requires Gregorian.DayNumber(gy, gm, gd) == Jalali.DayNumber(jy, jm, jd) - SameDayShift
    ensures ToGregorian(jy, jm, jd) == (gy, gm, gd)
  {
    var r := ToGregorian(jy, jm, jd);
    Gregorian.DayNumberInjective(r.0, r.1, r.2, gy, gm, gd);
  }

  /** The end of jalaliToGregorian: `sal_a` holds the month lengths of year gy behind a
      leading 0, and the loop subtracts them from the one-based day of the year until the
      day fits the month. For a zero-based day of the year this is the month and the day of
      that day. */
  method MonthSearch(gy: int, days: int) returns (gm: int, gd: int)
    ensures 0 <= days < Gregorian.YearLength(gy) ==> Gregorian.ValidDate(gy, gm, gd)
    ensures 0 <= days < Gregorian.YearLength(gy) ==> Gregorian.DaysBeforeMonth(gy, gm) + gd == days + 1
  {
    gd := days + 1;
    // Kotlin's truncating `%` is zero exactly when Dafny's is, so the leap test carries over.
    var salA := [0, 31, if (gy % 4 == 0 && gy % 100 != 0) || gy % 400 == 0 then 29 else 28,
                 31, 30, 31, 30, 31, 31, 30, 31, 30, 31];
    ghost var inYear := 0 <= days < Gregorian.YearLength(gy);
    Gregorian.MonthsFillYear(gy);
    assert salA[0] == 0 && forall m :: 1 <= m <= 12 ==> salA[m] == Gregorian.MonthDays(gy, m);
    gm := 0;
    while gm < 13 && gd > salA[gm]
      invariant 0 <= gm <= 13
      invariant inYear ==> gm <= 12 && 1 <= gd
      invariant inYear && gm == 0 ==> gd == days + 1
      invariant inYear && gm >= 1 ==> Gregorian.DaysBeforeMonth(gy, gm) + gd == days + 1
      decreases 13 - gm
    {
      gd := gd - salA[gm];
      gm := gm + 1;
    }
  }

  /** `jalaliToGregorian(jy, jm, jd)`. */
  method JalaliToGregorian(jy: int, jm: int, jd: int) returns (gy: int, gm: int, gd: int)
    ensures JalaliInRange(jy, jm, jd) ==> Gregorian.ValidDate(gy, gm, gd)
    ensures JalaliInRange(jy, jm, jd) ==>
      Gregorian.DayNumber(gy, gm, gd) == Jalali.DayNumber(jy, jm, jd) - SameDayShift
    ensures JalaliInRange(jy, jm, jd) ==> (gy, gm, gd) == ToGregorian(jy, jm, jd)
  {
    ghost var inRange := JalaliInRange(jy, jm, jd);
    var jy1 := jy + 1595;
    var days := -355668 + 365 * jy1 + TDiv(jy1, 33) * 8 + TDiv(TMod(jy1, 33) + 3, 4) + jd
      + (if jm < 7 then (jm - 1) * 31 else (jm - 7) * 30 + 186);
    // The quotients and remainders are recorded under names for the proof.
    ghost var n := days;
    ghost var era := TDiv(days, 146097);
    gy := 400 * TDiv(days, 146097);
    days := TMod(days, 146097);
    ghost var r := days;
    ghost var century := 0;
    ghost var rc := 0;
    if days > 36524 {
      days := days - 1;
      century := TDiv(days, 36524);
      gy := gy + 100 * TDiv(days, 36524);
      days := TMod(days, 36524);
      rc := days;
      if days >= 365 {
        days := days + 1;
      }
    }
    ghost var w := days;
    ghost var block := TDiv(days, 1461);
    gy := gy + 4 * TDiv(days, 1461);
    days := TMod(days, 1461);
    ghost var r4 := days;
    ghost var yearInBlock := 0;
    if days > 365 {
      yearInBlock := TDiv(days - 1, 365);
      gy := gy + TDiv(days - 1, 365);
      days := TMod(days - 1, 365);
    }
    ghost var doy := days;
    if inRange {
      EngineJalaliDays(jy, jm, jd);
      EngineEraYear(r, century, rc, w, block, r4, yearInBlock, doy);
      EngineGregorianYear(n, era, r, 100 * century + 4 * block + yearInBlock, doy, gy);
    }
    gm, gd := MonthSearch(gy, days);
    if inRange {
      ToGregorianDate(jy, jm, jd, gy, gm, gd);
    }
  }

  /** Every valid Gregorian date from year 0 on lies in the range of both engines. */
  lemma GregorianDateInRange(gy: int, gm: int, gd: int)
    requires Gregorian.ValidDate(gy, gm, gd) && gy >= 0
    ensures GregorianInRange(gy, gm, gd)
    ensures Gregorian.DayNumber(gy, gm, gd) >= 1
  {
    Gregorian.FromDayNumberInverse(gy, gm, gd);
  }

  /** Gregorian to Jalali and back is the identity on valid dates from year 0 on. */
  lemma GregorianRoundTrip(gy: int, gm: int, gd: int)
    requires Gregorian.ValidDate(gy, gm, gd) && gy >= 0
    ensures GregorianInRange(gy, gm, gd)
    ensures var j := ToJalali(gy, gm, gd);
      JalaliInRange(j.0, j.1, j.2) && ToGregorian(j.0, j.1, j.2) == (gy, gm, gd)
  {
    GregorianDateInRange(gy, gm, gd);
    var j := ToJalali(gy, gm, gd);
    ToGregorianDate(j.0, j.1, j.2, gy, gm, gd);
  }

  /** Jalali to Gregorian and back is the identity on valid Jalali dates in range. */
  lemma JalaliRoundTrip(jy: int, jm: int, jd: int)
    requires Jalali.ValidDate(jy, jm, jd) && JalaliInRange(jy, jm, jd)
    ensures var g := ToGregorian(jy, jm, jd);
      GregorianInRange(g.0, g.1, g.2) && ToJalali(g.0, g.1, g.2) == (jy, jm, jd)
  {
    var g := ToGregorian(jy, jm, jd);
    var j := ToJalali(g.0, g.1, g.2);
    Jalali.DayNumberInjective(j.0, j.1, j.2, jy, jm, jd);
  }

  /** Both conversions move in step with the calendars: the next Gregorian day is the next
      Jalali day. */
  lemma ToJalaliNextDay(gy: int, gm: int, gd: int)
    requires Gregorian.ValidDate(gy, gm, gd) && gy >= 0
    ensures var n := Gregorian.NextDay(gy, gm, gd);
      GregorianInRange(gy, gm, gd) && GregorianInRange(n.0, n.1, n.2) &&
      Jalali.DayNumber(ToJalali(n.0, n.1, n.2).0, ToJalali(n.0, n.1, n.2).1, ToJalali(n.0, n.1, n.2).2)
      == Jalali.DayNumber(ToJalali(gy, gm, gd).0, ToJalali(gy, gm, gd).1, ToJalali(gy, gm, gd).2) + 1
  {
    GregorianDateInRange(gy, gm, gd);
    var n := Gregorian.NextDay(gy, gm, gd);
    Gregorian.NextDayNumber(gy, gm, gd);
    GregorianDateInRange(n.0, n.1, n.2);
  }

  /** Nowruz 1403: Gregorian 2024-03-20 is Jalali 1403-01-01, in both directions. */
  lemma Nowruz1403()
    ensures GregorianInRange(2024, 3, 20) && ToJalali(2024, 3, 20) == (1403, 1, 1)
    ensures JalaliInRange(1403, 1, 1) && ToGregorian(1403, 1, 1) == (2024, 3, 20)
  {
    assert Gregorian.DayNumber(2024, 3, 20) == 739331 by {
      Gregorian.DaysBeforeMonthTable(2024, 3);
    }
    assert Jalali.DayNumber(1403, 1, 1) == 1094998;
    var j := ToJalali(2024, 3, 20);
    Jalali.DayNumberInjective(j.0, j.1, j.2, 1403, 1, 1);
    ToGregorianDate(1403, 1, 1, 2024, 3, 20);
  }
}
