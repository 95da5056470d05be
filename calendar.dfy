/**
 * The day arithmetic behind JavaScript's `Date.UTC`, as ECMAScript defines it
 * (DayFromYear, MakeDay, MakeTime, MakeDate in section 21.4.1 of ECMA-262),
 * on whole numbers, and the proleptic Gregorian calendar dates it counts.
 */
module Calendar {
  import JsMath

  const MsPerDay: int := 86400000

  predicate IsLeapYear(y: int) { y % 4 == 0 && (y % 100 != 0 || y % 400 == 0) }

  function DaysInYear(y: int): int { if IsLeapYear(y) then 366 else 365 }

  /** Days in month `m` (1 = January) of year `y`. */
  function DaysInMonth(y: int, m: int): int
    requires 1 <= m <= 12
  {
    if m == 2 then (if IsLeapYear(y) then 29 else 28)
    else if m == 4 || m == 6 || m == 9 || m == 11 then 30
    else 31
  }

  /** Days in the first `k` months of a common year. */
  const CommonDaysBefore: seq<int> := [0, 31, 59, 90, 120, 151, 181, 212, 243, 273, 304, 334, 365]

  /** Days in the first `k` months of year `y`. */
  function DaysBeforeMonth(y: int, k: int): int
    requires 0 <= k <= 12
  {
    CommonDaysBefore[k] + (if k >= 2 && IsLeapYear(y) then 1 else 0)
  }

  /** The month table adds up: the first `k` months and month `k + 1` are the first `k + 1` months. */
  lemma DaysBeforeNextMonth(y: int, k: int)
    requires 0 <= k < 12
    ensures DaysBeforeMonth(y, k + 1) == DaysBeforeMonth(y, k) + DaysInMonth(y, k + 1)
  {
  }

  /**
   * Days from 1970-01-01 to January 1st of year `y`, counted year by year;
   * `DayFromYearIsEcmaFormula` shows it is ECMAScript's closed formula.
   */
  function DayFromYear(y: int): int
    decreases if y >= 1970 then y - 1970 else 1970 - y
  {
    if y == 1970 then 0
    else if y > 1970 then DayFromYear(y - 1) + DaysInYear(y - 1)
    else DayFromYear(y + 1) - DaysInYear(y)
  }

  /** ECMAScript's DayFromYear (Dafny's `/` is floor division for a positive divisor). */
  function EcmaDayFromYear(y: int): int {
    365 * (y - 1970) + (y - 1969) / 4 - (y - 1901) / 100 + (y - 1601) / 400
  }

  /** MakeDay(year, month, date): `month` is a month index that may leave 0 .. 11 and `date` may overflow the month. */
  function MakeDay(year: int, month: int, date: int): int {
    var ym := year + month / 12;
    var mn := month % 12;
    DayFromYear(ym) + DaysBeforeMonth(ym, mn) + date - 1
  }

  /** MakeTime(hour, min, sec, ms): hours of 3600000 ms, minutes of 60000 ms, seconds of 1000 ms. */
  function MakeTime(hour: int, minute: int, second: int, ms: int): int {
    ((hour * 60 + minute) * 60 + second) * 1000 + ms
  }

  function MakeDate(day: int, time: int): int {
    day * 86400000 + time
  }

  /** `Date.UTC(year, month, date, hour, minute, second, ms)`; years 0 .. 99 mean 1900 .. 1999. */
  function DateUTC(year: int, month: int, date: int, hour: int, minute: int, second: int, ms: int): int {
    var yr := if 0 <= year <= 99 then 1900 + year else year;
    MakeDate(MakeDay(yr, month, date), MakeTime(hour, minute, second, ms))
  }

  /** A calendar date: month 1 .. 12, day 1 .. 31. */
  datatype CivilDate = CivilDate(year: int, month: int, day: int)

  predicate ValidDate(d: CivilDate) {
    1 <= d.month <= 12 && 1 <= d.day <= DaysInMonth(d.year, d.month)
  }

  /** Days from 1970-01-01 to `d`. */
  function DayNumber(d: CivilDate): int
    requires ValidDate(d)
  {
    DayFromYear(d.year) + DaysBeforeMonth(d.year, d.month - 1) + d.day - 1
  }

  /** The calendar day after `d`, rolling over into the next month and year. */
  function NextDay(d: CivilDate): (e: CivilDate)
    requires ValidDate(d)
    ensures ValidDate(e)
  {
    if d.day < DaysInMonth(d.year, d.month) then CivilDate(d.year, d.month, d.day + 1)
    else if d.month < 12 then CivilDate(d.year, d.month + 1, 1)
    else CivilDate(d.year + 1, 1, 1)
  }

  lemma FloorStep(a: int, k: int)
    requires k > 0
    ensures (a + 1) / k == a / k + (if (a + 1) % k == 0 then 1 else 0)
  {
    var q, r := a / k, a % k;
    if r + 1 < k {
      JsMath.DivUnique(a + 1, k, q, r + 1);
    } else {
      JsMath.DivUnique(a + 1, k, q + 1, 0);
    }
  }

  lemma ModShift(a: int, k: int, c: int)
    requires k > 0
    ensures (a - c * k) % k == a % k
  {
    var q, r := a / k, a % k;
    assert a - c * k == (q - c) * k + r by { assert (q - c) * k == q * k - c * k; }
    JsMath.DivUnique(a - c * k, k, q - c, r);
  }

  lemma DividesFactor(y: int, big: int, small: int)
    requires small > 0 && big == small * (big / small) && big > 0
    requires y % big == 0
    ensures y % small == 0
  {
    var t := y / big;
    assert y == t * big;
    assert y == (t * (big / small)) * small;
    JsMath.DivUnique(y, small, t * (big / small), 0);
  }

  /** The closed formula also advances by one year-length per year. */
  lemma EcmaDayFromYearStep(y: int)
    ensures EcmaDayFromYear(y + 1) == EcmaDayFromYear(y) + DaysInYear(y)
  {
    FloorStep(y - 1969, 4);
    FloorStep(y - 1901, 100);
    FloorStep(y - 1601, 400);
    ModShift(y, 4, 492);
    ModShift(y, 100, 19);
    ModShift(y, 400, 4);
    if y % 100 == 0 { DividesFactor(y, 100, 4); }
    if y % 400 == 0 { DividesFactor(y, 400, 100); }
  }

  /** January 1st of the next year comes exactly one year-length later. */
  lemma DayFromYearStep(y: int)
    ensures DayFromYear(y + 1) == DayFromYear(y) + DaysInYear(y)
  {
  }

  /** The year-by-year count is ECMAScript's DayFromYear. */
  lemma {:induction false} DayFromYearIsEcmaFormula(y: int)
    ensures DayFromYear(y) == EcmaDayFromYear(y)
    decreases if y >= 1970 then y - 1970 else 1970 - y
  {
    if y > 1970 {
      DayFromYearIsEcmaFormula(y - 1);
      EcmaDayFromYearStep(y - 1);
    } else if y < 1970 {
      DayFromYearIsEcmaFormula(y + 1);
      EcmaDayFromYearStep(y);
    }
  }

  lemma DaysBeforeDecember(y: int)
    ensures DaysBeforeMonth(y, 12) == DaysInYear(y)
  {
  }

  /** For a month index inside the year, MakeDay counts days inside that year. */
  lemma MakeDayInYear(y: int, mi: int, date: int)
    requires 0 <= mi < 12
    ensures MakeDay(y, mi, date) == DayFromYear(y) + DaysBeforeMonth(y, mi) + date - 1
  {
    JsMath.DivUnique(mi, 12, 0, mi);
  }

  /** The day after `d` is numbered one higher: `NextDay` is the successor of the day count. */
  lemma NextDayNumber(d: CivilDate)
    requires ValidDate(d)
    ensures DayNumber(NextDay(d)) == DayNumber(d) + 1
  {
    var e := NextDay(d);
    DaysBeforeNextMonth(d.year, d.month - 1);
    if d.day == DaysInMonth(d.year, d.month) && d.month == 12 {
      DayFromYearStep(d.year);
      DaysBeforeDecember(d.year);
    }
  }

  /**
   * `Date.UTC(y, m - 1, d + 1)` is midnight (UTC) of the day after y-m-d, however
   * the day overflows into the next month or year.
   */
  lemma DateUTCNextDay(d: CivilDate)
    requires ValidDate(d) && !(0 <= d.year <= 99)
    ensures DateUTC(d.year, d.month - 1, d.day + 1, 0, 0, 0, 0) == MakeDate(DayNumber(NextDay(d)), 0)
  {
    var k := MakeDay(d.year, d.month - 1, d.day + 1);
    assert k == DayNumber(NextDay(d)) by {
      NextDayNumber(d);
      MakeDayInYear(d.year, d.month - 1, d.day + 1);
    }
    DateUTCMidnight(d.year, d.month - 1, d.day + 1);
  }

  lemma DateUTCMidnight(y: int, mi: int, date: int)
    requires !(0 <= y <= 99)
    ensures DateUTC(y, mi, date, 0, 0, 0, 0) == MakeDate(MakeDay(y, mi, date), 0)
  {
    DateUTCUnfold(y, mi, date, 0, 0, 0, 0);
    MidnightTime(MakeDay(y, mi, date));
  }

  lemma DateUTCUnfold(y: int, mi: int, date: int, h: int, mn: int, s: int, ms: int)
    requires !(0 <= y <= 99)
    ensures DateUTC(y, mi, date, h, mn, s, ms) == MakeDate(MakeDay(y, mi, date), MakeTime(h, mn, s, ms))
  {
  }

  lemma MidnightTime(day: int)
    ensures MakeDate(day, MakeTime(0, 0, 0, 0)) == MakeDate(day, 0)
  {
  }

  lemma DayFromYearIncreasing(a: int, b: int)
    requires a < b
    ensures DayFromYear(a) + DaysInYear(a) <= DayFromYear(b)
    decreases b - a
  {
    DayFromYearStep(a);
    if a + 1 < b {
      DayFromYearIncreasing(a + 1, b);
    }
  }

  lemma DaysBeforeMonthIncreasing(y: int, i: int, j: int)
    requires 0 <= i <= j <= 12
    ensures DaysBeforeMonth(y, i) <= DaysBeforeMonth(y, j)
    decreases j - i
  {
    if i < j {
      DaysBeforeMonthIncreasing(y, i, j - 1);
      DaysBeforeNextMonth(y, j - 1);
    }
  }

  /** The day count lies inside its year: January 1st .. December 31st. */
  lemma DayNumberWithinYear(d: CivilDate)
    requires ValidDate(d)
    ensures DayFromYear(d.year) <= DayNumber(d) < DayFromYear(d.year) + DaysInYear(d.year)
  {
    DaysBeforeNextMonth(d.year, d.month - 1);
    DaysBeforeMonthIncreasing(d.year, d.month, 12);
    DaysBeforeDecember(d.year);
  }

  /** Distinct valid dates have distinct day counts. */
  lemma {:induction false} DayNumberInjective(a: CivilDate, b: CivilDate)
    requires ValidDate(a) && ValidDate(b)
    requires DayNumber(a) == DayNumber(b)
    ensures a == b
  {
    DayNumberWithinYear(a);
    DayNumberWithinYear(b);
    if a.year < b.year {
      DayFromYearIncreasing(a.year, b.year);
    } else if b.year < a.year {
      DayFromYearIncreasing(b.year, a.year);
    } else if a.month < b.month {
      DaysBeforeNextMonth(a.year, a.month - 1);
      DaysBeforeMonthIncreasing(a.year, a.month, b.month - 1);
    } else if b.month < a.month {
      DaysBeforeNextMonth(b.year, b.month - 1);
      DaysBeforeMonthIncreasing(a.year, b.month, a.month - 1);
    }
  }
}
