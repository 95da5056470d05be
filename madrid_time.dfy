/**
 * Wall-clock time in Europe/Madrid and the timing of the daily reset
 * (api/server.js: madridParts, madridDateString, timeZoneOffsetMs,
 * nextMadridMidnightUTCms and the delay of scheduleDailyReset).
 *
 * The time-zone database is not modelled: a `Zone` is any function from an
 * instant (milliseconds since 1970-01-01T00:00:00Z) to the wall-clock parts
 * that `Intl.DateTimeFormat(..., { timeZone: "Europe/Madrid" })` reports for it.
 * Everything else is the arithmetic the server performs on those parts.
 */
module MadridTime {
  import opened Text
  import opened Calendar
  import JsMath

  /** The numeric parts `madridParts` collects: year, month 1 .. 12, day, hour, minute, second. */
  datatype Parts = Parts(year: int, month: int, day: int, hour: int, minute: int, second: int)

  function DateOf(p: Parts): CivilDate { CivilDate(p.year, p.month, p.day) }

  predicate ValidParts(p: Parts) {
    ValidDate(DateOf(p)) && 0 <= p.hour < 24 && 0 <= p.minute < 60 && 0 <= p.second < 60
  }

  /** A time zone, as the formatter sees it. */
  datatype Zone = Zone(partsAt: int -> Parts)

  /** A two-digit field ("2-digit" in the formatter options). */
  function Pad2(n: int): string {
    if 0 <= n < 10 then "0" + NatToString(n) else IntToString(n)
  }

  /** Fields 0 .. 99 come out as exactly two digits that read back as the field. */
  lemma Pad2Value(n: int)
    requires 0 <= n < 100
    ensures |Pad2(n)| == 2 && AllDigits(Pad2(n)) && DecimalValue(Pad2(n)) == n
  {
    var s := Pad2(n);
    if n < 10 {
      assert s == ['0', DigitChar(n)];
      assert s[..1] == ['0'] && ['0'][..0] == [];
      assert DecimalValue(['0']) == 0;
    } else {
      assert NatToString(n) == NatToString(n / 10) + [DigitChar(n % 10)];
      assert NatToString(n / 10) == [DigitChar(n / 10)];
      DecimalRoundTrip(n);
    }
  }

  /** `madridDateString`: `YYYY-MM-DD` for the calendar date in the parts. */
  function DateString(p: Parts): string {
    IntToString(p.year) + "-" + Pad2(p.month) + "-" + Pad2(p.day)
  }

  function MadridDateString(z: Zone, t: int): string { DateString(z.partsAt(t)) }

  /** Where the year, the month and the day sit in a `YYYY-MM-DD` string. */
  lemma DatePieces(y: string, m: string, d: string)
    requires |m| == 2 && |d| == 2
    ensures var s := y + "-" + m + "-" + d;
            && |s| == |y| + 6 && s[..|y|] == y && s[|y| + 1..|y| + 3] == m && s[|y| + 4..] == d
  {
  }

  /** Two date strings are equal exactly when the calendar dates are: comparing them compares days. */
  lemma DateStringInjective(p: Parts, q: Parts)
    requires ValidDate(DateOf(p)) && ValidDate(DateOf(q))
    ensures DateString(p) == DateString(q) <==> DateOf(p) == DateOf(q)
  {
    if DateString(p) == DateString(q) {
      Pad2Value(p.day); Pad2Value(q.day);
      Pad2Value(p.month); Pad2Value(q.month);
      var y, y' := IntToString(p.year), IntToString(q.year);
      DatePieces(y, Pad2(p.month), Pad2(p.day));
      DatePieces(y', Pad2(q.month), Pad2(q.day));
      var s := DateString(p);
      assert |y| == |y'|;
      assert y == s[..|y|] == y';
      assert Pad2(p.month) == s[|y| + 1..|y| + 3] == Pad2(q.month);
      assert Pad2(p.day) == s[|y| + 4..] == Pad2(q.day);
      IntToStringInjective(p.year, q.year);
    }
  }

  /** `Date.UTC` of the wall-clock parts (milliseconds are not among the parts). */
  function WallClockMs(p: Parts): int {
    DateUTC(p.year, p.month - 1, p.day, p.hour, p.minute, p.second, 0)
  }

  /** `timeZoneOffsetMs(timeZone, date)`: the wall clock read as UTC, minus the instant. */
  function TimeZoneOffsetMs(z: Zone, t: int): int {
    WallClockMs(z.partsAt(t)) - t
  }

  /** The naive guess: `Date.UTC(year, month - 1, day + 1, 0, 0, 0, 0)` for today's Madrid date. */
  function MidnightGuess(z: Zone, now: int): int {
    var p := z.partsAt(now);
    DateUTC(p.year, p.month - 1, p.day + 1, 0, 0, 0, 0)
  }

  /** `nextMadridMidnightUTCms(now)`: the guess corrected by the Madrid offset that holds at the guess. */
  function NextMidnightUTCms(z: Zone, now: int): int {
    var guess := MidnightGuess(z, now);
    guess - TimeZoneOffsetMs(z, guess)
  }

  /** `Math.max(0, nextMidnightUTC - now)`, the delay `scheduleDailyReset` waits. */
  function ScheduleDelay(z: Zone, now: int): (delay: nat)
    ensures delay >= NextMidnightUTCms(z, now) - now
    ensures delay > 0 ==> delay == NextMidnightUTCms(z, now) - now
  {
    var d := NextMidnightUTCms(z, now) - now;
    if d > 0 then d else 0
  }

  /**
   * The guess is UTC midnight of tomorrow's Madrid date, with the day rolling into
   * the next month or year; the result subtracts the offset found at that guess.
   */
  lemma NextMidnightIsTomorrowMinusOffset(z: Zone, now: int)
    requires ValidDate(DateOf(z.partsAt(now))) && !(0 <= z.partsAt(now).year <= 99)
    ensures var guess := MakeDate(DayNumber(NextDay(DateOf(z.partsAt(now)))), 0);
            MidnightGuess(z, now) == guess &&
            NextMidnightUTCms(z, now) == guess - TimeZoneOffsetMs(z, guess)
  {
    DateUTCNextDay(DateOf(z.partsAt(now)));
  }

  /** Milliseconds since local midnight that the wall clock shows. */
  function TimeOfDayMs(p: Parts): int { MakeTime(p.hour, p.minute, p.second, 0) }

  lemma WallClockSplit(p: Parts)
    requires ValidParts(p) && !(0 <= p.year <= 99)
    ensures WallClockMs(p) == MakeDate(DayNumber(DateOf(p)), TimeOfDayMs(p))
    ensures 0 <= TimeOfDayMs(p) <= MsPerDay - 1000
  {
    DateUTCUnfold(p.year, p.month - 1, p.day, p.hour, p.minute, p.second, 0);
    MakeDayInYear(p.year, p.month - 1, p.day);
  }

  /**
   * When Madrid's offset at the returned instant is the one found at the guess
   * (no clock change falls between the two), Madrid's wall clock at the returned
   * instant reads exactly 00:00:00 of tomorrow's date, and its date string is a new one.
   */
  lemma NextMidnightIsLocalMidnight(z: Zone, now: int)
    requires ValidParts(z.partsAt(now)) && !(0 <= z.partsAt(now).year <= 99)
    requires var target := NextMidnightUTCms(z, now);
             TimeZoneOffsetMs(z, target) == TimeZoneOffsetMs(z, MidnightGuess(z, now))
    requires ValidParts(z.partsAt(NextMidnightUTCms(z, now)))
    requires !(0 <= z.partsAt(NextMidnightUTCms(z, now)).year <= 99)
    ensures var tomorrow := NextDay(DateOf(z.partsAt(now)));
            z.partsAt(NextMidnightUTCms(z, now)) == Parts(tomorrow.year, tomorrow.month, tomorrow.day, 0, 0, 0)
    ensures MadridDateString(z, NextMidnightUTCms(z, now)) != MadridDateString(z, now)
  {
    var today := DateOf(z.partsAt(now));
    var tomorrow := NextDay(today);
    var target := NextMidnightUTCms(z, now);
    var q := z.partsAt(target);
    NextMidnightIsTomorrowMinusOffset(z, now);
    assert WallClockMs(q) == MakeDate(DayNumber(tomorrow), 0);
    WallClockSplit(q);
    var t := TimeOfDayMs(q);
    assert DayNumber(DateOf(q)) * 86400000 + t == DayNumber(tomorrow) * 86400000 + 0;
    JsMath.DivUnique(DayNumber(tomorrow) * 86400000, 86400000, DayNumber(DateOf(q)), t);
    JsMath.DivUnique(DayNumber(tomorrow) * 86400000, 86400000, DayNumber(tomorrow), 0);
    DayNumberInjective(DateOf(q), tomorrow);
    assert q.hour == 0 && q.minute == 0 && q.second == 0;
    NextDayNumber(today);
    DateStringInjective(q, z.partsAt(now));
  }

  /**
   * The reading at `now` agrees with the offset at the guess: the wall clock shows
   * `now + offset`, cut to whole seconds (no clock change before the next midnight).
   */
  predicate SteadyOffset(z: Zone, now: int) {
    var o := TimeZoneOffsetMs(z, MidnightGuess(z, now));
    0 <= now + o - WallClockMs(z.partsAt(now)) < 1000
  }

  /** On a day without a clock change the timer waits more than nothing and at most one day. */
  lemma DelayWithinOneDay(z: Zone, now: int)
    requires ValidParts(z.partsAt(now)) && !(0 <= z.partsAt(now).year <= 99)
    requires SteadyOffset(z, now)
    ensures 0 < ScheduleDelay(z, now) <= MsPerDay
    ensures ScheduleDelay(z, now) == NextMidnightUTCms(z, now) - now
  {
    var p := z.partsAt(now);
    NextMidnightIsTomorrowMinusOffset(z, now);
    NextDayNumber(DateOf(p));
    WallClockSplit(p);
    var guess := MidnightGuess(z, now);
    assert guess == WallClockMs(p) - TimeOfDayMs(p) + 86400000;
  }
}
