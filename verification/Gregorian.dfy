/** UTC timestamps and broken-down time, given a real Gregorian definition (section 4.16 of POSIX.1-2017 XBD). */
module Gregorian {
  import opened Basics

  predicate IsLeap(year: int) {
    (year % 4 == 0 && year % 100 != 0) || year % 400 == 0
  }

  function DaysInYear(year: int): int {
    if IsLeap(year) then 366 else 365
  }

  const DAYS_IN_MONTH: seq<int> := [31, 28, 31, 30, 31, 30, 31, 31, 30, 31, 30, 31]

  const DAYS_BEFORE_MONTH: seq<int> := [0, 31, 59, 90, 120, 151, 181, 212, 243, 273, 304, 334, 365]

  /** Months count from 0, as everywhere below. */
  function DaysInMonth(year: int, month: int): int
    requires 0 <= month < 12
  {
    if month == 1 && IsLeap(year) then 29 else DAYS_IN_MONTH[month]
  }

  function DaysBeforeMonth(year: int, month: int): int
    requires 0 <= month <= 12
  {
    DAYS_BEFORE_MONTH[month] + if month >= 2 && IsLeap(year) then 1 else 0
  }

  /** Days from the first day of year 1 to the first day of `year`. */
  function DaysBeforeYear(year: int): int {
    365 * (year - 1) + (year - 1) / 4 - (year - 1) / 100 + (year - 1) / 400
  }

  /** 1 January 1970, counted from the first day of year 1. */
  const EPOCH_DAY: int := 719162

  const SECONDS_PER_DAY: int := 86400

  lemma MultiplesUpTo(y: int)
    ensures y / 4 - (y - 1) / 4 == if y % 4 == 0 then 1 else 0
    ensures y / 100 - (y - 1) / 100 == if y % 100 == 0 then 1 else 0
    ensures y / 400 - (y - 1) / 400 == if y % 400 == 0 then 1 else 0
  {
  }

  lemma Split4(y: int, m: int, r: int)
    requires 0 <= r < 4 && y == 4 * m + r
    ensures y / 4 == m && y % 4 == r
  {
  }

  lemma Split100(y: int, m: int, r: int)
    requires 0 <= r < 100 && y == 100 * m + r
    ensures y / 100 == m && y % 100 == r
  {
  }

  lemma Split400(y: int, m: int, r: int)
    requires 0 <= r < 400 && y == 400 * m + r
    ensures y / 400 == m && y % 400 == r
  {
  }

  lemma DivisibleBy400(y: int)
    ensures y % 400 == 0 ==> y % 100 == 0
    ensures y % 100 == 0 ==> y % 4 == 0
  {
    var q, h := y / 400, y / 100;
    if y % 400 == 0 {
      Split100(y, 4 * q, 0);
    }
    if y % 100 == 0 {
      Split4(y, 25 * h, 0);
    }
  }

  lemma YearLength(year: int)
    ensures DaysBeforeYear(year + 1) == DaysBeforeYear(year) + DaysInYear(year)
  {
    MultiplesUpTo(year);
    DivisibleBy400(year);
  }

  lemma MonthLength(year: int, month: int)
    requires 0 <= month < 12
    ensures DaysBeforeMonth(year, month + 1) == DaysBeforeMonth(year, month) + DaysInMonth(year, month)
    ensures DaysBeforeMonth(year, 12) == DaysInYear(year)
  {
  }

  lemma {:induction false} YearsAscend(a: int, b: int)
    requires a <= b
    ensures DaysBeforeYear(a) + 365 * (b - a) <= DaysBeforeYear(b)
    decreases b - a
  {
    if a < b {
      YearsAscend(a, b - 1);
      YearLength(b - 1);
    }
  }

  lemma {:induction false} MonthsAscend(year: int, a: int, b: int)
    requires 0 <= a <= b <= 12
    ensures DaysBeforeMonth(year, a) <= DaysBeforeMonth(year, b)
    decreases b - a
  {
    if a < b {
      MonthsAscend(year, a, b - 1);
      MonthLength(year, b - 1);
    }
  }

  /** The year day `n` after the first day of year 1 lies in, by whole cycles of 400, 100, 4 and 1 years. */
  function YearOf(n: int): int {
    var r := n % 146097;
    var c := Min(r / 36524, 3);
    var r2 := r - 36524 * c;
    var r3 := r2 % 1461;
    400 * (n / 146097) + 100 * c + 4 * (r2 / 1461) + Min(r3 / 365, 3) + 1
  }

  lemma CycleDays(q: int, c: int, f: int, a: int)
    requires 0 <= c < 4 && 0 <= f < 25 && 0 <= a < 4
    ensures DaysBeforeYear(400 * q + 100 * c + 4 * f + a + 1) == 146097 * q + 36524 * c + 1461 * f + 365 * a
    ensures IsLeap(400 * q + 100 * c + 4 * f + a + 1) <==> a == 3 && (f != 24 || c == 3)
  {
    var z := 400 * q + 100 * c + 4 * f + a;
    Split4(z, 100 * q + 25 * c + f, a);
    Split100(z, 4 * q + c, 4 * f + a);
    Split400(z, q, 100 * c + 4 * f + a);
    if a < 3 {
      Split4(z + 1, 100 * q + 25 * c + f, a + 1);
      DivisibleBy400(z + 1);
    } else if f < 24 {
      Split4(z + 1, 100 * q + 25 * c + f + 1, 0);
      Split100(z + 1, 4 * q + c, 4 * f + 4);
    } else {
      Split100(z + 1, 4 * q + c + 1, 0);
      if c < 3 {
        Split400(z + 1, q, 100 * c + 100);
      } else {
        Split400(z + 1, q + 1, 0);
      }
    }
  }

  lemma YearOfContains(n: int)
    ensures DaysBeforeYear(YearOf(n)) <= n < DaysBeforeYear(YearOf(n) + 1)
  {
    hide DaysBeforeYear, IsLeap;
    var q, r := n / 146097, n % 146097;
    var c := Min(r / 36524, 3);
    var r2 := r - 36524 * c;
    var f, r3 := r2 / 1461, r2 % 1461;
    var a := Min(r3 / 365, 3);
    CycleDays(q, c, f, a);
    YearLength(YearOf(n));
  }

  lemma YearOfUnique(n: int, year: int)
    requires DaysBeforeYear(year) <= n < DaysBeforeYear(year + 1)
    ensures YearOf(n) == year
  {
    hide DaysBeforeYear, YearOf;
    YearOfContains(n);
    if YearOf(n) < year {
      YearsAscend(YearOf(n) + 1, year);
    } else if YearOf(n) > year {
      YearsAscend(year + 1, YearOf(n));
    }
  }

  function MonthOf(year: int, yearDay: int, month: int): (m: int)
    requires 0 <= month < 12 && DaysBeforeMonth(year, month) <= yearDay < DaysInYear(year)
    ensures month <= m < 12 && DaysBeforeMonth(year, m) <= yearDay < DaysBeforeMonth(year, m + 1)
    decreases 12 - month
  {
    MonthLength(year, month);
    if yearDay < DaysBeforeMonth(year, month + 1) then month else MonthOf(year, yearDay, month + 1)
  }

  // ----- struct tm -----

  /** `year` counts from 1900 and `mon` from 0; Sunday is weekday 0. */
  datatype Tm = Tm(year: int, mon: int, mday: int, hour: int, min: int, sec: int, wday: int, yday: int)

  /** Days from 1 January 1970. */
  function DayNumber(year: int, month: int, mday: int): int
    requires 0 <= month < 12
  {
    DaysBeforeYear(year) + DaysBeforeMonth(year, month) + mday - 1 - EPOCH_DAY
  }

  function Weekday(day: int): int {
    (day + 4) % 7
  }

  /** The timestamp of a broken-down UTC time. Fields out of range carry over, as timegm() lets them. */
  function PortableTimeGm(tm: Tm): int {
    DayNumber(1900 + tm.year + tm.mon / 12, tm.mon % 12, tm.mday) * SECONDS_PER_DAY
    + tm.hour * 3600 + tm.min * 60 + tm.sec
  }

  function GmTimeUtc(t: int): Tm {
    var day, second := t / SECONDS_PER_DAY, t % SECONDS_PER_DAY;
    var year := YearOf(day + EPOCH_DAY);
    YearOfContains(day + EPOCH_DAY);
    YearLength(year);
    var yday := day + EPOCH_DAY - DaysBeforeYear(year);
    var mon := MonthOf(year, yday, 0);
    Tm(year - 1900, mon, yday - DaysBeforeMonth(year, mon) + 1,
       second / 3600, second / 60 % 60, second % 60, Weekday(day), yday)
  }

  /** The week: 1 January 1970 was a Thursday, and every day is followed by the next of the seven, Saturday by Sunday.
      */
  lemma WeekIsAnchored(t: int)
    ensures GmTimeUtc(0).wday == 4
    ensures 0 <= GmTimeUtc(t).wday <= 6
    ensures GmTimeUtc(t + 86400).wday == if GmTimeUtc(t).wday == 6 then 0 else GmTimeUtc(t).wday + 1
  {
    hide YearOf, MonthOf, DaysBeforeYear, DaysBeforeMonth;
    assert (t + 86400) / 86400 == t / 86400 + 1;
  }

  /** The months: 30 days have April, June, September and November, and February 28, or 29 in a leap year; leap years
      are those divisible by 4, but of the full centuries only those divisible by 400. */
  lemma MonthsAreAsKnown(year: int)
    ensures DaysInMonth(year, 3) == DaysInMonth(year, 5) == DaysInMonth(year, 8) == DaysInMonth(year, 10) == 30
    ensures forall m :: 0 <= m < 12 && m != 1 && m != 3 && m != 5 && m != 8 && m != 10 ==> DaysInMonth(year, m) == 31
    ensures year % 4 != 0 || (year % 100 == 0 && year % 400 != 0) ==> DaysInMonth(year, 1) == 28
    ensures (year % 4 == 0 && year % 100 != 0) || year % 400 == 0 ==> DaysInMonth(year, 1) == 29
  {
  }

  /** A broken-down time as the calendar has it. */
  predicate Proper(tm: Tm) {
    && 0 <= tm.mon < 12 && 1 <= tm.mday <= DaysInMonth(1900 + tm.year, tm.mon)
    && 0 <= tm.hour < 24 && 0 <= tm.min < 60 && 0 <= tm.sec < 60
    && tm.yday == DaysBeforeMonth(1900 + tm.year, tm.mon) + tm.mday - 1
    && tm.wday == Weekday(DayNumber(1900 + tm.year, tm.mon, tm.mday))
  }

  lemma SecondsSplit(second: int)
    requires 0 <= second < 86400
    ensures second / 3600 * 3600 + second / 60 % 60 * 60 + second % 60 == second
    ensures 0 <= second / 3600 < 24 && 0 <= second / 60 % 60 < 60 && 0 <= second % 60 < 60
  {
    assert second / 60 / 60 == second / 3600;
  }

  lemma SecondsJoin(hour: int, min: int, sec: int)
    requires 0 <= hour < 24 && 0 <= min < 60 && 0 <= sec < 60
    ensures var s := hour * 3600 + min * 60 + sec;
      0 <= s < 86400 && s / 3600 == hour && s / 60 % 60 == min && s % 60 == sec
  {
    var s := hour * 3600 + min * 60 + sec;
    assert s / 60 == hour * 60 + min;
  }

  /** Breaking a timestamp down and putting it together again is the identity, for every timestamp. */
  lemma TimegmAfterGmtime(t: int)
    ensures Proper(GmTimeUtc(t)) && PortableTimeGm(GmTimeUtc(t)) == t
  {
    hide DaysBeforeYear, DaysBeforeMonth, YearOf;
    var day, second := t / SECONDS_PER_DAY, t % SECONDS_PER_DAY;
    var tm := GmTimeUtc(t);
    SecondsSplit(second);
    MonthLength(1900 + tm.year, tm.mon);
  }

  /** And the other way round, for every calendar time. */
  lemma GmtimeAfterTimegm(tm: Tm)
    requires Proper(tm)
    ensures GmTimeUtc(PortableTimeGm(tm)) == tm
  {
    hide DaysBeforeYear, DaysBeforeMonth, YearOf, MonthOf, DaysInMonth;
    var year := 1900 + tm.year;
    var day := DayNumber(year, tm.mon, tm.mday);
    SecondsJoin(tm.hour, tm.min, tm.sec);
    var t := PortableTimeGm(tm);
    assert t / SECONDS_PER_DAY == day && t % SECONDS_PER_DAY == tm.hour * 3600 + tm.min * 60 + tm.sec;
    DayIsInItsYear(year, tm.mon, tm.mday);
    YearOfUnique(day + EPOCH_DAY, year);
    MonthOfUnique(year, tm.yday, tm.mon);
  }

  lemma DayIsInItsYear(year: int, month: int, mday: int)
    requires 0 <= month < 12 && 1 <= mday <= DaysInMonth(year, month)
    ensures DaysBeforeYear(year) <= DayNumber(year, month, mday) + EPOCH_DAY < DaysBeforeYear(year + 1)
    ensures DaysBeforeMonth(year, month) <= DaysBeforeMonth(year, month) + mday - 1 < DaysBeforeMonth(year, month + 1)
    ensures DaysBeforeMonth(year, month + 1) <= DaysInYear(year)
  {
    hide DaysBeforeYear, DaysBeforeMonth, DaysInMonth;
    YearLength(year);
    MonthLength(year, month);
    MonthsAscend(year, month + 1, 12);
    MonthsAscend(year, 0, month);
    FirstMonth(year);
  }

  lemma FirstMonth(year: int)
    ensures DaysBeforeMonth(year, 0) == 0
  {
  }

  lemma MonthOfUnique(year: int, yearDay: int, month: int)
    requires 0 <= month < 12 && DaysBeforeMonth(year, month) <= yearDay < DaysBeforeMonth(year, month + 1)
        <= DaysInYear(year)
    ensures DaysBeforeMonth(year, 0) <= yearDay && MonthOf(year, yearDay, 0) == month
  {
    hide DaysBeforeMonth, MonthOf;
    MonthsAscend(year, 0, month);
    var m := MonthOf(year, yearDay, 0);
    if m < month {
      MonthsAscend(year, m + 1, month);
    } else if m > month {
      MonthsAscend(year, month + 1, m);
    }
  }

  /** The seconds since the Epoch as the standard writes them. */
  lemma MatchesPosix(tm: Tm)
    requires Proper(tm) && tm.year >= 70
    ensures PortableTimeGm(tm) ==
      tm.sec + tm.min * 60 + tm.hour * 3600 + tm.yday * 86400 + (tm.year - 70) * 31536000
      + (tm.year - 69) / 4 * 86400 - (tm.year - 1) / 100 * 86400 + (tm.year + 299) / 400 * 86400
  {
    hide DaysBeforeMonth, DaysInMonth;
    var y := tm.year + 1899;
    assert y / 4 == (tm.year - 69) / 4 + 492;
    assert y / 100 == (tm.year - 1) / 100 + 19;
    assert y / 400 == (tm.year + 299) / 400 + 4;
  }
}
