/** The zone rules the client computes itself: nth and last weekdays of a month, and the two daylight saving rules. */
module DaylightSaving {
  import opened Gregorian

  /** A date at a full hour, as the rules build it. */
  function AtHour(year: int, month: int, mday: int, hour: int): int
    requires 0 <= month < 12
  {
    PortableTimeGm(Tm(year - 1900, month, mday, hour, 0, 0, 0, 0))
  }

  lemma AtHourIs(year: int, month: int, mday: int, hour: int)
    requires 0 <= month < 12
    ensures AtHour(year, month, mday, hour) == DayNumber(year, month, mday) * SECONDS_PER_DAY + hour * 3600
  {
    hide DaysBeforeYear, DaysBeforeMonth;
    assert month / 12 == 0 && month % 12 == month;
  }

  lemma WeekdayOfMidnight(year: int, month: int, mday: int)
    requires 0 <= month < 12
    ensures GmTimeUtc(AtHour(year, month, mday, 0)).wday == Weekday(DayNumber(year, month, mday))
  {
    hide DaysBeforeYear, DaysBeforeMonth, YearOf, MonthOf, DayNumber;
    AtHourIs(year, month, mday, 0);
    var day := DayNumber(year, month, mday);
    assert day * SECONDS_PER_DAY / SECONDS_PER_DAY == day;
  }

  function NthWeekdayOfMonth(year: int, month: int, weekday: int, n: int): int
    requires 0 <= month < 12
  {
    var offset := (weekday - GmTimeUtc(AtHour(year, month, 1, 0)).wday + 7) % 7;
    1 + offset + (n - 1) * 7
  }

  function LastWeekdayOfMonth(year: int, month: int, weekday: int): int
    requires 0 <= month < 12
  {
    var days := DaysInMonth(year, month);
    var diff := (GmTimeUtc(AtHour(year, month, days, 0)).wday - weekday + 7) % 7;
    days - diff
  }

  function WeekdayOn(year: int, month: int, mday: int): int
    requires 0 <= month < 12
  {
    Weekday(DayNumber(year, month, mday))
  }

  /** How many of the days 1 to `mday` are that weekday. */
  function CountUpTo(year: int, month: int, weekday: int, mday: nat): nat
    requires 0 <= month < 12
  {
    if mday == 0 then 0
    else CountUpTo(year, month, weekday, mday - 1) + if WeekdayOn(year, month, mday) == weekday then 1 else 0
  }

  lemma WeekdaysAdvance(year: int, month: int, mday: int)
    requires 0 <= month < 12
    ensures WeekdayOn(year, month, mday) == (WeekdayOn(year, month, 1) + mday - 1) % 7
  {
    hide DaysBeforeYear, DaysBeforeMonth;
    assert DayNumber(year, month, mday) == DayNumber(year, month, 1) + mday - 1;
  }

  lemma {:induction false} CountIs(year: int, month: int, weekday: int, mday: nat)
    requires 0 <= month < 12 && 0 <= weekday < 7
    ensures var first := (weekday - WeekdayOn(year, month, 1) + 7) % 7;
      CountUpTo(year, month, weekday, mday) == (mday + 6 - first) / 7
  {
    hide WeekdayOn;
    WeekdayRange(year, month, 1);
    if mday > 0 {
      CountIs(year, month, weekday, mday - 1);
      WeekdaysAdvance(year, month, mday);
      CountStep(WeekdayOn(year, month, 1), weekday, mday);
    }
  }

  lemma WeekdayRange(year: int, month: int, mday: int)
    requires 0 <= month < 12
    ensures 0 <= WeekdayOn(year, month, mday) < 7
  {
  }

  lemma CountStep(w1: int, weekday: int, mday: int)
    requires 0 <= w1 < 7 && 0 <= weekday < 7 && mday > 0
    ensures var first := (weekday - w1 + 7) % 7;
      (mday + 6 - first) / 7 == (mday + 5 - first) / 7 + if (w1 + mday - 1) % 7 == weekday then 1 else 0
  {
    var first := if weekday >= w1 then weekday - w1 else weekday - w1 + 7;
    Split7(weekday - w1 + 7, if weekday >= w1 then 1 else 0, first);
    var m, r := (mday + 6 - first) / 7, (mday + 6 - first) % 7;
    if r == 0 {
      Split7(mday + 5 - first, m - 1, 6);
      Split7(w1 + mday - 1, if weekday >= w1 then m - 1 else m, weekday);
    } else {
      Split7(mday + 5 - first, m, r - 1);
      var q := if weekday >= w1 then m else m + 1;
      assert w1 + mday - 1 == 7 * (q - 1) + weekday + r;
      Split7(w1 + mday - 1, if weekday + r < 7 then q - 1 else q,
             if weekday + r < 7 then weekday + r else weekday + r - 7);
    }
  }

  lemma Split7(y: int, m: int, r: int)
    requires 0 <= r < 7 && y == 7 * m + r
    ensures y / 7 == m && y % 7 == r
  {
  }

  /** The nth weekday of a month is the one day that is that weekday and has exactly n of them up to itself. */
  lemma NthWeekdayExactly(year: int, month: int, weekday: int, n: int, mday: nat)
    requires 0 <= month < 12 && 0 <= weekday < 7 && n >= 1 && mday >= 1
    ensures mday == NthWeekdayOfMonth(year, month, weekday, n) <==>
      WeekdayOn(year, month, mday) == weekday && CountUpTo(year, month, weekday, mday) == n
    ensures n <= 4 ==> NthWeekdayOfMonth(year, month, weekday, n) <= DaysInMonth(year, month)
  {
    hide WeekdayOn, GmTimeUtc, AtHour;
    WeekdayOfMidnightOn(year, month, 1);
    WeekdayRange(year, month, 1);
    WeekdaysAdvance(year, month, mday);
    CountIs(year, month, weekday, mday);
    NthIs(WeekdayOn(year, month, 1), weekday, n, mday);
  }

  lemma WeekdayOfMidnightOn(year: int, month: int, mday: int)
    requires 0 <= month < 12
    ensures GmTimeUtc(AtHour(year, month, mday, 0)).wday == WeekdayOn(year, month, mday)
  {
    WeekdayOfMidnight(year, month, mday);
  }

  lemma NthIs(w1: int, weekday: int, n: int, mday: int)
    requires 0 <= w1 < 7 && 0 <= weekday < 7
    ensures var first := (weekday - w1 + 7) % 7;
      0 <= first < 7 &&
      (mday == 1 + first + (n - 1) * 7 <==> (w1 + mday - 1) % 7 == weekday && (mday + 6 - first) / 7 == n)
  {
    var first := if weekday >= w1 then weekday - w1 else weekday - w1 + 7;
    assert (weekday - w1 + 7) % 7 == first;
    var m, r := (mday + 6 - first) / 7, (mday + 6 - first) % 7;
    assert mday + 6 - first == 7 * m + r;
    assert (w1 + mday - 1) % 7 == weekday <==> r == 0;
  }

  /** The last weekday of a month is the one day of the month that is that weekday with none after it. */
  lemma LastWeekdayExactly(year: int, month: int, weekday: int, mday: nat)
    requires 0 <= month < 12 && 0 <= weekday < 7 && mday <= DaysInMonth(year, month)
    ensures mday == LastWeekdayOfMonth(year, month, weekday) <==>
      WeekdayOn(year, month, mday) == weekday && mday + 7 > DaysInMonth(year, month)
  {
    hide WeekdayOn, GmTimeUtc, AtHour;
    var days := DaysInMonth(year, month);
    WeekdayOfMidnightOn(year, month, days);
    WeekdayRange(year, month, 1);
    WeekdaysAdvance(year, month, mday);
    WeekdaysAdvance(year, month, days);
    LastIs(WeekdayOn(year, month, 1), weekday, days, mday);
  }

  lemma LastIs(w1: int, weekday: int, days: int, mday: int)
    requires 0 <= w1 < 7 && 0 <= weekday < 7 && mday <= days
    ensures mday == days - ((w1 + days - 1) % 7 - weekday + 7) % 7 <==>
      (w1 + mday - 1) % 7 == weekday && mday + 7 > days
  {
    var last := (w1 + days - 1) % 7;
    var diff := if last >= weekday then last - weekday else last - weekday + 7;
    assert (last - weekday + 7) % 7 == diff;
    var q := (w1 + days - 1) / 7;
    assert w1 + days - 1 == 7 * q + last;
    var m, r := (w1 + mday - 1) / 7, (w1 + mday - 1) % 7;
    assert w1 + mday - 1 == 7 * m + r;
  }

  // ----- United States and Canada -----

  const MARCH: int := 2
  const OCTOBER: int := 9
  const NOVEMBER: int := 10

  /** 2:00 local standard time on the second Sunday of March. */
  function UsSpring(year: int, standardOffsetMinutes: int): int {
    AtHour(year, MARCH, NthWeekdayOfMonth(year, MARCH, 0, 2), 2) - standardOffsetMinutes * 60
  }

  /** 2:00 local daylight time on the first Sunday of November. */
  function UsFall(year: int, standardOffsetMinutes: int): int {
    AtHour(year, NOVEMBER, NthWeekdayOfMonth(year, NOVEMBER, 0, 1), 2) - (standardOffsetMinutes + 60) * 60
  }

  predicate UsDaylightOf(year: int, now: int, standardOffsetMinutes: int) {
    UsSpring(year, standardOffsetMinutes) <= now < UsFall(year, standardOffsetMinutes)
  }

  function YearAt(t: int): int {
    GmTimeUtc(t).year + 1900
  }

  predicate IsUsCanadaDstInEffect(now: int, standardOffsetMinutes: int) {
    UsDaylightOf(YearAt(now), now, standardOffsetMinutes)
  }

  /** The second Sunday of March and the first of November are 238 days apart, in every year: 8 March and 1 November
      fall on the same weekday. */
  lemma SundaysApart(year: int)
    ensures var m, n := NthWeekdayOfMonth(year, MARCH, 0, 2), NthWeekdayOfMonth(year, NOVEMBER, 0, 1);
      8 <= m <= 14 && n == m - 7 && DayNumber(year, NOVEMBER, n) == DayNumber(year, MARCH, m) + 238
  {
    hide GmTimeUtc, AtHour, DaysBeforeYear;
    WeekdayOfMidnightOn(year, MARCH, 1);
    WeekdayOfMidnightOn(year, NOVEMBER, 1);
    assert DayNumber(year, NOVEMBER, 1) == DayNumber(year, MARCH, 1) + 245;
    SameWeekday(DayNumber(year, MARCH, 1), 35);
  }

  lemma SameWeekday(day: int, weeks: int)
    ensures Weekday(day + 7 * weeks) == Weekday(day)
  {
    Split7(day + 7 * weeks + 4, (day + 4) / 7 + weeks, (day + 4) % 7);
  }

  /** Daylight time lasts exactly 238 days less one hour, in every year and zone. */
  lemma UsDaylightLength(year: int, standardOffsetMinutes: int)
    ensures UsFall(year, standardOffsetMinutes) - UsSpring(year, standardOffsetMinutes) == 238 * 86400 - 3600
  {
    hide AtHour, DayNumber, NthWeekdayOfMonth;
    SundaysApart(year);
    AtHourIs(year, MARCH, NthWeekdayOfMonth(year, MARCH, 0, 2), 2);
    AtHourIs(year, NOVEMBER, NthWeekdayOfMonth(year, NOVEMBER, 0, 1), 2);
  }

  lemma YearAtIs(t: int, year: int)
    ensures YearAt(t) == year <==> DayNumber(year, 0, 1) * 86400 <= t < DayNumber(year + 1, 0, 1) * 86400
  {
    hide DaysBeforeYear, YearOf, MonthOf;
    var n := t / 86400 + EPOCH_DAY;
    YearOfContains(n);
    if DaysBeforeYear(year) <= n < DaysBeforeYear(year + 1) {
      YearOfUnique(n, year);
    }
  }

  /** Both transitions lie well inside their year, whatever the zone: the spring one at least 59 days after its
      beginning, the autumn one at least 50 before its end. */
  lemma UsDaylightInsideYear(year: int, standardOffsetMinutes: int)
    requires -1440 <= standardOffsetMinutes <= 1440
    ensures (DayNumber(year, 0, 1) + 59) * 86400 <= UsSpring(year, standardOffsetMinutes)
    ensures UsFall(year, standardOffsetMinutes) <= (DayNumber(year + 1, 0, 1) - 50) * 86400
  {
    hide AtHour, NthWeekdayOfMonth, DaysBeforeYear;
    SundaysApart(year);
    YearLength(year);
    AtHourIs(year, MARCH, NthWeekdayOfMonth(year, MARCH, 0, 2), 2);
    AtHourIs(year, NOVEMBER, NthWeekdayOfMonth(year, NOVEMBER, 0, 1), 2);
  }

  /** Taking the UTC year of `now` never gives a wrong answer: it is daylight time exactly when `now` lies in the
      daylight interval of some year. */
  lemma UtcYearIsEnough(now: int, standardOffsetMinutes: int)
    requires -1440 <= standardOffsetMinutes <= 1440
    ensures IsUsCanadaDstInEffect(now, standardOffsetMinutes) <==>
      exists year :: UsSpring(year, standardOffsetMinutes) <= now < UsFall(year, standardOffsetMinutes)
  {
    hide UsSpring, UsFall, YearAt, DayNumber;
    if year :| UsSpring(year, standardOffsetMinutes) <= now < UsFall(year, standardOffsetMinutes) {
      UsDaylightInsideYear(year, standardOffsetMinutes);
      YearAtIs(now, year);
    }
  }

  /** In particular the local standard year gives the same answer. */
  lemma LocalYearGivesTheSame(now: int, standardOffsetMinutes: int)
    requires -1440 <= standardOffsetMinutes <= 1440
    ensures var year := GmTimeUtc(now + standardOffsetMinutes * 60).year + 1900;
      UsSpring(year, standardOffsetMinutes) <= now < UsFall(year, standardOffsetMinutes)
      <==> IsUsCanadaDstInEffect(now, standardOffsetMinutes)
  {
    hide UsSpring, UsFall, GmTimeUtc, DayNumber;
    UtcYearIsEnough(now, standardOffsetMinutes);
    if IsUsCanadaDstInEffect(now, standardOffsetMinutes) {
      var year := YearAt(now);
      UsDaylightInsideYear(year, standardOffsetMinutes);
      YearAtIs(now + standardOffsetMinutes * 60, year);
    }
  }

  /** What is left of this modulo 7 decides on which days of the months from March on the year's Sundays fall. */
  function Dominical(year: int): int {
    year + year / 4 - year / 100 + year / 400
  }

  lemma FirstOfMarch(year: int)
    ensures DaysBeforeYear(year) + DaysBeforeMonth(year, MARCH) == 364 * year + Dominical(year) - 306
  {
    MultiplesUpTo(year);
    DivisibleBy400(year);
  }

  /** On which weekday a day that many days after 1 March falls, without the days before it being counted. */
  lemma WeekdayAfterMarch(year: int, days: int)
    ensures Weekday(DayNumber(year, MARCH, 1) + days) == (Dominical(year) + 3 + days) % 7
  {
    FirstOfMarch(year);
    hide DaysBeforeYear, DaysBeforeMonth, Dominical;
    var n, q := Dominical(year) + 3 + days, (Dominical(year) + 3 + days) / 7;
    assert DayNumber(year, MARCH, 1) + days + 4 == n + 7 * (52 * year - 102781);
    Split7(DayNumber(year, MARCH, 1) + days + 4, q + 52 * year - 102781, n % 7);
  }

  /** The transitions, by formulas that know of no weekdays: the second Sunday of March is a day from the 8th to the
      14th, the first of November lies a week lower, each at 2:00 by the clock that is then left. */
  lemma UsTransitions(year: int, standardOffsetMinutes: int)
    ensures var day := 14 - (year + year / 4 - year / 100 + year / 400 + 2) % 7;
      && UsSpring(year, standardOffsetMinutes)
         == DayNumber(year, 2, day) * 86400 + 2 * 3600 - standardOffsetMinutes * 60
      && UsFall(year, standardOffsetMinutes)
         == DayNumber(year, 10, day - 7) * 86400 + 1 * 3600 - standardOffsetMinutes * 60
  {
    hide DaysBeforeYear, AtHour;
    WeekdayOfMidnightOn(year, MARCH, 1);
    WeekdayAfterMarch(year, 0);
    SundaysApart(year);
    AtHourIs(year, MARCH, NthWeekdayOfMonth(year, MARCH, 0, 2), 2);
    AtHourIs(year, NOVEMBER, NthWeekdayOfMonth(year, NOVEMBER, 0, 1), 2);
    SundayFromFirst(year);
    hide GmTimeUtc;
  }

  lemma SundayFromFirst(year: int)
    ensures NthWeekdayOfMonth(year, MARCH, 0, 2) == 14 - (Dominical(year) + 2) % 7
  {
    hide DaysBeforeYear, AtHour, GmTimeUtc, Dominical;
    WeekdayOfMidnight(year, MARCH, 1);
    WeekdayAfterMarch(year, 0);
    var w := (Dominical(year) + 3) % 7;
    var before := (Dominical(year) + 2) % 7;
    assert before == if w == 0 then 6 else w - 1;
    assert DayNumber(year, MARCH, 1) + 0 == DayNumber(year, MARCH, 1);
  }

  // ----- Europe -----

  /** 1:00 UTC on the last Sunday of March. */
  function EuSpring(year: int): int {
    AtHour(year, MARCH, LastWeekdayOfMonth(year, MARCH, 0), 1)
  }

  /** 1:00 UTC on the last Sunday of October. */
  function EuFall(year: int): int {
    AtHour(year, OCTOBER, LastWeekdayOfMonth(year, OCTOBER, 0), 1)
  }

  predicate IsEuDstInEffect(now: int) {
    EuSpring(YearAt(now)) <= now < EuFall(YearAt(now))
  }

  lemma EuSundays(year: int)
    ensures var m, o := LastWeekdayOfMonth(year, MARCH, 0), LastWeekdayOfMonth(year, OCTOBER, 0);
      && 25 <= m <= 31 && o == (if m >= 29 then m - 4 else m + 3)
      && DayNumber(year, OCTOBER, o) == DayNumber(year, MARCH, m) + 214 + o - m
  {
    hide GmTimeUtc, AtHour, DaysBeforeYear;
    WeekdayOfMidnightOn(year, MARCH, 31);
    WeekdayOfMidnightOn(year, OCTOBER, 31);
    assert DayNumber(year, OCTOBER, 31) == DayNumber(year, MARCH, 31) + 214;
    LaterWeekday(DayNumber(year, MARCH, 31), 30, 4);
  }

  lemma LaterWeekday(day: int, weeks: int, days: int)
    requires 0 <= days < 7
    ensures Weekday(day + 7 * weeks + days) == (Weekday(day) + days) % 7
  {
    var q, w := (day + 4) / 7, (day + 4) % 7;
    var carry := if w + days < 7 then 0 else 1;
    Split7(w + days, carry, w + days - 7 * carry);
    Split7(day + 7 * weeks + days + 4, q + weeks + carry, w + days - 7 * carry);
  }

  /** Summer time lasts 30 weeks when the last Sunday of March is the 29th or later, 31 weeks otherwise. */
  lemma EuDaylightLength(year: int)
    ensures EuFall(year) - EuSpring(year) ==
      (if LastWeekdayOfMonth(year, MARCH, 0) >= 29 then 210 else 217) * 86400
  {
    hide AtHour, DayNumber, LastWeekdayOfMonth;
    EuSundays(year);
    AtHourIs(year, MARCH, LastWeekdayOfMonth(year, MARCH, 0), 1);
    AtHourIs(year, OCTOBER, LastWeekdayOfMonth(year, OCTOBER, 0), 1);
  }

  /** It is summer time exactly when `now` lies in the interval of some year. */
  lemma EuUtcYearIsEnough(now: int)
    ensures IsEuDstInEffect(now) <==> exists year :: EuSpring(year) <= now < EuFall(year)
  {
    hide EuSpring, EuFall, YearAt, DayNumber;
    if year :| EuSpring(year) <= now < EuFall(year) {
      EuInsideYear(year);
      YearAtIs(now, year);
    }
  }

  lemma EuInsideYear(year: int)
    ensures DayNumber(year, 0, 1) * 86400 <= EuSpring(year) && EuFall(year) < DayNumber(year + 1, 0, 1) * 86400
  {
    hide AtHour, LastWeekdayOfMonth, DaysBeforeYear;
    EuSundays(year);
    YearLength(year);
    AtHourIs(year, MARCH, LastWeekdayOfMonth(year, MARCH, 0), 1);
    AtHourIs(year, OCTOBER, LastWeekdayOfMonth(year, OCTOBER, 0), 1);
  }

  /** The transitions, by formulas that know of no weekdays. */
  lemma EuTransitions(year: int)
    ensures var d := year + year / 4 - year / 100 + year / 400;
      && EuSpring(year) == DayNumber(year, 2, 31 - (d + 5) % 7) * 86400 + 3600
      && EuFall(year) == DayNumber(year, 9, 31 - (d + 2) % 7) * 86400 + 3600
  {
    hide DaysBeforeYear, AtHour;
    LastSundays(year);
    AtHourIs(year, MARCH, LastWeekdayOfMonth(year, MARCH, 0), 1);
    AtHourIs(year, OCTOBER, LastWeekdayOfMonth(year, OCTOBER, 0), 1);
    hide GmTimeUtc, LastWeekdayOfMonth;
  }

  lemma LastSundays(year: int)
    ensures LastWeekdayOfMonth(year, MARCH, 0) == 31 - (Dominical(year) + 5) % 7
    ensures LastWeekdayOfMonth(year, OCTOBER, 0) == 31 - (Dominical(year) + 2) % 7
  {
    hide AtHour, GmTimeUtc, Dominical, DaysBeforeYear;
    WeekdayOfMidnight(year, MARCH, 31);
    WeekdayOfMidnight(year, OCTOBER, 31);
    WeekdayAfterMarch(year, 30);
    WeekdayAfterMarch(year, 244);
    assert DayNumber(year, MARCH, 31) == DayNumber(year, MARCH, 1) + 30;
    assert DayNumber(year, OCTOBER, 31) == DayNumber(year, MARCH, 1) + 244;
    var n := Dominical(year);
    assert (n + 33) % 7 == (n + 5) % 7 && (n + 247) % 7 == (n + 2) % 7;
  }
}
