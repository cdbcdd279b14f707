/** For exactly which instants the API's ISO form reads back. The reader takes its fields from fixed places, so what it
    makes of a year that does not print as four characters depends on where the other fields then lie. */
module IsoText {
  import opened Basics
  import opened Decimal
  import opened Gregorian
  import opened CivilText

  // ----- Reading short fields -----

  /** A printed year, read up to its end or to what cannot belong to it. */
  lemma YearReads(y: int, tail: string)
    requires tail == "" || !IsDigit(tail[0])
    ensures Stoi(YearText(y) + tail) == Some(y)
  {
    hide Stoi, Digits;
    ValueOfDigits(if y < 0 then -y else y);
    DigitsCount(Digits(if y < 0 then -y else y), tail);
  }

  lemma LastDigitOf(n: nat, x: char)
    requires n < 100 && !IsDigit(x)
    ensures |Padded(n, 2)| == 2 && Stoi([Padded(n, 2)[1], x]) == Some(n % 10)
  {
    hide Stoi;
    TwoDigits(n);
    var c := DigitChar(n % 10);
    assert Padded(n, 2)[1] == c;
    assert AllDigits([c]) && Value([c]) == n % 10 by {
      ValueAppend("", c);
      assert "" + [c] == [c];
    }
    DigitsCount([c], [x]);
    assert [c] + [x] == [c, x];
  }

  lemma NoNumber(c: char)
    ensures Stoi(['T', c]) == None
  {
  }

  lemma {:induction false} ValueIsBounded(s: string)
    requires AllDigits(s)
    ensures Value(s) < Pow10(|s|)
  {
    if s != "" {
      assert forall c <- s[..|s| - 1] :: c in s;
      ValueIsBounded(s[..|s| - 1]);
      assert s[|s| - 1] in s;
    }
  }

  lemma {:induction false} SkipSpaceShortens(s: string)
    ensures |SkipSpace(s)| <= |s|
  {
    if s != "" && IsSpace(s[0]) {
      SkipSpaceShortens(s[1..]);
    }
  }

  lemma {:induction false} DigitRunShortens(s: string)
    ensures |DigitRun(s)| <= |s|
  {
    if s != "" && IsDigit(s[0]) {
      DigitRunShortens(s[1..]);
    }
  }

  lemma {:induction false} Pow10Ascends(a: nat, b: nat)
    requires a <= b
    ensures Pow10(a) <= Pow10(b)
    decreases b - a
  {
    if a < b {
      Pow10Ascends(a + 1, b);
    }
  }

  lemma StoiIsBounded(s: string, n: nat)
    requires |s| == n >= 1
    ensures Stoi(s).Some? ==> -(Pow10(n - 1) as int) < Stoi(s).value < Pow10(n)
  {
    var u := SkipSpace(s);
    SkipSpaceShortens(s);
    var signed := u != "" && (u[0] == '-' || u[0] == '+');
    var digits := if signed then u[1..] else u;
    DigitRunShortens(digits);
    ValueIsBounded(DigitRun(digits));
    Pow10Ascends(|DigitRun(digits)|, if signed then n - 1 else n);
    Pow10Ascends(n - 1, n);
    hide SkipSpace, DigitRun, Value, Pow10;
  }

  // ----- How wide a year prints -----

  lemma {:induction false} DigitsWidth(n: nat, k: nat)
    requires k >= 1
    ensures |Digits(n)| <= k <==> n < Pow10(k)
  {
    if k == 1 {
      assert Pow10(1) == 10 * Pow10(0);
      if n >= 10 {
        ValueOfDigits(n / 10);
      }
    } else if n >= 10 {
      DigitsWidth(n / 10, k - 1);
    } else {
      Pow10Ascends(1, k);
      assert Pow10(1) == 10 * Pow10(0);
    }
  }

  lemma Powers()
    ensures Pow10(1) == 10 && Pow10(2) == 100 && Pow10(3) == 1000 && Pow10(4) == 10000 && Pow10(5) == 100000
  {
    assert Pow10(0) == 1;
    assert Pow10(1) == 10;
    assert Pow10(2) == 100;
    assert Pow10(3) == 1000;
    assert Pow10(4) == 10000;
  }

  lemma YearWidth(y: int)
    ensures var w := |YearText(y)|;
      && (w <= 2 <==> -9 <= y <= 99) && (w <= 3 <==> -99 <= y <= 999)
      && (w <= 4 <==> -999 <= y <= 9999) && (w <= 5 <==> -9999 <= y <= 99999)
  {
    hide Digits, Pow10;
    var n := if y < 0 then -y else y;
    Powers();
    DigitsWidth(n, 1);
    DigitsWidth(n, 2);
    DigitsWidth(n, 3);
    DigitsWidth(n, 4);
    DigitsWidth(n, 5);
  }

  // ----- Where the fields lie -----

  function Printed(y: string, mo: string, d: string, h: string, mi: string, se: string): string {
    y + "-" + mo + "-" + d + "T" + h + ":" + mi + ":" + se + "Z"
  }

  lemma ThreeWide(y: string, mo: string, d: string, h: string, mi: string, se: string)
    requires |y| == 3 && |mo| == |d| == |h| == |mi| == |se| == 2
    ensures var s := Printed(y, mo, d, h, mi, se);
      && |s| == 19 && s[..4] == y + "-" && s[5..7] == [mo[1], '-'] && s[8..10] == [d[1], 'T']
      && s[11..13] == [h[1], ':'] && s[14..16] == [mi[1], ':'] && s[17..19] == [se[1], 'Z']
  {
    var s := Printed(y, mo, d, h, mi, se);
    assert s[..4] == y + "-";
    assert s[5] == mo[1] && s[6] == '-' && s[8] == d[1] && s[9] == 'T' && s[11] == h[1] && s[12] == ':';
    assert s[14] == mi[1] && s[15] == ':' && s[17] == se[1] && s[18] == 'Z';
  }

  lemma FiveWide(y: string, mo: string, d: string, h: string, mi: string, se: string)
    requires |y| == 5 && |mo| == |d| == |h| == |mi| == |se| == 2
    ensures var s := Printed(y, mo, d, h, mi, se);
      |s| == 21 && s[11..13] == ['T', h[0]]
  {
  }

  lemma PrintedLength(y: string, mo: string, d: string, h: string, mi: string, se: string)
    requires |mo| == |d| == |h| == |mi| == |se| == 2
    ensures |Printed(y, mo, d, h, mi, se)| == |y| + 16
  {
  }

  // ----- Smaller fields are an earlier time -----

  lemma ZeroIsIn1970()
    ensures GmTimeUtc(0).year == 70
  {
    var tm := Tm(70, 0, 1, 0, 0, 0, 4, 0);
    assert DaysBeforeYear(1970) == EPOCH_DAY && DaysBeforeMonth(1970, 0) == 0;
    assert Proper(tm) && PortableTimeGm(tm) == 0;
    GmtimeAfterTimegm(tm);
  }

  /** The day of a month that may lie up to a year before its year begins. */
  function MonthStart(year: int, month: int): int
    requires -1 <= month < 12
  {
    if month == -1 then DaysBeforeYear(year - 1) + DaysBeforeMonth(year - 1, 11)
    else DaysBeforeYear(year) + DaysBeforeMonth(year, month)
  }

  lemma MonthsAgo(year: int, month: int)
    requires 9 <= month < 12
    ensures MonthStart(year, month - 10) < MonthStart(year, month)
  {
    YearLength(year - 1);
    MonthLength(year - 1, 11);
    MonthsAscend(year, if month == 9 then 0 else month - 10, month);
    MonthLength(year, if month == 9 then 0 else month - 10);
    MonthsAscend(year, if month == 9 then 1 else month - 9, month);
  }

  lemma TimeOfFields(y: int, month: int, mday: int, hour: int, min: int, sec: int)
    requires 0 <= month <= 12
    ensures FromFields(Some(y), Some(month), Some(mday), Some(hour), Some(min), Some(sec)) ==
            (MonthStart(y, month - 1) + mday - 1 - EPOCH_DAY) * 86400 + hour * 3600 + min * 60 + sec
  {
    hide DaysBeforeYear, DaysBeforeMonth;
  }

  predicate SingleDigits(tm: Tm) {
    tm.mon + 1 < 10 && tm.mday < 10 && tm.hour < 10 && tm.min < 10 && tm.sec < 10
  }

  lemma SumsTell(day: int, hour: int, min: int, sec: int, day': int, hour': int, min': int, sec': int)
    requires day' <= day && hour' <= hour && min' <= min && sec' <= sec
    ensures day' * 86400 + hour' * 3600 + min' * 60 + sec' == day * 86400 + hour * 3600 + min * 60 + sec
            <==> day' == day && hour' == hour && min' == min && sec' == sec
  {
  }

  lemma LastDigit(n: int)
    requires 0 <= n < 100
    ensures 0 <= n % 10 <= n && (n % 10 == n <==> n < 10)
  {
  }

  /** The timestamp six last digits stand for. */
  function LastDigitsTime(y: int, tm: Tm): int {
    FromFields(Some(y), Some((tm.mon + 1) % 10), Some(tm.mday % 10), Some(tm.hour % 10), Some(tm.min % 10),
               Some(tm.sec % 10))
  }

  lemma SmallerFieldsTell(y: int, tm: Tm, month: int, mday: int, hour: int, min: int, sec: int)
    requires 0 <= tm.mon < 12 && month == (if tm.mon >= 9 then tm.mon - 9 else tm.mon + 1)
    requires mday <= tm.mday && hour <= tm.hour && min <= tm.min && sec <= tm.sec
    ensures FromFields(Some(y), Some(month), Some(mday), Some(hour), Some(min), Some(sec))
            == FromFields(Some(y), Some(tm.mon + 1), Some(tm.mday), Some(tm.hour), Some(tm.min), Some(tm.sec))
            <==> tm.mon < 9 && mday == tm.mday && hour == tm.hour && min == tm.min && sec == tm.sec
  {
    hide FromFields, MonthStart;
    TimeOfFields(y, month, mday, hour, min, sec);
    TimeOfFields(y, tm.mon + 1, tm.mday, tm.hour, tm.min, tm.sec);
    if tm.mon >= 9 {
      MonthsAgo(y, tm.mon);
    }
    SumsTell(MonthStart(y, tm.mon) + tm.mday - 1 - EPOCH_DAY, tm.hour, tm.min, tm.sec,
             MonthStart(y, month - 1) + mday - 1 - EPOCH_DAY, hour, min, sec);
  }

  lemma LastDigitsTell(y: int, tm: Tm)
    requires 0 <= tm.mon < 12 && 1 <= tm.mday <= 31 && 0 <= tm.hour < 24 && 0 <= tm.min < 60 && 0 <= tm.sec < 60
    ensures LastDigitsTime(y, tm)
            == FromFields(Some(y), Some(tm.mon + 1), Some(tm.mday), Some(tm.hour), Some(tm.min), Some(tm.sec))
            <==> SingleDigits(tm)
  {
    hide FromFields;
    LastDigit(tm.mday);
    LastDigit(tm.hour);
    LastDigit(tm.min);
    LastDigit(tm.sec);
    SmallerFieldsTell(y, tm, (tm.mon + 1) % 10, tm.mday % 10, tm.hour % 10, tm.min % 10, tm.sec % 10);
  }

  /** Fields of two characters and a year of four stay far from the years that print wider. */
  lemma FieldsAreNear(year: int, month: int, mday: int, hour: int, min: int, sec: int)
    requires -999 <= year <= 9999 && -9 <= month <= 99 && -9 <= mday <= 99
    requires -9 <= hour <= 99 && -9 <= min <= 99 && -9 <= sec <= 99
    ensures var r := FromFields(Some(year), Some(month), Some(mday), Some(hour), Some(min), Some(sec));
      (DaysBeforeYear(-1001) - EPOCH_DAY - 20) * 86400 < r < (DaysBeforeYear(10010) - EPOCH_DAY + 200) * 86400
  {
    var mon := month - 1;
    var y, m := year + mon / 12, mon % 12;
    MonthsAscend(y, 0, m);
    MonthsAscend(y, m, 12);
    MonthLength(y, 11);
    YearLength(y);
    YearsAscend(-1001, y);
    YearsAscend(y + 1, 10010);
    hide DaysBeforeYear, DaysBeforeMonth;
  }

  lemma DayOf(t: int)
    ensures GmTimeUtc(t).year + 1900 == YearOf(t / 86400 + EPOCH_DAY)
    ensures t / 86400 * 86400 <= t < (t / 86400 + 1) * 86400
  {
    hide DaysBeforeYear, YearOf, DaysBeforeMonth, MonthOf;
  }

  lemma YearIsFar(t: int)
    ensures var y := GmTimeUtc(t).year + 1900;
      && (y >= 100000 ==> t >= (DaysBeforeYear(10010) - EPOCH_DAY + 200) * 86400)
      && (y <= -10000 ==> t <= (DaysBeforeYear(-1001) - EPOCH_DAY - 20) * 86400)
  {
    hide GmTimeUtc, YearOf, DaysBeforeYear;
    DayOf(t);
    var day := t / 86400;
    var y := YearOf(day + EPOCH_DAY);
    YearOfContains(day + EPOCH_DAY);
    if y >= 100000 {
      YearsAscend(10010, y);
    }
    if y <= -10000 {
      YearsAscend(y + 1, -1001);
    }
  }

  // ----- The exact condition -----

  /** The year prints as four characters; or as three, and no field behind it has two digits. */
  predicate ReadsBack(tm: Tm) {
    var y := tm.year + 1900;
    || 1000 <= y <= 9999
    || -999 <= y <= -100
    || ((100 <= y <= 999 || -99 <= y <= -10) && SingleDigits(tm))
  }

  lemma FieldTexts(t: int)
    ensures var tm := GmTimeUtc(t);
      && IsoFromTime(t) == Printed(YearText(tm.year + 1900), Padded(tm.mon + 1, 2), Padded(tm.mday, 2),
                                   Padded(tm.hour, 2), Padded(tm.min, 2), Padded(tm.sec, 2))
      && |Padded(tm.mon + 1, 2)| == |Padded(tm.mday, 2)| == |Padded(tm.hour, 2)| == 2
      && |Padded(tm.min, 2)| == |Padded(tm.sec, 2)| == 2
  {
    hide GmTimeUtc, Padded, YearText, Stoi, FromFields;
    var tm := GmTimeUtc(t);
    FieldsOf(t);
    TwoDigits(tm.mon + 1);
    TwoDigits(tm.mday);
    TwoDigits(tm.hour);
    TwoDigits(tm.min);
    TwoDigits(tm.sec);
  }

  lemma NotInReadersZero(t: int)
    requires GmTimeUtc(t).year != 70
    ensures t != 0
  {
    hide GmTimeUtc;
    ZeroIsIn1970();
  }

  lemma FourWideReadsBack(t: int)
    requires |YearText(GmTimeUtc(t).year + 1900)| == 4
    ensures TimeFromIso(IsoFromTime(t)) == t
  {
    hide GmTimeUtc, Padded, YearText, Stoi, FromFields;
    var tm := GmTimeUtc(t);
    var y := YearText(tm.year + 1900);
    FieldsOf(t);
    YearReads(tm.year + 1900, "");
    assert y + "" == y;
    TwoDigits(tm.mon + 1);
    TwoDigits(tm.mday);
    TwoDigits(tm.hour);
    TwoDigits(tm.min);
    TwoDigits(tm.sec);
    IsoLayout(y, Padded(tm.mon + 1, 2), Padded(tm.mday, 2), Padded(tm.hour, 2), Padded(tm.min, 2), Padded(tm.sec, 2));
  }

  lemma ThreeWideReadsLastDigits(t: int)
    requires |YearText(GmTimeUtc(t).year + 1900)| == 3
    ensures TimeFromIso(IsoFromTime(t)) == LastDigitsTime(GmTimeUtc(t).year + 1900, GmTimeUtc(t))
  {
    hide GmTimeUtc, Padded, YearText, Stoi, FromFields, IsoFromTime, Printed;
    var tm := GmTimeUtc(t);
    var y := YearText(tm.year + 1900);
    FieldTexts(t);
    FieldsOf(t);
    ThreeWide(y, Padded(tm.mon + 1, 2), Padded(tm.mday, 2), Padded(tm.hour, 2), Padded(tm.min, 2), Padded(tm.sec, 2));
    YearReads(tm.year + 1900, "-");
    LastDigitOf(tm.mon + 1, '-');
    LastDigitOf(tm.mday, 'T');
    LastDigitOf(tm.hour, ':');
    LastDigitOf(tm.min, ':');
    LastDigitOf(tm.sec, 'Z');
  }

  lemma ThreeWideExactly(t: int)
    requires |YearText(GmTimeUtc(t).year + 1900)| == 3
    ensures TimeFromIso(IsoFromTime(t)) == t <==> SingleDigits(GmTimeUtc(t))
  {
    hide GmTimeUtc, FromFields, LastDigitsTime, IsoFromTime, TimeFromIso, YearText;
    ThreeWideReadsLastDigits(t);
    FieldsOf(t);
    LastDigitsTell(GmTimeUtc(t).year + 1900, GmTimeUtc(t));
  }

  lemma FiveWideReadsNothing(t: int)
    requires |YearText(GmTimeUtc(t).year + 1900)| == 5
    ensures TimeFromIso(IsoFromTime(t)) == 0
  {
    hide GmTimeUtc, Padded, YearText, Stoi, IsoFromTime, Printed;
    var tm := GmTimeUtc(t);
    FieldTexts(t);
    FieldsOf(t);
    FiveWide(YearText(tm.year + 1900), Padded(tm.mon + 1, 2), Padded(tm.mday, 2), Padded(tm.hour, 2),
             Padded(tm.min, 2), Padded(tm.sec, 2));
    NoNumber(Padded(tm.hour, 2)[0]);
  }

  lemma ReadsNear(s: string)
    requires TimeFromIso(s) != 0
    ensures (DaysBeforeYear(-1001) - EPOCH_DAY - 20) * 86400 < TimeFromIso(s)
            < (DaysBeforeYear(10010) - EPOCH_DAY + 200) * 86400
  {
    hide Stoi, DaysBeforeYear;
    Powers();
    StoiIsBounded(s[..4], 4);
    StoiIsBounded(s[5..7], 2);
    StoiIsBounded(s[8..10], 2);
    StoiIsBounded(s[11..13], 2);
    StoiIsBounded(s[14..16], 2);
    StoiIsBounded(s[17..19], 2);
    hide Pow10;
    if Stoi(s[..4]).Some? && Stoi(s[5..7]).Some? && Stoi(s[8..10]).Some? && Stoi(s[11..13]).Some? &&
       Stoi(s[14..16]).Some? && Stoi(s[17..19]).Some? {
      FieldsAreNear(Stoi(s[..4]).value, Stoi(s[5..7]).value, Stoi(s[8..10]).value, Stoi(s[11..13]).value,
                    Stoi(s[14..16]).value, Stoi(s[17..19]).value);
    }
  }

  /** Reading back a printed timestamp gives it again exactly when its year prints as four characters, or as three with
      no field of two digits behind it, for every instant there is. */
  lemma IsoRoundTripExactly(t: int)
    ensures TimeFromIso(IsoFromTime(t)) == t <==> ReadsBack(GmTimeUtc(t))
  {
    hide GmTimeUtc, YearText, TimeFromIso, IsoFromTime, SingleDigits, DaysBeforeYear;
    var y := GmTimeUtc(t).year + 1900;
    var w := |YearText(y)|;
    YearWidth(y);
    if w == 4 {
      FourWideReadsBack(t);
    } else if w == 3 {
      ThreeWideExactly(t);
    } else {
      NotInReadersZero(t);
      if w <= 2 {
        ShortReadsNothing(t);
      } else if w == 5 {
        FiveWideReadsNothing(t);
      } else {
        YearIsFar(t);
        if TimeFromIso(IsoFromTime(t)) != 0 {
          ReadsNear(IsoFromTime(t));
        }
      }
    }
  }

  lemma ShortReadsNothing(t: int)
    requires |YearText(GmTimeUtc(t).year + 1900)| <= 2
    ensures TimeFromIso(IsoFromTime(t)) == 0
  {
    hide GmTimeUtc, Padded, YearText, Stoi, IsoFromTime, Printed;
    var tm := GmTimeUtc(t);
    FieldTexts(t);
    FieldsOf(t);
    PrintedLength(YearText(tm.year + 1900), Padded(tm.mon + 1, 2), Padded(tm.mday, 2), Padded(tm.hour, 2),
                  Padded(tm.min, 2), Padded(tm.sec, 2));
  }
}
