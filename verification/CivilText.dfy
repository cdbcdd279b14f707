/** Timestamps as text: the API's ISO form and the guide's XMLTV form. */
module CivilText {
  import opened Basics
  import opened Decimal
  import opened Gregorian

  // ----- std::stoi on a short field -----

  predicate IsSpace(c: char) {
    c == ' ' || c == '\t' || c == '\n' || c == '\r' || c as int == 11 || c as int == 12
  }

  function SkipSpace(s: string): string {
    if s != "" && IsSpace(s[0]) then SkipSpace(s[1..]) else s
  }

  function DigitRun(s: string): (r: string)
    ensures AllDigits(r)
  {
    if s != "" && IsDigit(s[0]) then [s[0]] + DigitRun(s[1..]) else ""
  }

  /** None is the exception for a field without digits. */
  function Stoi(s: string): Option<int> {
    var u := SkipSpace(s);
    var signed := u != "" && (u[0] == '-' || u[0] == '+');
    var run := DigitRun(if signed then u[1..] else u);
    if run == "" then None else Some(if signed && u[0] == '-' then -(Value(run) as int) else Value(run))
  }

  lemma {:induction false} DigitRunOfDigits(s: string)
    requires AllDigits(s)
    ensures DigitRun(s) == s
  {
    if s != "" {
      assert s[0] in s && forall c <- s[1..] :: c in s;
      DigitRunOfDigits(s[1..]);
    }
  }

  lemma StoiOfDigits(s: string)
    requires AllDigits(s) && s != ""
    ensures Stoi(s) == Some(Value(s))
  {
    assert s[0] in s;
    DigitRunOfDigits(s);
  }

  /** A field may have white space and a sign before its digits, which count up to the first other character; without
      digits there it is no number. */
  lemma StoiExactly(digits: string, tail: string, c: char)
    requires AllDigits(digits) && (tail == "" || !IsDigit(tail[0]))
    ensures digits != "" ==>
              && Stoi(digits + tail) == Some(Value(digits)) && Stoi("+" + digits + tail) == Some(Value(digits))
              && Stoi("-" + digits + tail) == Some(-(Value(digits) as int))
    ensures tail != "" && tail[0] as int !in {9, 10, 11, 12, 13, 32} && tail[0] != '+' && tail[0] != '-' ==>
              Stoi(tail) == None
    ensures Stoi("") == None
    ensures c as int in {9, 10, 11, 12, 13, 32} ==> Stoi([c] + digits + tail) == Stoi(digits + tail)
  {
    hide Stoi, AllDigits, Value, DigitRun;
    if digits != "" {
      DigitsCount(digits, tail);
    }
    assert IsSpace(c) <==> c as int in {9, 10, 11, 12, 13, 32};
    if IsSpace(c) {
      SpaceSkipped(c, digits + tail);
    }
    assert [c] + digits + tail == [c] + (digits + tail);
    if tail == "" || (!IsSpace(tail[0]) && tail[0] != '+' && tail[0] != '-') {
      NoDigitsNoNumber(tail);
    }
    NoDigitsNoNumber("");
  }

  lemma NoDigitsNoNumber(s: string)
    requires s != "" ==> !IsDigit(s[0]) && !IsSpace(s[0]) && s[0] != '+' && s[0] != '-'
    ensures Stoi(s) == None
  {
    hide Value, AllDigits, IsSpace, IsDigit;
    assert SkipSpace(s) == s && DigitRun(s) == "";
  }

  lemma SpaceSkipped(c: char, s: string)
    requires IsSpace(c)
    ensures Stoi([c] + s) == Stoi(s)
  {
    assert ([c] + s)[1..] == s && ([c] + s)[0] == c;
    assert SkipSpace([c] + s) == SkipSpace(s);
  }

  lemma {:induction false} DigitRunStops(s: string, tail: string)
    requires AllDigits(s) && (tail == "" || !IsDigit(tail[0]))
    ensures DigitRun(s + tail) == s
  {
    if s == "" {
      assert s + tail == tail;
    } else {
      assert s[0] in s && forall c <- s[1..] :: c in s;
      assert (s + tail)[1..] == s[1..] + tail;
      DigitRunStops(s[1..], tail);
    }
  }

  lemma DigitsCount(s: string, tail: string)
    requires AllDigits(s) && s != "" && (tail == "" || !IsDigit(tail[0]))
    ensures Stoi(s + tail) == Some(Value(s)) && Stoi("+" + s + tail) == Some(Value(s))
    ensures Stoi("-" + s + tail) == Some(-(Value(s) as int))
  {
    hide Stoi;
    DigitRunStops(s, tail);
    FirstIsDigit(s, tail);
    Unsigned(s + tail);
    Signed("+", s + tail);
    Signed("-", s + tail);
    assert "+" + s + tail == "+" + (s + tail) && "-" + s + tail == "-" + (s + tail);
  }

  lemma Unsigned(s: string)
    requires s != "" && IsDigit(s[0])
    ensures DigitRun(s) != "" ==> Stoi(s) == Some(Value(DigitRun(s)))
  {
    assert !IsSpace(s[0]) && s[0] != '+' && s[0] != '-';
    hide IsSpace, DigitRun, Value, AllDigits;
    assert SkipSpace(s) == s;
  }

  lemma Signed(sign: string, s: string)
    requires sign == "+" || sign == "-"
    ensures DigitRun(s) != "" ==>
              Stoi(sign + s) == Some(if sign == "-" then -(Value(DigitRun(s)) as int) else Value(DigitRun(s)))
  {
    SignSkipped(sign, s);
    hide SkipSpace, DigitRun, Value, AllDigits;
  }

  lemma SignSkipped(sign: string, s: string)
    requires sign == "+" || sign == "-"
    ensures SkipSpace(sign + s) == sign + s && (sign + s)[1..] == s && (sign + s)[0] == sign[0]
  {
  }

  lemma FirstIsDigit(s: string, tail: string)
    requires AllDigits(s) && s != ""
    ensures IsDigit((s + tail)[0]) && !IsSpace((s + tail)[0])
    ensures (s + tail)[0] != '-' && (s + tail)[0] != '+'
  {
    assert s[0] in s && (s + tail)[0] == s[0];
  }

  /** A printed two-digit field, read back. */
  lemma TwoDigits(n: nat)
    requires n < 100
    ensures |Padded(n, 2)| == 2 && AllDigits(Padded(n, 2)) && Stoi(Padded(n, 2)) == Some(n)
  {
    hide Padded, Stoi;
    assert Pow10(2) == 100 by { assert Pow10(1) == 10; }
    ValueOfPadded(n, 2);
    PaddedWidth(n, 2);
    StoiOfDigits(Padded(n, 2));
  }

  lemma FourDigits(n: nat)
    requires 1000 <= n <= 9999
    ensures |Digits(n)| == 4 && AllDigits(Digits(n)) && Stoi(Digits(n)) == Some(n)
  {
    hide Stoi;
    assert |Digits(n / 1000)| == 1 && n / 10 / 10 / 10 == n / 1000;
    assert |Digits(n / 10 / 10)| == 2 && |Digits(n / 10)| == 3;
    ValueOfDigits(n);
    StoiOfDigits(Digits(n));
  }

  /** The timestamp of six fields, or 0 when one of them is no number. */
  function FromFields(year: Option<int>, month: Option<int>, mday: Option<int>,
                      hour: Option<int>, min: Option<int>, sec: Option<int>): int {
    if year.Some? && month.Some? && mday.Some? && hour.Some? && min.Some? && sec.Some? then
      PortableTimeGm(Tm(year.value - 1900, month.value - 1, mday.value, hour.value, min.value, sec.value, 0, 0))
    else 0
  }

  /** Six fields that print a timestamp's UTC time give that timestamp. */
  lemma FieldsOf(t: int)
    ensures var tm := GmTimeUtc(t);
      FromFields(Some(tm.year + 1900), Some(tm.mon + 1), Some(tm.mday), Some(tm.hour), Some(tm.min), Some(tm.sec)) == t
    ensures var tm := GmTimeUtc(t);
      0 <= tm.mon < 12 && 1 <= tm.mday <= 31 && 0 <= tm.hour < 24 && 0 <= tm.min < 60 && 0 <= tm.sec < 60
  {
    hide GmTimeUtc, DayNumber;
    TimegmAfterGmtime(t);
  }

  // ----- ISO 8601, as the API writes it -----

  function YearText(year: int): string {
    if year < 0 then "-" + Digits(-year) else Digits(year)
  }

  function TwoDigitText(n: int): string {
    if n < 0 then "-" + Padded(-n, 2) else Padded(n, 2)
  }

  function IsoFromTime(t: int): string {
    var tm := GmTimeUtc(t);
    YearText(tm.year + 1900) + "-" + TwoDigitText(tm.mon + 1) + "-" + TwoDigitText(tm.mday) + "T"
    + TwoDigitText(tm.hour) + ":" + TwoDigitText(tm.min) + ":" + TwoDigitText(tm.sec) + "Z"
  }

  function TimeFromIso(s: string): int {
    if |s| < 19 then 0
    else FromFields(Stoi(s[..4]), Stoi(s[5..7]), Stoi(s[8..10]), Stoi(s[11..13]), Stoi(s[14..16]), Stoi(s[17..19]))
  }

  /** What the reader makes of a text with digits in the places of the fields, whatever stands between and behind them;
      a text too short for them is 0. */
  lemma IsoFieldsExactly(s: string)
    ensures |s| < 19 ==> TimeFromIso(s) == 0
    ensures |s| >= 19 && AllDigits(s[..4]) && AllDigits(s[5..7]) && AllDigits(s[8..10]) && AllDigits(s[11..13]) &&
            AllDigits(s[14..16]) && AllDigits(s[17..19]) ==>
              TimeFromIso(s) ==
              PortableTimeGm(Tm(Value(s[..4]) - 1900, Value(s[5..7]) - 1, Value(s[8..10]), Value(s[11..13]),
                                Value(s[14..16]), Value(s[17..19]), 0, 0))
  {
    hide Stoi, AllDigits, Value, PortableTimeGm;
    if |s| >= 19 && AllDigits(s[..4]) && AllDigits(s[5..7]) && AllDigits(s[8..10]) && AllDigits(s[11..13]) &&
       AllDigits(s[14..16]) && AllDigits(s[17..19]) {
      StoiOfDigits(s[..4]);
      StoiOfDigits(s[5..7]);
      StoiOfDigits(s[8..10]);
      StoiOfDigits(s[11..13]);
      StoiOfDigits(s[14..16]);
      StoiOfDigits(s[17..19]);
    }
  }

  /** What is printed, for a year of four digits: year, month from 1, day, hour, minute and second, with the separators
      of the standard form and the Z of UTC. */
  lemma IsoFormExactly(t: int)
    requires 1000 <= GmTimeUtc(t).year + 1900 <= 9999
    ensures var s, tm := IsoFromTime(t), GmTimeUtc(t);
      && |s| == 20 && s[4] == '-' && s[7] == '-' && s[10] == 'T' && s[13] == ':' && s[16] == ':' && s[19] == 'Z'
      && s[..4] == Digits(tm.year + 1900) && tm.mon >= 0 && s[5..7] == Padded(tm.mon + 1, 2)
      && tm.mday > 0 && s[8..10] == Padded(tm.mday, 2) && tm.hour >= 0 && s[11..13] == Padded(tm.hour, 2)
      && tm.min >= 0 && s[14..16] == Padded(tm.min, 2) && tm.sec >= 0 && s[17..19] == Padded(tm.sec, 2)
  {
    hide GmTimeUtc, Padded, Digits, Stoi, FromFields;
    var tm := GmTimeUtc(t);
    FieldsOf(t);
    FourDigits(tm.year + 1900);
    TwoDigits(tm.mon + 1);
    TwoDigits(tm.mday);
    TwoDigits(tm.hour);
    TwoDigits(tm.min);
    TwoDigits(tm.sec);
    IsoLayout(Digits(tm.year + 1900), Padded(tm.mon + 1, 2), Padded(tm.mday, 2), Padded(tm.hour, 2), Padded(tm.min, 2),
              Padded(tm.sec, 2));
    IsoSeparators(Digits(tm.year + 1900), Padded(tm.mon + 1, 2), Padded(tm.mday, 2), Padded(tm.hour, 2),
                  Padded(tm.min, 2), Padded(tm.sec, 2));
  }

  lemma IsoSeparators(y: string, mo: string, d: string, h: string, mi: string, se: string)
    requires |y| == 4 && |mo| == |d| == |h| == |mi| == |se| == 2
    ensures var s := y + "-" + mo + "-" + d + "T" + h + ":" + mi + ":" + se + "Z";
      s[4] == '-' && s[7] == '-' && s[10] == 'T' && s[13] == ':' && s[16] == ':' && s[19] == 'Z'
  {
  }

  lemma IsoLayout(y: string, mo: string, d: string, h: string, mi: string, se: string)
    requires |y| == 4 && |mo| == |d| == |h| == |mi| == |se| == 2
    ensures var s := y + "-" + mo + "-" + d + "T" + h + ":" + mi + ":" + se + "Z";
      |s| == 20 && s[..4] == y && s[5..7] == mo && s[8..10] == d && s[11..13] == h && s[14..16] == mi && s[17..19] == se
  {
  }

  /** Reading back a printed timestamp gives it again, for every instant of the years 1000 to 9999. */
  lemma IsoRoundTrip(t: int)
    requires 1000 <= GmTimeUtc(t).year + 1900 <= 9999
    ensures TimeFromIso(IsoFromTime(t)) == t
  {
    hide GmTimeUtc, Padded, Digits, Stoi, FromFields;
    var tm := GmTimeUtc(t);
    FieldsOf(t);
    FourDigits(tm.year + 1900);
    TwoDigits(tm.mon + 1);
    TwoDigits(tm.mday);
    TwoDigits(tm.hour);
    TwoDigits(tm.min);
    TwoDigits(tm.sec);
    IsoLayout(Digits(tm.year + 1900), Padded(tm.mon + 1, 2), Padded(tm.mday, 2), Padded(tm.hour, 2), Padded(tm.min, 2),
              Padded(tm.sec, 2));
  }

  // ----- XMLTV -----

  function FindSpace(s: string, i: nat): (r: Option<nat>)
    requires i <= |s|
    ensures r.Some? ==> i <= r.value < |s| && s[r.value] == ' ' && forall j :: i <= j < r.value ==> s[j] != ' '
    ensures r.None? ==> forall j :: i <= j < |s| ==> s[j] != ' '
    decreases |s| - i
  {
    if i == |s| then None else if s[i] == ' ' then Some(i) else FindSpace(s, i + 1)
  }

  /** The offset in seconds an " +HHMM" suffix stands for; 0 for anything malformed. */
  function OffsetSeconds(s: string): int {
    var space := FindSpace(s, 0);
    if space.None? || space.value + 5 >= |s| then 0
    else
      var offset := s[space.value + 1..];
      if |offset| < 5 || (offset[0] != '+' && offset[0] != '-') then 0
      else
        var hours, minutes := Stoi(offset[1..3]), Stoi(offset[3..5]);
        if hours.None? || minutes.None? then 0
        else (if offset[0] == '-' then -1 else 1) * (hours.value * 3600 + minutes.value * 60)
  }

  function ParseXmlTvTime(s: string): int {
    if |s| < 14 then 0
    else
      var y, mo, d := Stoi(s[..4]), Stoi(s[4..6]), Stoi(s[6..8]);
      var h, mi, se := Stoi(s[8..10]), Stoi(s[10..12]), Stoi(s[12..14]);
      if y.None? || mo.None? || d.None? || h.None? || mi.None? || se.None? then 0
      else FromFields(y, mo, d, h, mi, se) - OffsetSeconds(s)
  }

  /** What the reader makes of fourteen digits and what follows them. Alone they are UTC; " +HHMM" takes that many hours
      and minutes off, " -HHMM" adds them; a suffix of another shape changes nothing; and a text too short is 0. */
  lemma XmlTvExactly(digits: string, hh: string, mm: string, sign: char, short: string)
    requires |digits| == 14 && AllDigits(digits)
    requires |hh| == |mm| == 2 && AllDigits(hh) && AllDigits(mm) && |short| < 14
    ensures var utc := PortableTimeGm(Tm(DigitsIn(digits, 0, 4) - 1900, DigitsIn(digits, 4, 6) - 1,
                                         DigitsIn(digits, 6, 8), DigitsIn(digits, 8, 10), DigitsIn(digits, 10, 12),
                                         DigitsIn(digits, 12, 14), 0, 0));
      var offset := Value(hh) as int * 3600 + Value(mm) as int * 60;
      && ParseXmlTvTime(digits) == utc
      && ParseXmlTvTime(digits + " " + [sign] + hh + mm) ==
         (if sign == '+' then utc - offset else if sign == '-' then utc + offset else utc)
      && ParseXmlTvTime(short) == 0
  {
    XmlTvPrefix(digits, "");
    assert digits + "" == digits;
    NoSpace(digits);
    var suffix := " " + [sign] + hh + mm;
    assert digits + " " + [sign] + hh + mm == digits + suffix;
    XmlTvPrefix(digits, suffix);
    OffsetOf(digits, hh, mm, sign);
    hide AllDigits, Value, Stoi, PortableTimeGm, OffsetSeconds;
  }

  lemma OffsetParts(sign: char, hh: string, mm: string)
    requires |hh| == |mm| == 2
    ensures var rest := [sign] + hh + mm; |rest| == 5 && rest[0] == sign && rest[1..3] == hh && rest[3..5] == mm
  {
  }

  lemma OffsetAt(s: string, rest: string)
    requires |s| == 20 && FindSpace(s, 0) == Some(14) && s[15..] == rest && |rest| == 5
    requires Stoi(rest[1..3]).Some? && Stoi(rest[3..5]).Some?
    ensures var offset := Stoi(rest[1..3]).value * 3600 + Stoi(rest[3..5]).value * 60;
      OffsetSeconds(s) == if rest[0] == '+' then offset else if rest[0] == '-' then -offset else 0
  {
    hide Stoi, FindSpace;
  }

  lemma BehindSpace(digits: string, rest: string)
    requires |digits| == 14 && |rest| == 5
    ensures |digits + (" " + rest)| == 20 && (digits + (" " + rest))[15..] == rest
  {
  }

  lemma OffsetOf(digits: string, hh: string, mm: string, sign: char)
    requires |digits| == 14 && AllDigits(digits)
    requires |hh| == |mm| == 2 && AllDigits(hh) && AllDigits(mm)
    ensures var offset := Value(hh) as int * 3600 + Value(mm) as int * 60;
      OffsetSeconds(digits + (" " + [sign] + hh + mm)) ==
      if sign == '+' then offset else if sign == '-' then -offset else 0
  {
    hide Stoi, FindSpace, Value, OffsetSeconds;
    StoiOfDigits(hh);
    StoiOfDigits(mm);
    var rest := [sign] + hh + mm;
    OffsetParts(sign, hh, mm);
    assert " " + [sign] + hh + mm == " " + rest;
    SpaceBehind(digits, " " + rest);
    hide AllDigits;
    BehindSpace(digits, rest);
    OffsetAt(digits + (" " + rest), rest);
  }

  /** A field that is no number makes the whole time 0; an offset that is none, or that is cut short, counts as no
      offset. */
  lemma XmlTvMalformed(s: string, rest: string)
    ensures |s| >= 14 && (Stoi(s[..4]).None? || Stoi(s[4..6]).None? || Stoi(s[6..8]).None?) ==> ParseXmlTvTime(s) == 0
    ensures |s| >= 14 && (Stoi(s[8..10]).None? || Stoi(s[10..12]).None? || Stoi(s[12..14]).None?) ==>
              ParseXmlTvTime(s) == 0
    ensures |s| == 14 && AllDigits(s) && |rest| < 5 ==> ParseXmlTvTime(s + " " + rest) == ParseXmlTvTime(s)
    ensures |s| == 14 && AllDigits(s) && |rest| >= 5 && (Stoi(rest[1..3]).None? || Stoi(rest[3..5]).None?) ==>
              ParseXmlTvTime(s + " " + rest) == ParseXmlTvTime(s)
  {
    hide Stoi, FromFields, FindSpace;
    if |s| == 14 && AllDigits(s) {
      XmlTvPrefix(s, "");
      assert s + "" == s;
      NoSpace(s);
      XmlTvPrefix(s, " " + rest);
      assert s + " " + rest == s + (" " + rest);
      SpaceBehind(s, " " + rest);
      hide AllDigits, PortableTimeGm, DigitsIn;
      assert (s + (" " + rest))[15..] == rest && |s + (" " + rest)| == 15 + |rest|;
    }
  }

  function DigitsIn(digits: string, from: nat, to: nat): nat
    requires from <= to <= |digits| && AllDigits(digits)
  {
    Part(digits, from, to);
    Value(digits[from..to])
  }

  lemma Part(digits: string, from: nat, to: nat)
    requires from <= to <= |digits| && AllDigits(digits)
    ensures AllDigits(digits[from..to])
  {
    assert forall c <- digits[from..to] :: c in digits;
  }

  lemma XmlTvPrefix(digits: string, suffix: string)
    requires |digits| == 14 && AllDigits(digits)
    ensures var s := digits + suffix;
      ParseXmlTvTime(s) == PortableTimeGm(Tm(DigitsIn(digits, 0, 4) - 1900, DigitsIn(digits, 4, 6) - 1,
                                             DigitsIn(digits, 6, 8), DigitsIn(digits, 8, 10), DigitsIn(digits, 10, 12),
                                             DigitsIn(digits, 12, 14), 0, 0)) - OffsetSeconds(s)
  {
    hide Stoi, PortableTimeGm, OffsetSeconds, AllDigits, Value;
    var s := digits + suffix;
    assert s[..4] == digits[0..4] && s[4..6] == digits[4..6] && s[6..8] == digits[6..8] && s[8..10] == digits[8..10];
    assert s[10..12] == digits[10..12] && s[12..14] == digits[12..14];
    Part(digits, 0, 4);
    Part(digits, 4, 6);
    Part(digits, 6, 8);
    Part(digits, 8, 10);
    Part(digits, 10, 12);
    Part(digits, 12, 14);
    StoiOfDigits(digits[0..4]);
    StoiOfDigits(digits[4..6]);
    StoiOfDigits(digits[6..8]);
    StoiOfDigits(digits[8..10]);
    StoiOfDigits(digits[10..12]);
    StoiOfDigits(digits[12..14]);
  }

  lemma NoSpace(digits: string)
    requires AllDigits(digits)
    ensures OffsetSeconds(digits) == 0
  {
    forall j | 0 <= j < |digits|
      ensures digits[j] != ' '
    {
      assert digits[j] in digits;
    }
  }

  lemma SpaceBehind(digits: string, suffix: string)
    requires |digits| == 14 && AllDigits(digits) && suffix != "" && suffix[0] == ' '
    ensures FindSpace(digits + suffix, 0) == Some(14)
  {
    hide FindSpace;
    var s := digits + suffix;
    forall i | 0 <= i < 14
      ensures s[i] != ' '
    {
      assert s[i] == digits[i] && digits[i] in digits;
    }
    assert s[14] == ' ';
  }

  function OffsetText(offsetMinutes: int): string {
    var size := if offsetMinutes < 0 then -offsetMinutes else offsetMinutes;
    (if offsetMinutes < 0 then "-" else "+") + Padded(size / 60, 2) + Padded(size % 60, 2)
  }

  /** An instant as a guide prints it in a zone that many minutes ahead of UTC. */
  function PrintXmlTv(t: int, offsetMinutes: int): string {
    var tm := GmTimeUtc(t + offsetMinutes * 60);
    YearText(tm.year + 1900) + TwoDigitText(tm.mon + 1) + TwoDigitText(tm.mday)
    + TwoDigitText(tm.hour) + TwoDigitText(tm.min) + TwoDigitText(tm.sec) + " " + OffsetText(offsetMinutes)
  }

  lemma XmlTvLayout(y: string, mo: string, d: string, h: string, mi: string, se: string, offset: string)
    requires |y| == 4 && |mo| == |d| == |h| == |mi| == |se| == 2 && |offset| == 5
    requires AllDigits(y) && AllDigits(mo) && AllDigits(d) && AllDigits(h) && AllDigits(mi) && AllDigits(se)
    ensures var s := y + mo + d + h + mi + se + " " + offset;
      && |s| == 20 && s[..4] == y && s[4..6] == mo && s[6..8] == d && s[8..10] == h && s[10..12] == mi &&
           s[12..14] == se
      && s[15..] == offset && FindSpace(s, 0) == Some(14)
  {
    hide FindSpace;
    var digits := y + mo + d + h + mi + se;
    var s := digits + " " + offset;
    assert s == y + mo + d + h + mi + se + " " + offset;
    assert AllDigits(digits);
    assert s[14] == ' ';
    forall i | 0 <= i < 14
      ensures s[i] != ' '
    {
      assert s[i] == digits[i] && digits[i] in digits;
    }
  }

  /** Whatever offset a guide prints its times with, the instant is recovered: every whole number of minutes up to
      99:59 either way, for local years 1000 to 9999. */
  lemma XmlTvRoundTrip(t: int, offsetMinutes: int)
    requires -5999 <= offsetMinutes <= 5999
    requires 1000 <= GmTimeUtc(t + offsetMinutes * 60).year + 1900 <= 9999
    ensures ParseXmlTvTime(PrintXmlTv(t, offsetMinutes)) == t
  {
    hide GmTimeUtc, Padded, Digits, Stoi, FromFields, FindSpace, AllDigits;
    var local := t + offsetMinutes * 60;
    var tm, size := GmTimeUtc(local), if offsetMinutes < 0 then -offsetMinutes else offsetMinutes;
    FieldsOf(local);
    FourDigits(tm.year + 1900);
    TwoDigits(tm.mon + 1);
    TwoDigits(tm.mday);
    TwoDigits(tm.hour);
    TwoDigits(tm.min);
    TwoDigits(tm.sec);
    TwoDigits(size / 60);
    TwoDigits(size % 60);
    XmlTvLayout(Digits(tm.year + 1900), Padded(tm.mon + 1, 2), Padded(tm.mday, 2), Padded(tm.hour, 2),
                Padded(tm.min, 2),
                Padded(tm.sec, 2), OffsetText(offsetMinutes));
    var offset := OffsetText(offsetMinutes);
    assert offset[1..3] == Padded(size / 60, 2) && offset[3..5] == Padded(size % 60, 2);
  }
}
