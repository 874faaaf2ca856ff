/**
 source/kernel/dev/time.c: seconds since 1970 to calendar fields and back.  Seconds are 32-bit
 numbers, and a year is kept in two digits.
 */
module Calendar {

  const MINUTE: int := 60
  const HOUR: int := 3600
  const DAY: int := 86400
  const SECONDS: int := 0x1_0000_0000

  predicate Leap(y: int) {
    y % 4 == 0 && (y % 100 != 0 || y % 400 == 0)
  }

  function YearLen(y: int): int {
    if Leap(y) then 366 else 365
  }

  /** days_in_month */
  function DaysInMonth(m: nat): int
    requires m < 12
  {
    [31, 28, 31, 30, 31, 30, 31, 31, 30, 31, 30, 31][m]
  }

  function MonthLen(y: int, m: nat): int
    requires m < 12
  {
    DaysInMonth(m) + if m == 1 && Leap(y) then 1 else 0
  }

  /** The days from 1970 to the start of year `y`. */
  function DaysBefore(y: int): int {
    if y <= 1970 then 0 else DaysBefore(y - 1) + YearLen(y - 1)
  }

  /** The days from the start of the year to that of month `m`. */
  function MonthStart(y: int, m: nat): int
    requires m <= 12
  {
    if m == 0 then 0 else MonthStart(y, m - 1) + MonthLen(y, m - 1)
  }

  // ---- days and dates ----

  datatype Date = Date(year: int, month: nat, day: int)

  predicate IsDate(d: Date) {
    d.year >= 1970 && d.month < 12 && 1 <= d.day <= MonthLen(d.year, d.month)
  }

  function DayNumber(d: Date): int
    requires d.month < 12
  {
    DaysBefore(d.year) + MonthStart(d.year, d.month) + d.day - 1
  }

  /** The year `d` days after the start of year `y`. */
  function YearOf(y: int, d: nat): int
    decreases d
  {
    if d < YearLen(y) then y else YearOf(y + 1, d - YearLen(y))
  }

  /** The month `d` days after the start of month `m`. */
  function MonthOf(y: int, m: nat, d: nat): nat
    requires m < 12
    decreases 12 - m
  {
    if m == 11 || d < MonthLen(y, m) then m else MonthOf(y, m + 1, d - MonthLen(y, m))
  }

  lemma {:induction false} YearOfFits(y: int, d: nat)
    requires y >= 1970
    ensures var z := YearOf(y, d); y <= z && DaysBefore(z) <= DaysBefore(y) + d < DaysBefore(z) + YearLen(z)
    decreases d
  {
    if d >= YearLen(y) {
      YearOfFits(y + 1, d - YearLen(y));
    }
  }

  lemma {:induction false} MonthOfFits(y: int, m: nat, d: nat)
    requires m < 12 && MonthStart(y, m) + d < YearLen(y)
    ensures var n := MonthOf(y, m, d);
            m <= n < 12 && MonthStart(y, n) <= MonthStart(y, m) + d < MonthStart(y, n) + MonthLen(y, n)
    decreases 12 - m
  {
    YearIsMonths(y);
    if m < 11 && d >= MonthLen(y, m) {
      MonthOfFits(y, m + 1, d - MonthLen(y, m));
    }
  }

  lemma YearIsMonths(y: int)
    ensures MonthStart(y, 11) + MonthLen(y, 11) == YearLen(y)
  {
    var leap := if Leap(y) then 1 else 0;
    assert MonthStart(y, 1) == 31;
    assert MonthStart(y, 2) == 59 + leap;
    assert MonthStart(y, 3) == 90 + leap;
    assert MonthStart(y, 4) == 120 + leap;
    assert MonthStart(y, 5) == 151 + leap;
    assert MonthStart(y, 6) == 181 + leap;
    assert MonthStart(y, 7) == 212 + leap;
    assert MonthStart(y, 8) == 243 + leap;
    assert MonthStart(y, 9) == 273 + leap;
    assert MonthStart(y, 10) == 304 + leap;
    assert MonthStart(y, 11) == 334 + leap;
  }

  lemma {:induction false} YearsGrow(y: int, z: int)
    requires 1970 <= y < z
    ensures DaysBefore(y) + YearLen(y) <= DaysBefore(z)
  {
    if y < z - 1 {
      YearsGrow(y, z - 1);
    }
  }

  lemma {:induction false} MonthsGrow(y: int, m: nat, n: nat)
    requires m < n <= 12
    ensures MonthStart(y, m) + MonthLen(y, m) <= MonthStart(y, n)
  {
    if m < n - 1 {
      MonthsGrow(y, m, n - 1);
    }
  }

  /** The date of a day number. */
  function DateOf(days: nat): Date {
    var y := YearOf(1970, days);
    YearOfFits(1970, days);
    var m := MonthOf(y, 0, days - DaysBefore(y));
    MonthOfFits(y, 0, days - DaysBefore(y));
    Date(y, m, days - DaysBefore(y) - MonthStart(y, m) + 1)
  }

  /** Every day has a date, with all fields in range, and its day number is that day. */
  lemma DateOfDay(days: nat)
    ensures IsDate(DateOf(days)) && DayNumber(DateOf(days)) == days
  {
    var y := YearOf(1970, days);
    YearOfFits(1970, days);
    MonthOfFits(y, 0, days - DaysBefore(y));
  }

  /** Every date is the date of its day number: the two are a bijection. */
  lemma DayOfDate(d: Date)
    requires IsDate(d)
    ensures DayNumber(d) >= 0 && DateOf(DayNumber(d)) == d
  {
    DateInYear(d);
    var days := DayNumber(d);
    DateOfDay(days);
    var e := DateOf(days);
    DateInYear(e);
    if d.year < e.year {
      YearsGrow(d.year, e.year);
    } else if e.year < d.year {
      YearsGrow(e.year, d.year);
    } else if d.month < e.month {
      MonthsGrow(d.year, d.month, e.month);
    } else if e.month < d.month {
      MonthsGrow(d.year, e.month, d.month);
    }
  }

  lemma DateInYear(d: Date)
    requires IsDate(d)
    ensures 0 <= DaysBefore(d.year) <= DayNumber(d) < DaysBefore(d.year) + YearLen(d.year)
  {
    MonthsFrom(d.year, d.month);
    YearIsMonths(d.year);
    if d.month < 11 { MonthsGrow(d.year, d.month, 11); }
    YearsFrom(d.year);
  }

  lemma {:induction false} MonthsFrom(y: int, m: nat)
    requires m <= 12
    ensures MonthStart(y, m) >= 0
  {
    if m > 0 { MonthsFrom(y, m - 1); }
  }

  lemma {:induction false} YearsFrom(y: int)
    ensures DaysBefore(y) >= 0
    decreases if y > 1970 then y - 1970 else 0
  {
    if y > 1970 { YearsFrom(y - 1); }
  }

  // ---- seconds ----

  /** tm_t */
  class Tm {
    var sec: int
    var min: int
    var hour: int
    var mday: int
    var mon: int
    var year: int
    var wday: int
    var yday: int
    var isdst: int

    constructor () {}
  }

  /** The year two digits stand for in mktime. */
  function FullYear(year: int): int {
    1900 + if year < 70 then year + 100 else year
  }

  /** The digits localtime keeps of a year. */
  function TwoDigits(year: int): int {
    if year - 1900 >= 100 then year - 2000 else year - 1900
  }

  /** mktime on the fields of a date and a time of day, in 32 bits. */
  function SecondsOf(year: int, mon: nat, mday: int, hour: int, min: int, sec: int): int
    requires mon <= 12
  {
    ((DaysBefore(FullYear(year)) + MonthStart(FullYear(year), mon) + mday - 1) * DAY + hour * HOUR + min * MINUTE +
      sec) % SECONDS
  }

  /** mktime */
  method MkTime(tm: Tm) returns (r: int)
    requires 0 <= tm.mon <= 12
    ensures r == SecondsOf(tm.year, tm.mon, tm.mday, tm.hour, tm.min, tm.sec)
  {
    var year := tm.year;
    var days := 0;
    if year < 70 {
      year := year + 100;
    }
    year := year + 1900;
    var y := 1970;
    while y < year
      invariant 1970 <= y && (y <= year || y == 1970) && days == DaysBefore(y)
    {
      days := days + if Leap(y) then 366 else 365;
      y := y + 1;
    }
    assert days == DaysBefore(year);
    var m := 0;
    while m < tm.mon
      invariant 0 <= m <= tm.mon && days == DaysBefore(year) + MonthStart(year, m)
    {
      days := days + DaysInMonth(m);
      if m == 1 && Leap(year) {
        days := days + 1;
      }
      m := m + 1;
    }
    days := days + tm.mday - 1;
    return (days * DAY + tm.hour * HOUR + tm.min * MINUTE + tm.sec) % SECONDS;
  }

  /** localtime: the date of the day and the time of day, all in range; the year in two digits. */
  method LocalTime(tm: Tm, time: nat) returns (r: int)
    requires time < SECONDS
    modifies tm
    ensures r == 0
    ensures var d := DateOf(time / DAY);
            && tm.year == TwoDigits(d.year) && tm.mon == d.month && tm.mday == d.day
            && tm.yday == time / DAY - DaysBefore(d.year)
    ensures time % DAY == tm.hour * HOUR + tm.min * MINUTE + tm.sec
    ensures 0 <= tm.hour < 24 && 0 <= tm.min < 60 && 0 <= tm.sec < 60
    ensures tm.wday == (time / DAY + 4) % 7 && tm.isdst == 0
  {
    var year := 1970;
    var days := time / DAY;
    var rest := time % DAY;
    tm.hour := rest / HOUR;
    rest := rest % HOUR;
    tm.min := rest / MINUTE;
    tm.sec := rest % MINUTE;
    var total := time / DAY;
    while days >= if Leap(year) then 366 else 365
      invariant days >= 0 && year >= 1970 && days == total - DaysBefore(year)
      invariant YearOf(1970, total) == YearOf(year, days)
      decreases days
    {
      days := days - if Leap(year) then 366 else 365;
      year := year + 1;
    }
    tm.year := year - 1900;
    tm.year := if tm.year >= 100 then tm.year - 100 else tm.year;
    tm.yday := days;
    tm.mon, days := MonthLoop(year, days);
    tm.mday := days + 1;
    tm.wday := (time / DAY + 4) % 7;
    tm.isdst := 0;
    return 0;
  }

  /** The second loop of localtime. */
  method MonthLoop(year: int, yday: nat) returns (month: nat, days: int)
    requires yday < YearLen(year)
    ensures month < 12 && month == MonthOf(year, 0, yday) && days == yday - MonthStart(year, month)
  {
    month := 0;
    days := yday;
    YearIsMonths(year);
    while days >= DaysInMonth(month) + if month == 1 && Leap(year) then 1 else 0
      invariant month < 12 && days >= 0 && days == yday - MonthStart(year, month)
      invariant MonthOf(year, 0, yday) == MonthOf(year, month, days)
      decreases 12 - month
    {
      days := days - (DaysInMonth(month) + if month == 1 && Leap(year) then 1 else 0);
      month := month + 1;
    }
  }

  // ---- the round trip ----

  const LIMIT: int := 3155760000   // 2070-01-01, where two digits start over

  lemma {:induction false} DaysClosed(y: int)
    requires y >= 1970
    ensures DaysBefore(y) == 365 * (y - 1970) + (y - 1) / 4 - (y - 1) / 100 + (y - 1) / 400 - 477
  {
    if y > 1970 {
      DaysClosed(y - 1);
      Leaps(y - 1);
    }
  }

  lemma Leaps(y: int)
    requires y >= 1970
    ensures y / 4 - y / 100 + y / 400 == (y - 1) / 4 - (y - 1) / 100 + (y - 1) / 400 + if Leap(y) then 1 else 0
  {
    assert y / 4 == (y - 1) / 4 + if y % 4 == 0 then 1 else 0;
    assert y / 100 == (y - 1) / 100 + if y % 100 == 0 then 1 else 0;
    assert y / 400 == (y - 1) / 400 + if y % 400 == 0 then 1 else 0;
  }

  /** From 2070 on the year comes back a century too early, and with it the day. */
  lemma CenturyLost(d: Date)
    requires IsDate(d) && 2070 <= d.year < 2200
    ensures 0 <= DaysBefore(d.year - 100) + MonthStart(d.year - 100, d.month) + d.day - 1 < DayNumber(d)
  {
    DaysClosed(d.year);
    DaysClosed(d.year - 100);
    MonthStartLeap(d.year, d.month);
    MonthStartLeap(d.year - 100, d.month);
    MonthsFrom(d.year - 100, d.month);
    YearsFrom(d.year - 100);
  }

  lemma {:induction false} MonthStartLeap(y: int, m: nat)
    requires m <= 12
    ensures MonthStart(y, m) == MonthStart(1970, m) + if m > 1 && Leap(y) then 1 else 0
  {
    if m > 0 {
      MonthStartLeap(y, m - 1);
    }
  }

  lemma YearBound(days: nat)
    requires days < 49711
    ensures DateOf(days).year < 2110
    ensures DateOf(days).year < 2070 <==> days < 36525
  {
    hide MonthStart, YearLen, Leap, DateOf;
    DateOfDay(days);
    var d := DateOf(days);
    DateInYear(d);
    DaysClosed(d.year);
    DaysClosed(2070);
    if d.year >= 2070 {
      if d.year > 2070 { YearsGrow(2070, d.year); }
    } else {
      YearsGrow(d.year, 2070);
    }
  }

  /** mktime of what localtime gives is the time again exactly for the times before 2070. */
  lemma RoundTrip(t: nat, hour: int, min: int, sec: int)
    requires t < SECONDS && t % DAY == hour * HOUR + min * MINUTE + sec
    ensures var d := DateOf(t / DAY);
            d.month < 12 && (SecondsOf(TwoDigits(d.year), d.month, d.day, hour, min, sec) == t <==> t < LIMIT)
  {
    hide DaysBefore, MonthStart, DateOf, MonthLen, YearLen, Leap;
    var days := t / DAY;
    var d := DateOf(days);
    DateOfDay(days);
    YearBound(days);
    if d.year < 2070 {
      assert FullYear(TwoDigits(d.year)) == d.year;
      assert t == days * DAY + t % DAY;
    } else {
      assert FullYear(TwoDigits(d.year)) == d.year - 100;
      CenturyLost(d);
      var early := DaysBefore(d.year - 100) + MonthStart(d.year - 100, d.month) + d.day - 1;
      assert 0 <= early * DAY + t % DAY < days * DAY + t % DAY;
    }
  }

  /** localtime of what mktime gives is the date and the time of day again, for every date from 1970 to 2069. */
  lemma FieldsBack(d: Date, hour: int, min: int, sec: int)
    requires IsDate(d) && d.year < 2070 && 0 <= hour < 24 && 0 <= min < 60 && 0 <= sec < 60
    ensures var t := SecondsOf(TwoDigits(d.year), d.month, d.day, hour, min, sec);
            0 <= t < LIMIT && DateOf(t / DAY) == d && t % DAY == hour * HOUR + min * MINUTE + sec
  {
    hide DaysBefore, MonthStart, DateOf, MonthLen, YearLen, Leap;
    DayOfDate(d);
    DateInYear(d);
    DaysClosed(2070);
    YearsGrow(d.year, 2070);
    assert FullYear(TwoDigits(d.year)) == d.year;
    SplitSeconds(DayNumber(d), hour * HOUR + min * MINUTE + sec);
  }

  lemma SplitSeconds(days: nat, seconds: nat)
    requires days < 36525 && seconds < DAY
    ensures var t := (days * DAY + seconds) % SECONDS; t < LIMIT && t / DAY == days && t % DAY == seconds
  {
    var t := days * DAY + seconds;
    assert t < LIMIT && t % SECONDS == t;
  }
}
