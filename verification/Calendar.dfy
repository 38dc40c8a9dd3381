/**
 Calendar arithmetic of the clock driver (kernel/rtc.c): dates to seconds since 1970 and back.
 */
module Calendar {
  const U32: nat := 0x1_0000_0000
  const DAY: nat := 86400

  datatype Time = Time(year: nat, month: nat, day: nat, hour: nat, minute: nat, second: nat)

  predicate Leap(y: nat) { (y % 4 == 0 && y % 100 != 0) || y % 400 == 0 }

  function YearDays(y: nat): nat { if Leap(y) then 366 else 365 }

  const LENGTHS: seq<nat> := [31, 28, 31, 30, 31, 30, 31, 31, 30, 31, 30, 31]
  const BEFORE: seq<nat> := [0, 31, 59, 90, 120, 151, 181, 212, 243, 273, 304, 334]

  /** Days of month m (from 1) in year y. */
  function MonthDays(y: nat, m: nat): nat
    requires 1 <= m <= 12
  {
    if m == 2 && Leap(y) then 29 else LENGTHS[m - 1]
  }

  /** Days from the first of January 1970 to the first of January of year y. */
  function DaysTo(y: nat): nat { if y <= 1970 then 0 else DaysTo(y - 1) + YearDays(y - 1) }

  /** Days of year y before month m, as the source's table has them. */
  function MonthStart(y: nat, m: nat): nat
    requires 1 <= m <= 12
  {
    BEFORE[m - 1] + (if m > 2 && Leap(y) then 1 else 0)
  }

  /** Accepted by the conversion to seconds. */
  predicate InRange(t: Time) {
    t.year >= 1970 && 1 <= t.month <= 12 && 1 <= t.day <= 31 && t.hour <= 23 && t.minute <= 59 && t.second <= 59
  }

  /** A date that exists. */
  predicate Exists(t: Time) { InRange(t) && t.day <= MonthDays(t.year, t.month) }

  function Seconds(t: Time): nat
    requires InRange(t)
  {
    (DaysTo(t.year) + MonthStart(t.year, t.month) + t.day - 1) * DAY + t.hour * 3600 + t.minute * 60 + t.second
  }

  /** rtc_time_to_epoch_seconds, in 32 bits. */
  method ToEpoch(t: Time) returns (e: nat)
    ensures e == if InRange(t) then Seconds(t) % U32 else 0
    ensures t.year >= 1970 && 1 <= t.month <= 12 && 1 <= t.day <= 31 && t.hour <= 23 && t.minute <= 59 && t.second <= 59 ==>
      e == (CivilDays(t) * 86400 + t.hour * 3600 + t.minute * 60 + t.second) % 0x1_0000_0000
    ensures e != 0 ==> t.year >= 1970 && 1 <= t.month <= 12 && 1 <= t.day <= 31 && t.hour <= 23 && t.minute <= 59 && t.second <= 59
  {
    if InRange(t) { CivilSeconds(t); }
    if t.year < 1970 || t.month < 1 || t.month > 12 || t.day < 1 || t.day > 31 || t.hour > 23 || t.minute > 59 || t.second > 59 { return 0; }
    var days := 0;
    for y := 1970 to t.year
      invariant days == DaysTo(y)
    {
      days := days + (if Leap(y) then 366 else 365);
    }
    days := days + BEFORE[t.month - 1];
    if t.month > 2 && Leap(t.year) { days := days + 1; }
    days := days + (t.day - 1);
    return (days * DAY + t.hour * 3600 + t.minute * 60 + t.second) % U32;
  }

  /** The months of a year follow each other, and end where the year ends. */
  lemma MonthsAddUp(y: nat, m: nat)
    requires 1 <= m <= 12
    ensures MonthStart(y, m) + MonthDays(y, m) == if m == 12 then YearDays(y) else MonthStart(y, m + 1)
  {
    if m == 2 { assert BEFORE[2] == 59; }
  }

  lemma LengthIs(y: nat, m: nat)
    requires m < 12
    ensures MonthDays(y, m + 1) == (if m == 1 && Leap(y) then 29 else LENGTHS[m]) <= 31
  {
    hide Leap;
  }

  /** rtc_epoch_to_calendar: the date that exists and is that many seconds after the start of 1970. */
  method ToCalendar(e: nat) returns (t: Time)
    ensures Exists(t) && Seconds(t) == e
    ensures CivilDays(t) == e / 86400 && t.hour * 3600 + t.minute * 60 + t.second == e % 86400
    ensures t.year >= 1970 && 1 <= t.month <= 12 && 1 <= t.day <= 31 && t.hour <= 23 && t.minute <= 59 && t.second <= 59
  {
    hide CivilDays, MonthDays, Leap;
    var days: nat, rem: nat := e / DAY, e % DAY;
    var hour, minute, second := rem / 3600, rem % 3600 / 60, rem % 60;
    assert rem == hour * 3600 + minute * 60 + second && hour <= 23;
    var year := 1970;
    while true
      invariant year >= 1970 && DaysTo(year) + days == e / DAY
      decreases days
    {
      var yearDays := if Leap(year) then 366 else 365;
      if days < yearDays { break; }
      days := days - yearDays;
      year := year + 1;
    }
    var month := 0;
    while true
      invariant 0 <= month < 12 && MonthStart(year, month + 1) + days < YearDays(year)
      invariant DaysTo(year) + MonthStart(year, month + 1) + days == e / DAY
      decreases 12 - month
    {
      var len := LENGTHS[month];
      if month == 1 && Leap(year) { len := 29; }
      LengthIs(year, month);
      MonthsAddUp(year, month + 1);
      if days < len { break; }
      days := days - len;
      month := month + 1;
    }
    t := Time(year, month + 1, days + 1, hour, minute, second);
    CivilSeconds(t);
  }

  // ----- the Gregorian calendar, in closed form --------------------------------------------------------

  /**
   Days from the first of January 1970 to a date, without a table and without a test for leap
   years: a year counted from March ends with its leap day, and its months are 153/5 days long.
   */
  ghost function CivilDays(t: Time): int {
    var y := if t.month <= 2 then t.year - 1 else t.year;
    var m := (t.month + 9) % 12;
    365 * y + y / 4 - y / 100 + y / 400 + (153 * m + 2) / 5 + t.day - 719469
  }

  lemma {:induction false} YearStart(y: nat)
    requires y >= 1970
    ensures DaysTo(y) == 365 * y + (y - 1) / 4 - (y - 1) / 100 + (y - 1) / 400 - 719527
    decreases y
  {
    if y > 1970 {
      YearStart(y - 1);
      Steps(y - 1);
      Multiples(y - 1);
    }
  }

  /** A quotient steps exactly at the multiples of the divisor. */
  lemma Steps(y: nat)
    requires y > 0
    ensures y / 4 == (y - 1) / 4 + (if y % 4 == 0 then 1 else 0)
    ensures y / 100 == (y - 1) / 100 + (if y % 100 == 0 then 1 else 0)
    ensures y / 400 == (y - 1) / 400 + (if y % 400 == 0 then 1 else 0)
  {
  }

  lemma Multiples(y: nat)
    ensures y % 400 == 0 ==> y % 100 == 0
    ensures y % 100 == 0 ==> y % 4 == 0
  {
    Multiple(y, 100, 4);
    Multiple(y, 4, 25);
  }

  lemma Multiple(y: nat, a: nat, b: nat)
    requires a > 0 && b > 0 && (a == 4 || a == 100)
    ensures a * b > 0 && (y % (a * b) == 0 ==> y % a == 0)
  {
    if y % (a * b) == 0 {
      var k := y / (a * b);
      assert y == a * b * k;
      assert y == a * (b * k);
    }
  }

  lemma MonthTable(t: Time)
    requires 1 <= t.month <= 12
    ensures MonthStart(t.year, t.month) ==
      (153 * ((t.month + 9) % 12) + 2) / 5 + (if t.month <= 2 then -306 else 59 + (if Leap(t.year) then 1 else 0))
  {
    var m := t.month;
    if m <= 3 {
    } else if m <= 6 {
    } else if m <= 9 {
    }
  }

  /** The seconds of a date are its days in closed form. */
  lemma CivilSeconds(t: Time)
    requires InRange(t)
    ensures DaysTo(t.year) + MonthStart(t.year, t.month) + t.day - 1 == CivilDays(t) >= 0
    ensures Seconds(t) == CivilDays(t) * 86400 + t.hour * 3600 + t.minute * 60 + t.second
  {
    hide MonthStart, DaysTo;
    var y := t.year;
    YearStart(y);
    MonthTable(t);
    if t.month > 2 {
      Steps(y);
      Multiples(y);
    }
  }

  // ----- there and back ---------------------------------------------------------------------------------

  lemma {:induction false} DaysMono(a: nat, b: nat)
    requires 1970 <= a < b
    ensures DaysTo(a) + YearDays(a) <= DaysTo(b)
    decreases b
  {
    if a < b - 1 { DaysMono(a, b - 1); }
  }

  lemma {:induction false} StartsMono(y: nat, a: nat, b: nat)
    requires 1 <= a < b <= 12
    ensures MonthStart(y, a) + MonthDays(y, a) <= MonthStart(y, b)
    decreases b
  {
    if a < b - 1 {
      StartsMono(y, a, b - 1);
      MonthsAddUp(y, b - 1);
    } else {
      MonthsAddUp(y, a);
    }
  }

  lemma WithinYear(t: Time)
    requires Exists(t)
    ensures MonthStart(t.year, t.month) + t.day <= YearDays(t.year)
  {
    MonthsAddUp(t.year, t.month);
    if t.month < 12 {
      StartsMono(t.year, t.month, 12);
      MonthsAddUp(t.year, 12);
    }
  }

  /** Different dates that exist are different numbers of seconds. */
  lemma SecondsUnique(a: Time, b: Time)
    requires Exists(a) && Exists(b) && Seconds(a) == Seconds(b)
    ensures a == b
  {
    var da, db := DaysTo(a.year) + MonthStart(a.year, a.month) + a.day - 1, DaysTo(b.year) + MonthStart(b.year, b.month) + b.day - 1;
    assert da == db && a.hour == b.hour && a.minute == b.minute && a.second == b.second;
    SameDay(a, b);
  }

  lemma SameDay(a: Time, b: Time)
    requires Exists(a) && Exists(b)
    requires DaysTo(a.year) + MonthStart(a.year, a.month) + a.day == DaysTo(b.year) + MonthStart(b.year, b.month) + b.day
    ensures a.year == b.year && a.month == b.month && a.day == b.day
  {
    WithinYear(a);
    WithinYear(b);
    if a.year < b.year { DaysMono(a.year, b.year); }
    if b.year < a.year { DaysMono(b.year, a.year); }
    if a.month < b.month { StartsMono(a.year, a.month, b.month); }
    if b.month < a.month { StartsMono(a.year, b.month, a.month); }
  }

  /** Both round trips: every 32-bit time, and every date that exists and fits 32 bits. */
  method RoundTrips(e: nat, t: Time) returns (back: nat, again: Time)
    requires e < U32 && Exists(t) && Seconds(t) < U32
    ensures back == e && again == t
  {
    hide CivilDays, Seconds, InRange, MonthDays;
    var date := ToCalendar(e);
    back := ToEpoch(date);
    var seconds := ToEpoch(t);
    again := ToCalendar(seconds);
    SecondsUnique(again, t);
  }
}
