/**
 * Calendar conversion on the Arduino broadcaster (toUnixTime in
 * gps-broadcaster/arduino/gps_time_broadcaster.ino).
 *
 * The board's `unsigned long` has 32 bits, so the result is taken modulo 2^32.  The day counter is an
 * `int`, of 16 bits on AVR boards and 32 on others; its overflow is undefined and modelled as no result.
 */
module Calendar {
  import opened Common

  const MAX_INT16: int := 32767
  const DAY: nat := 86400

  datatype DateTime = DateTime(year: int, month: int, day: int, hour: int, minute: int, second: int)

  predicate IsLeapYear(year: int) {
    (year % 4 == 0 && year % 100 != 0) || year % 400 == 0
  }

  function YearLength(year: int): nat {
    if IsLeapYear(year) then 366 else 365
  }

  /** Days from 1970-01-01 to the first day of `year`. */
  function YearStart(year: int): nat
    requires year >= 1970
  {
    if year == 1970 then 0 else YearStart(year - 1) + YearLength(year - 1)
  }

  function MonthLength(year: int, month: int): nat
    requires 1 <= month <= 12
  {
    if month == 2 then if IsLeapYear(year) then 29 else 28
    else if month == 4 || month == 6 || month == 9 || month == 11 then 30
    else 31
  }

  /** Days of `year` before the first day of `month`. */
  function MonthStart(year: int, month: int): nat
    requires 1 <= month <= 13
  {
    if month == 1 then 0 else MonthStart(year, month - 1) + MonthLength(year, month - 1)
  }

  function DayCount(year: int, month: int, day: int): int
    requires year >= 1970 && 1 <= month <= 13
  {
    YearStart(year) + MonthStart(year, month) + day - 1
  }

  predicate ValidDate(year: int, month: int, day: int) {
    year >= 1970 && 1 <= month <= 12 && 1 <= day <= MonthLength(year, month)
  }

  predicate Valid(t: DateTime) {
    && ValidDate(t.year, t.month, t.day)
    && 0 <= t.hour < 24 && 0 <= t.minute < 60 && 0 <= t.second < 60
  }

  function Seconds(t: DateTime): int
    requires t.year >= 1970 && 1 <= t.month <= 13
  {
    DayCount(t.year, t.month, t.day) * DAY + t.hour * 3600 + t.minute * 60 + t.second
  }

  /** The day counter never exceeds `maxInt`: neither at the start of the month nor at the end. */
  predicate CounterFits(t: DateTime, maxInt: int)
    requires t.year >= 1970 && 1 <= t.month <= 13
  {
    YearStart(t.year) + MonthStart(t.year, t.month) <= maxInt && DayCount(t.year, t.month, t.day) <= maxInt
  }

  method ToUnixTime(t: DateTime, maxInt: int) returns (r: Option<nat>)
    requires t.year >= 1970 && 1 <= t.month <= 13 && maxInt >= 0
    ensures r.Some? <==> CounterFits(t, maxInt)
    ensures r.Some? ==> r.value == Seconds(t) % TWO_32
  {
    var days: int := 0;
    for y := 1970 to t.year
      invariant days == YearStart(y) <= maxInt
    {
      var length := if IsLeapYear(y) then 366 else 365;
      if days + length > maxInt {
        YearStartGrows(y + 1, t.year);
        return None;
      }
      days := days + length;
    }
    var daysInMonth := new int[][31, 28, 31, 30, 31, 30, 31, 31, 30, 31, 30, 31];
    if IsLeapYear(t.year) {
      daysInMonth[1] := 29;
    }
    assert forall m :: 1 <= m <= 12 ==> daysInMonth[m - 1] == MonthLength(t.year, m);
    for m := 1 to t.month
      invariant days == YearStart(t.year) + MonthStart(t.year, m) <= maxInt
    {
      assert daysInMonth[m - 1] == MonthLength(t.year, m);
      if days + daysInMonth[m - 1] > maxInt {
        MonthStartGrows(t.year, m + 1, t.month);
        return None;
      }
      days := days + daysInMonth[m - 1];
    }
    if days + (t.day - 1) > maxInt {
      return None;
    }
    days := days + (t.day - 1);
    return Some((days * DAY + t.hour * 3600 + t.minute * 60 + t.second) % TWO_32);
  }

  // ----- closed form -----

  /** Days from 1970-01-01 in the proleptic Gregorian calendar, counting years from 1 March and eras of
      400 years, without any loop. */
  function GregorianDays(year: int, month: int, day: int): int {
    var y := if month <= 2 then year - 1 else year;
    var era := y / 400;
    var yearOfEra := y - era * 400;
    var shifted := if month > 2 then month - 3 else month + 9;
    var dayOfYear := (153 * shifted + 2) / 5 + day - 1;
    era * 146097 + yearOfEra * 365 + yearOfEra / 4 - yearOfEra / 100 + dayOfYear - 719468
  }

  function LeapsThrough(year: int): int {
    year / 4 - year / 100 + year / 400
  }

  lemma QuotientSteps(n: int)
    requires n > 0
    ensures n / 4 == (n - 1) / 4 + if n % 4 == 0 then 1 else 0
    ensures n / 100 == (n - 1) / 100 + if n % 100 == 0 then 1 else 0
    ensures n / 400 == (n - 1) / 400 + if n % 400 == 0 then 1 else 0
  {
  }

  lemma Divisibility(n: int)
    requires n > 0
    ensures n % 100 == 0 ==> n % 4 == 0
    ensures n % 400 == 0 ==> n % 100 == 0
  {
    assert n == 100 * (n / 100) + n % 100;
    assert n == 400 * (n / 400) + n % 400;
  }

  lemma LeapCounts(year: int)
    requires year > 0
    ensures LeapsThrough(year) == LeapsThrough(year - 1) + if IsLeapYear(year) then 1 else 0
  {
    QuotientSteps(year);
    Divisibility(year);
  }

  lemma {:induction false} YearStartClosed(year: int)
    requires year >= 1970
    ensures YearStart(year) == 365 * (year - 1970) + LeapsThrough(year - 1) - 477
  {
    if year > 1970 {
      YearStartClosed(year - 1);
      LeapCounts(year - 1);
    }
  }

  lemma MonthStartClosed(year: int, month: int)
    requires 1 <= month <= 12
    ensures MonthStart(year, month) ==
            if month <= 2 then (153 * (month + 9) + 2) / 5 - 306
            else (153 * (month - 3) + 2) / 5 + 59 + if IsLeapYear(year) then 1 else 0
  {
    var jan := MonthStart(year, 1);
    var feb := MonthStart(year, 2);
    var mar := MonthStart(year, 3);
    var apr := MonthStart(year, 4);
    var may := MonthStart(year, 5);
    var jun := MonthStart(year, 6);
    var jul := MonthStart(year, 7);
    var aug := MonthStart(year, 8);
    var sep := MonthStart(year, 9);
    var oct := MonthStart(year, 10);
    var nov := MonthStart(year, 11);
    var dec := MonthStart(year, 12);
  }

  lemma EraSplit(y: int)
    requires y >= 0
    ensures var era := y / 400;
            var yoe := y - era * 400;
            era * 146097 + yoe * 365 + yoe / 4 - yoe / 100 == 365 * y + y / 4 - y / 100 + y / 400
  {
    var era := y / 400;
    var yoe := y - era * 400;
    assert y / 4 == era * 100 + yoe / 4;
    assert y / 100 == era * 4 + yoe / 100;
  }

  /** The two loops compute the Gregorian day number, for every date. */
  lemma DayCountIsGregorian(year: int, month: int, day: int)
    requires year >= 1970 && 1 <= month <= 12
    ensures DayCount(year, month, day) == GregorianDays(year, month, day)
  {
    YearStartClosed(year);
    MonthStartClosed(year, month);
    EraSplit(if month <= 2 then year - 1 else year);
    LeapCounts(year);
  }

  // ----- order -----

  predicate DateBefore(y1: int, m1: int, d1: int, y2: int, m2: int, d2: int) {
    y1 < y2 || (y1 == y2 && (m1 < m2 || (m1 == m2 && d1 < d2)))
  }

  predicate Before(a: DateTime, b: DateTime) {
    || DateBefore(a.year, a.month, a.day, b.year, b.month, b.day)
    || (&& a.year == b.year && a.month == b.month && a.day == b.day
        && (a.hour < b.hour || (a.hour == b.hour &&
            (a.minute < b.minute || (a.minute == b.minute && a.second < b.second)))))
  }

  lemma {:induction false} YearStartGrows(a: int, b: int)
    requires 1970 <= a <= b
    ensures YearStart(a) <= YearStart(b)
    decreases b
  {
    if a < b {
      YearStartGrows(a, b - 1);
    }
  }

  lemma {:induction false} MonthStartGrows(year: int, a: int, b: int)
    requires 1 <= a <= b <= 13
    ensures MonthStart(year, a) <= MonthStart(year, b)
    decreases b
  {
    if a < b {
      MonthStartGrows(year, a, b - 1);
    }
  }

  lemma YearEnds(year: int)
    ensures MonthStart(year, 13) == YearLength(year)
  {
    MonthStartClosed(year, 12);
  }

  lemma DatesIncrease(y1: int, m1: int, d1: int, y2: int, m2: int, d2: int)
    requires ValidDate(y1, m1, d1) && ValidDate(y2, m2, d2)
    requires DateBefore(y1, m1, d1, y2, m2, d2)
    ensures DayCount(y1, m1, d1) < DayCount(y2, m2, d2)
  {
    if y1 < y2 {
      MonthStartGrows(y1, m1 + 1, 13);
      YearEnds(y1);
      YearStartGrows(y1 + 1, y2);
    } else if m1 < m2 {
      MonthStartGrows(y1, m1 + 1, m2);
    }
  }

  /** Later date-times give strictly larger counts. */
  lemma SecondsIncrease(a: DateTime, b: DateTime)
    requires Valid(a) && Valid(b) && Before(a, b)
    ensures Seconds(a) < Seconds(b)
  {
    if DateBefore(a.year, a.month, a.day, b.year, b.month, b.day) {
      DatesIncrease(a.year, a.month, a.day, b.year, b.month, b.day);
    }
  }

  /** The result takes apart again: the days are the Gregorian day number, and hour, minute and second are
      what they were. */
  lemma SecondsDecompose(t: DateTime)
    requires Valid(t)
    ensures Seconds(t) / 86400 == GregorianDays(t.year, t.month, t.day)
    ensures Seconds(t) % 86400 / 3600 == t.hour && Seconds(t) % 3600 / 60 == t.minute && Seconds(t) % 60 == t.second
  {
    DayCountIsGregorian(t.year, t.month, t.day);
    TakeApart(DayCount(t.year, t.month, t.day), t.hour, t.minute, t.second);
  }

  lemma TakeApart(days: int, hour: int, minute: int, second: int)
    requires 0 <= hour < 24 && 0 <= minute < 60 && 0 <= second < 60
    ensures var n := days * 86400 + hour * 3600 + minute * 60 + second;
            && n / 86400 == days && n % 86400 / 3600 == hour && n % 3600 / 60 == minute && n % 60 == second
  {
    var n := days * 86400 + hour * 3600 + minute * 60 + second;
    ByDay(n, days, hour * 3600 + minute * 60 + second);
    ByHour(n, days * 24 + hour, minute * 60 + second);
    ByHour(hour * 3600 + minute * 60 + second, hour, minute * 60 + second);
    ByMinute(n, days * 1440 + hour * 60 + minute, second);
    ByMinute(minute * 60 + second, minute, second);
  }

  lemma ByDay(n: int, q: int, r: int)
    requires n == q * 86400 + r && 0 <= r < 86400
    ensures n / 86400 == q && n % 86400 == r
  {
  }

  lemma ByHour(n: int, q: int, r: int)
    requires n == q * 3600 + r && 0 <= r < 3600
    ensures n / 3600 == q && n % 3600 == r
  {
  }

  lemma ByMinute(n: int, q: int, r: int)
    requires n == q * 60 + r && 0 <= r < 60
    ensures n / 60 == q && n % 60 == r
  {
  }

  /** A GPS sentence carries two year digits, read as 2000 to 2099: the result never wraps, so it keeps
      the order of the date-times. */
  lemma TwoDigitYearsFit(t: DateTime)
    requires Valid(t) && t.year <= 2099
    ensures 0 <= Seconds(t) < TWO_32
  {
    YearStartGrows(t.year, 2099);
    YearStartClosed(2099);
    MonthStartGrows(t.year, t.month + 1, 13);
    YearEnds(t.year);
  }

  /** On a 16-bit board the conversion of a valid date is defined exactly through 2059-09-18, and there it
      is the number of seconds since 1970 without wrapping. */
  lemma ConvertsExactly(t: DateTime)
    requires Valid(t)
    ensures CounterFits(t, MAX_INT16) <==> !DateBefore(2059, 9, 18, t.year, t.month, t.day)
    ensures CounterFits(t, MAX_INT16) ==> Seconds(t) % TWO_32 == Seconds(t)
  {
    DayCountFits(t.year, t.month, t.day);
    if CounterFits(t, MAX_INT16) {
      TwoDigitYearsFit(t);
    }
  }

  /** The 16-bit day counter holds exactly the dates through 2059-09-18. */
  lemma DayCountFits(year: int, month: int, day: int)
    requires ValidDate(year, month, day)
    ensures DayCount(year, month, day) <= MAX_INT16 <==> !DateBefore(2059, 9, 18, year, month, day)
  {
    DayCountIsGregorian(2059, 9, 18);
    assert DayCount(2059, 9, 18) == MAX_INT16;
    if DateBefore(2059, 9, 18, year, month, day) {
      DatesIncrease(2059, 9, 18, year, month, day);
    } else if DateBefore(year, month, day, 2059, 9, 18) {
      DatesIncrease(year, month, day, 2059, 9, 18);
    }
  }
}
