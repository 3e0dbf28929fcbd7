/** The part of Go's `time.Time` the core relies on: UTC instants with whole
    seconds in years 0000-9999 (the range a four-digit RFC 3339 year can name),
    their position on a single second count, and `End.Sub(Start)` in minutes. */
module Civil {

  datatype Timestamp = Timestamp(year: int, month: int, day: int, hour: int, minute: int, second: int)

  /** Gregorian leap years, continued back to year 0 as Go's calendar does. */
  predicate IsLeapYear(year: int)
  {
    year % 4 == 0 && (year % 100 != 0 || year % 400 == 0)
  }

  function DaysIn(month: int, year: int): int
  {
    if month == 2 then (if IsLeapYear(year) then 29 else 28)
    else if month == 4 || month == 6 || month == 9 || month == 11 then 30
    else 31
  }

  predicate ValidDate(year: int, month: int, day: int)
  {
    0 <= year <= 9999 && 1 <= month <= 12 && 1 <= day <= DaysIn(month, year)
  }

  predicate Valid(t: Timestamp)
  {
    ValidDate(t.year, t.month, t.day) && 0 <= t.hour < 24 && 0 <= t.minute < 60 && 0 <= t.second < 60
  }

  /** A point in time as the core sees it. */
  type Time = t: Timestamp | Valid(t) witness Timestamp(1970, 1, 1, 0, 0, 0)

  function YearLength(year: int): int
  {
    if IsLeapYear(year) then 366 else 365
  }

  /** Days from 0000-01-01 to the first of January of `year`, in closed form. */
  function DaysBeforeYear(year: nat): nat
  {
    365 * year + (year + 3) / 4 - (year + 99) / 100 + (year + 399) / 400
  }

  /** Days from the first of January to the first day of `month`. */
  function DaysBeforeMonth(month: int, year: int): (days: int)
    ensures days >= 0
  {
    if month <= 1 then 0 else DaysBeforeMonth(month - 1, year) + DaysIn(month - 1, year)
  }

  /** Days from 0000-01-01 to the date of `t`. */
  function DayNumber(t: Time): nat
  {
    DaysBeforeYear(t.year) + DaysBeforeMonth(t.month, t.year) + t.day - 1
  }

  /** Seconds from 0000-01-01T00:00:00Z to `t`. */
  function SecondOf(t: Time): int
  {
    DayNumber(t) * 86400 + t.hour * 3600 + t.minute * 60 + t.second
  }

  /** Go's `int(d.Minutes())` for a duration of `seconds`: truncated toward zero. */
  function WholeMinutes(seconds: int): (m: int)
    ensures seconds >= 0 ==> 0 <= m * 60 <= seconds < m * 60 + 60
    ensures seconds < 0 ==> m * 60 - 60 < seconds <= m * 60 <= 0
  {
    if seconds >= 0 then seconds / 60 else -((-seconds) / 60)
  }

  /** `int(end.Sub(start).Minutes())`. */
  function MinutesBetween(start: Time, end: Time): int
  {
    WholeMinutes(SecondOf(end) - SecondOf(start))
  }

  /** The closed form agrees with counting years one at a time. */
  lemma NextYear(year: nat)
    ensures DaysBeforeYear(year + 1) == DaysBeforeYear(year) + YearLength(year)
  {
    MultipleStep4(year);
    MultipleStep100(year);
    MultipleStep400(year);
    LeapByDivisors(year);
  }

  /** A year is a leap year by the count of 4, 100 and 400 among its divisors. */
  lemma LeapByDivisors(year: nat)
    ensures YearLength(year) == 365 + (if year % 4 == 0 then 1 else 0)
      - (if year % 100 == 0 then 1 else 0) + (if year % 400 == 0 then 1 else 0)
  {
    if year % 100 == 0 {
      HundredsAreFours(year);
    }
    if year % 400 == 0 {
      FourHundredsAreHundreds(year);
    }
  }

  lemma HundredsAreFours(year: nat)
    requires year % 100 == 0
    ensures year % 4 == 0
  {
    var k, q, r := year / 100, year / 4, year % 4;
    assert year == 100 * k;
    assert year == 4 * q + r && 0 <= r < 4;
    assert r == 4 * (25 * k - q);
  }

  lemma FourHundredsAreHundreds(year: nat)
    requires year % 400 == 0
    ensures year % 100 == 0
  {
    var k, q, r := year / 400, year / 100, year % 100;
    assert year == 400 * k;
    assert year == 100 * q + r && 0 <= r < 100;
    assert r == 100 * (4 * k - q);
  }

  lemma MultipleStep4(y: nat)
    ensures (y + 4) / 4 == (y + 3) / 4 + (if y % 4 == 0 then 1 else 0)
  {
  }

  lemma MultipleStep100(y: nat)
    ensures (y + 100) / 100 == (y + 99) / 100 + (if y % 100 == 0 then 1 else 0)
  {
  }

  lemma MultipleStep400(y: nat)
    ensures (y + 400) / 400 == (y + 399) / 400 + (if y % 400 == 0 then 1 else 0)
  {
  }

  /** A year's twelve months together are the whole year. */
  lemma MonthsFillYear(year: int)
    ensures DaysBeforeMonth(13, year) == YearLength(year)
  {
    assert DaysBeforeMonth(2, year) == 31;
    assert DaysBeforeMonth(3, year) == 31 + DaysIn(2, year);
    assert DaysBeforeMonth(4, year) == 62 + DaysIn(2, year);
    assert DaysBeforeMonth(5, year) == 92 + DaysIn(2, year);
    assert DaysBeforeMonth(6, year) == 123 + DaysIn(2, year);
    assert DaysBeforeMonth(7, year) == 153 + DaysIn(2, year);
    assert DaysBeforeMonth(8, year) == 184 + DaysIn(2, year);
    assert DaysBeforeMonth(9, year) == 215 + DaysIn(2, year);
    assert DaysBeforeMonth(10, year) == 245 + DaysIn(2, year);
    assert DaysBeforeMonth(11, year) == 276 + DaysIn(2, year);
    assert DaysBeforeMonth(12, year) == 306 + DaysIn(2, year);
    assert DaysBeforeMonth(13, year) == 337 + DaysIn(2, year);
  }

  /** A day lies before the next month starts. */
  lemma {:induction false} MonthsAdvance(m: int, n: int, year: int)
    requires 1 <= m < n <= 13
    ensures DaysBeforeMonth(n, year) >= DaysBeforeMonth(m, year) + DaysIn(m, year)
  {
    if n > m + 1 {
      MonthsAdvance(m, n - 1, year);
    }
  }

  /** Years further apart are at least a year's length apart in days. */
  lemma {:induction false} YearsAdvance(y: nat, z: nat)
    requires y < z
    ensures DaysBeforeYear(z) >= DaysBeforeYear(y) + YearLength(y)
    decreases z - y
  {
    NextYear(y);
    if z > y + 1 {
      YearsAdvance(y + 1, z);
    }
  }

  /** Calendar order of two instants, field by field. */
  predicate Before(a: Time, b: Time)
  {
    if a.year != b.year then a.year < b.year
    else if a.month != b.month then a.month < b.month
    else if a.day != b.day then a.day < b.day
    else if a.hour != b.hour then a.hour < b.hour
    else if a.minute != b.minute then a.minute < b.minute
    else a.second < b.second
  }

  lemma DayWithinYear(t: Time)
    ensures DaysBeforeMonth(t.month, t.year) + t.day - 1 < YearLength(t.year)
  {
    if t.month < 12 {
      MonthsAdvance(t.month, 13, t.year);
    }
    MonthsFillYear(t.year);
  }

  /** The second count orders instants exactly as the calendar does. */
  lemma SecondOfIsChronological(a: Time, b: Time)
    requires Before(a, b)
    ensures SecondOf(a) < SecondOf(b)
  {
    var ta := a.hour * 3600 + a.minute * 60 + a.second;
    var tb := b.hour * 3600 + b.minute * 60 + b.second;
    assert 0 <= ta < 86400 && 0 <= tb < 86400;
    if DayNumber(a) == DayNumber(b) {
      assert a.year == b.year && a.month == b.month && a.day == b.day by {
        DaysDiffer(a, b);
      }
    } else {
      DaysDiffer(a, b);
      SecondsOfDays(DayNumber(a), DayNumber(b), ta, tb);
    }
  }

  lemma SecondsOfDays(da: nat, db: nat, ta: int, tb: int)
    requires da < db && 0 <= ta < 86400 && 0 <= tb
    ensures da * 86400 + ta < db * 86400 + tb
  {
  }

  /** An earlier date has a smaller day number. */
  lemma DaysDiffer(a: Time, b: Time)
    requires Before(a, b)
    ensures (a.year, a.month, a.day) != (b.year, b.month, b.day) ==> DayNumber(a) < DayNumber(b)
    ensures (a.year, a.month, a.day) == (b.year, b.month, b.day) ==> DayNumber(a) == DayNumber(b)
  {
    if a.year < b.year {
      YearsAdvance(a.year, b.year);
      DayWithinYear(a);
    } else if a.month < b.month {
      MonthsAdvance(a.month, b.month, a.year);
    }
  }

  /** Within one date and on whole minutes, `End.Sub(Start)` in minutes is the
      difference of the clock readings. */
  lemma SameDayMinutes(start: Time, end: Time)
    requires (start.year, start.month, start.day) == (end.year, end.month, end.day)
    requires start.second == 0 && end.second == 0
    ensures MinutesBetween(start, end) == (end.hour * 60 + end.minute) - (start.hour * 60 + start.minute)
  {
    var d := (end.hour * 60 + end.minute) - (start.hour * 60 + start.minute);
    assert SecondOf(end) - SecondOf(start) == d * 60;
  }
}
