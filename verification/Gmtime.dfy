/** ngx_gmtime of src/core/ngx_times.c against the Gregorian calendar counted out from 1970-01-01. */
module Gmtime {

  datatype Tm = Tm(sec: int, min: int, hour: int, mday: int, mon: int, year: int, wday: int)

  // The calendar.

  predicate Leap(y: int) {
    y % 4 == 0 && (y % 100 != 0 || y % 400 == 0)
  }

  function YearLength(y: int): int {
    if Leap(y) then 366 else 365
  }

  function MonthLength(y: int, m: int): int {
    if m == 2 then (if Leap(y) then 29 else 28)
    else if m == 4 || m == 6 || m == 9 || m == 11 then 30
    else 31
  }

  /** Days from 1970-01-01 to the first of January of year y, year by year. */
  function DaysBeforeYear(y: int): int
    requires y >= 1970
  {
    if y == 1970 then 0 else DaysBeforeYear(y - 1) + YearLength(y - 1)
  }

  /** Days from the first of January to the first of month m, month by month. */
  function DaysBeforeMonth(y: int, m: int): int
    requires 1 <= m <= 12
  {
    if m == 1 then 0 else DaysBeforeMonth(y, m - 1) + MonthLength(y, m - 1)
  }

  predicate ValidDate(y: int, m: int, d: int) {
    y >= 1970 && 1 <= m <= 12 && 1 <= d <= MonthLength(y, m)
  }

  function DayNumber(y: int, m: int, d: int): int
    requires ValidDate(y, m, d)
  {
    DaysBeforeYear(y) + DaysBeforeMonth(y, m) + d - 1
  }

  /** Sunday is 0; 1970-01-01 was a Thursday. */
  function Weekday(n: nat): (w: int)
    ensures 0 <= w <= 6
  {
    if n == 0 then 4 else if Weekday(n - 1) == 6 then 0 else Weekday(n - 1) + 1
  }

  // The code.

  /** Days from March 1 of year 0 to March 1 of year y, as the code counts them. */
  function MarchFirst(y: int): int {
    365 * y + y / 4 - y / 100 + y / 400
  }

  /** The year estimate, in years that begin in March. */
  function YearGuess(days: int): int {
    (days + 2) * 400 / (365 * 400 + 100 - 4 + 1)
  }

  datatype Date = Date(year: int, mon: int, mday: int)

  datatype MarchDay = MarchDay(year: int, yday: int)

  /** The year, counted from March, and the day in it: the estimate, repaired when the day comes out negative. */
  function MarchDayOf(days: int): MarchDay {
    var year := YearGuess(days);
    var yday := days - MarchFirst(year);
    if yday < 0 then MarchDay(year - 1, 365 + (if Leap(year) then 1 else 0) + yday) else MarchDay(year, yday)
  }

  /** The month a day falls in, March being 1. */
  function MonthOf(yday: int): int {
    (yday + 31) * 10 / 306
  }

  /** The calendar date of a day of a March-based year, given its month. */
  function DateIn(d: MarchDay, mon: int): Date {
    var mday := d.yday - FromMarch(mon) + 1;
    if d.yday >= 306 then Date(d.year + 1, mon - 10, mday) else Date(d.year, mon + 2, mday)
  }

  /** ngx_gmtime */
  function Gmtime(t: nat): (tm: Tm) {
    var days := t / 86400;
    var wday := (4 + days) % 7;
    var n := t % 86400;
    var hour := n / 3600;
    var min := n % 3600 / 60;
    var sec := n % 3600 % 60;
    var day := MarchDayOf(days - (31 + 28) + 719527);
    var date := DateIn(day, MonthOf(day.yday));
    Tm(sec, min, hour, date.mday, date.mon, date.year, wday)
  }

  // The estimate.

  lemma FourthYears(y: int)
    ensures y / 4 - (y - 1) / 4 == if y % 4 == 0 then 1 else 0
  {}

  lemma Centuries(y: int)
    ensures y / 100 - (y - 1) / 100 == if y % 100 == 0 then 1 else 0
    ensures y / 400 - (y - 1) / 400 == if y % 400 == 0 then 1 else 0
    ensures y % 400 == 0 ==> y % 100 == 0
    ensures y % 100 == 0 ==> y % 4 == 0
  {}

  lemma MarchYearLength(y: int)
    ensures MarchFirst(y) - MarchFirst(y - 1) == YearLength(y)
  {
    FourthYears(y);
    Centuries(y);
  }

  /** The year estimate is never low and at most one high, by two days at most. */
  lemma GuessIsNear(days: nat)
    ensures var y := YearGuess(days);
      y >= 0 && days < MarchFirst(y + 1) && MarchFirst(y) - 2 <= days
  {}

  /** So the estimate is high exactly when the day of the year comes out negative. */
  lemma GuessIsHighIff(days: nat)
    requires days >= 366
    ensures var y := YearGuess(days);
      var yday := days - MarchFirst(y);
      && y >= 1
      && (if yday < 0 then MarchFirst(y - 1) <= days < MarchFirst(y) else MarchFirst(y) <= days < MarchFirst(y + 1))
  {}

  /** Days from March 1 to the first of the m-th month counted from March as 1. */
  function FromMarch(m: int): int {
    367 * m / 12 - 30
  }

  predicate InMonth(yday: int, mon: int) {
    && 1 <= mon <= 12 && FromMarch(mon) <= yday && (mon < 12 ==> yday < FromMarch(mon + 1))
    && (yday >= 306 <==> mon >= 11)
  }

  /** The empirical month formula and the Gauss formula agree: the month found is the one the day lies in. */
  lemma MonthOfDay(yday: int)
    requires 0 <= yday <= 365
    ensures InMonth(yday, MonthOf(yday))
  {}

  lemma GaussMonthLength(y: int, m: int)
    requires 3 <= m <= 12
    ensures MonthLength(y, m) == if m == 12 then 306 - FromMarch(10) else FromMarch(m - 1) - FromMarch(m - 2)
  {}

  /** The Gauss formula counts out the months: from March to December in the same year ... */
  lemma {:induction false} MarchMonths(y: int, m: int)
    requires 3 <= m <= 12
    ensures DaysBeforeMonth(y, m) == 59 + (if Leap(y) then 1 else 0) + FromMarch(m - 2)
    ensures MonthLength(y, m) == if m == 12 then 306 - FromMarch(10) else FromMarch(m - 1) - FromMarch(m - 2)
  {
    GaussMonthLength(y, m);
    if m == 3 {
      assert DaysBeforeMonth(y, 2) == 31;
    } else {
      MarchMonths(y, m - 1);
    }
  }

  /** ... and January and February in the next. */
  lemma {:induction false} YearsFromMarch(y: int)
    requires y >= 1970
    ensures DaysBeforeYear(y) == MarchFirst(y - 1) + 306 - 719468
  {
    if y > 1970 {
      YearsFromMarch(y - 1);
      MarchYearLength(y - 1);
    }
  }

  lemma {:induction false} WeekdayIsMod(n: nat)
    ensures Weekday(n) == (4 + n) % 7
  {
    if n > 0 {
      WeekdayIsMod(n - 1);
    }
  }

  lemma MarchDayIsRight(days: nat)
    requires days >= 366
    ensures var d := MarchDayOf(days);
      0 <= d.yday < YearLength(d.year + 1) && MarchFirst(d.year) + d.yday == days
  {
    var guess := YearGuess(days);
    GuessIsHighIff(days);
    MarchYearLength(guess);
    MarchYearLength(guess + 1);
  }

  lemma MarchToDecember(y: int, mon: int, yday: int)
    requires 1 <= mon <= 10 && FromMarch(mon) <= yday < FromMarch(mon + 1) && y >= 1970
    ensures var mday := yday - FromMarch(mon) + 1;
      ValidDate(y, mon + 2, mday) && DayNumber(y, mon + 2, mday) == MarchFirst(y) + yday - 719468
  {
    YearsFromMarch(y);
    MarchYearLength(y);
    MarchMonths(y, mon + 2);
  }

  lemma JanuaryAndFebruary(y: int, mon: int, yday: int)
    requires 11 <= mon <= 12 && FromMarch(mon) <= yday < YearLength(y + 1) && y >= 1969
    requires mon == 11 ==> yday < FromMarch(12)
    ensures var mday := yday - FromMarch(mon) + 1;
      ValidDate(y + 1, mon - 10, mday) && DayNumber(y + 1, mon - 10, mday) == MarchFirst(y) + yday - 719468
  {
    YearsFromMarch(y + 1);
    assert DaysBeforeMonth(y + 1, 1) == 0 && DaysBeforeMonth(y + 1, 2) == 31;
    assert mon == 11 || mon == 12;
  }

  /** A day of a March-based year and its calendar date have the same day number. */
  lemma DateOfMarchDay(d: MarchDay, mon: int)
    requires 0 <= d.yday < YearLength(d.year + 1) && MarchFirst(d.year) + d.yday >= 719468
    requires InMonth(d.yday, mon)
    ensures var date := DateIn(d, mon);
      && ValidDate(date.year, date.mon, date.mday)
      && DayNumber(date.year, date.mon, date.mday) == MarchFirst(d.year) + d.yday - 719468
  {
    YearFloor(d.year, d.yday);
    if d.yday >= 306 {
      JanuaryAndFebruary(d.year, mon, d.yday);
    } else {
      MarchToDecember(d.year, mon, d.yday);
    }
  }

  lemma YearFloor(y: int, yday: int)
    requires 0 <= yday < YearLength(y + 1) && MarchFirst(y) + yday >= 719468
    ensures y >= 1969 && (yday < 306 ==> y >= 1970)
  {}

  lemma ClockRecombines(n: nat)
    requires n < 86400
    ensures n / 3600 < 24 && n / 3600 * 3600 + n % 3600 / 60 * 60 + n % 3600 % 60 == n
  {}

  /** ngx_gmtime breaks every non-negative time into the valid date, weekday and time of day it denotes. */
  lemma GmtimeIsCorrect(t: nat)
    ensures var tm := Gmtime(t);
      && ValidDate(tm.year, tm.mon, tm.mday)
      && DayNumber(tm.year, tm.mon, tm.mday) == t / 86400
      && tm.wday == Weekday(t / 86400)
      && 0 <= tm.hour < 24 && 0 <= tm.min < 60 && 0 <= tm.sec < 60
      && tm.hour * 3600 + tm.min * 60 + tm.sec == t % 86400
  {
    WeekdayIsMod(t / 86400);
    ClockRecombines(t % 86400);
    MarchDayIsRight(t / 86400 + 719468);
    var d := MarchDayOf(t / 86400 + 719468);
    MonthOfDay(d.yday);
    DateOfMarchDay(d, MonthOf(d.yday));
  }

  lemma {:induction false} YearsGrow(y: int, z: int)
    requires 1970 <= y < z
    ensures DaysBeforeYear(y) + YearLength(y) <= DaysBeforeYear(z)
  {
    if y < z - 1 {
      YearsGrow(y, z - 1);
    }
  }

  lemma {:induction false} MonthsGrow(y: int, m: int, k: int)
    requires 1 <= m < k <= 12
    ensures DaysBeforeMonth(y, m) + MonthLength(y, m) <= DaysBeforeMonth(y, k)
  {
    if m < k - 1 {
      MonthsGrow(y, m, k - 1);
    }
  }

  lemma DayInYear(y: int, m: int, d: int)
    requires ValidDate(y, m, d)
    ensures 0 <= DaysBeforeMonth(y, m) + d - 1 < YearLength(y)
  {
    assert DaysBeforeMonth(y, 1) == 0;
    if m > 1 {
      MonthsGrow(y, 1, m);
    }
    MarchMonths(y, 12);
    if m < 12 {
      MonthsGrow(y, m, 12);
    }
  }

  /** Distinct dates have distinct day numbers, in calendar order: the date found is the only one. */
  lemma DayNumberOrdersDates(y: int, m: int, d: int, y': int, m': int, d': int)
    requires ValidDate(y, m, d) && ValidDate(y', m', d')
    requires y < y' || (y == y' && (m < m' || (m == m' && d < d')))
    ensures DayNumber(y, m, d) < DayNumber(y', m', d')
  {
    DayInYear(y, m, d);
    DayInYear(y', m', d');
    if y < y' {
      YearsGrow(y, y');
    } else if m < m' {
      MonthsGrow(y, m, m');
    }
  }

  /** Gmtime inverts the calendar: the time of day on any date at any time of day gives back that date and time. */
  lemma GmtimeInverts(y: int, m: int, d: int, hour: int, min: int, sec: int)
    requires ValidDate(y, m, d) && 0 <= hour < 24 && 0 <= min < 60 && 0 <= sec < 60
    ensures var t := DayNumber(y, m, d) * 86400 + hour * 3600 + min * 60 + sec;
      t >= 0 && var tm := Gmtime(t);
      tm.year == y && tm.mon == m && tm.mday == d && tm.hour == hour && tm.min == min && tm.sec == sec
  {
    assert DaysBeforeYear(1970) == 0;
    if y > 1970 {
      YearsGrow(1970, y);
    }
    DayInYear(y, m, d);
    var n, rest := DayNumber(y, m, d), hour * 3600 + min * 60 + sec;
    var t := n * 86400 + rest;
    assert t / 86400 == n && t % 86400 == rest;
    var tm := Gmtime(t);
    GmtimeIsCorrect(t);
    if tm.year < y || (tm.year == y && (tm.mon < m || (tm.mon == m && tm.mday < d))) {
      DayNumberOrdersDates(tm.year, tm.mon, tm.mday, y, m, d);
    } else if y < tm.year || (y == tm.year && (m < tm.mon || (m == tm.mon && d < tm.mday))) {
      DayNumberOrdersDates(y, m, d, tm.year, tm.mon, tm.mday);
    }
  }
}
