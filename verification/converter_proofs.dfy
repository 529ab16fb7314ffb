/** Properties of the calendar converter: the bounds every result obeys, the
    known Nowruz vector, and the two round trips, all proved by relating
    each function's day count to the day number of a calendar date. */
module ConverterProofs {
  import opened Outcomes
  import opened Converter

  // ---------------------------------------------------------------------
  // Arithmetic of the Gregorian cycles
  // ---------------------------------------------------------------------

  /** Shifting a dividend by `k` whole periods of one of the cycle lengths. */
  lemma ShiftDiv(a: int, k: int, m: int)
    requires m == 4 || m == 100 || m == 400
    ensures (k * m + a) / m == k + a / m
    ensures (k * m + a) % m == a % m
  {
    if m == 4 {
    } else if m == 100 {
    } else {
    }
  }

  /** 400 Gregorian years are exactly 146097 days and repeat the leap pattern. */
  lemma GregorianCycle(q: int, y: int)
    ensures GregorianYearStart(400 * q + y) == 146097 * q + GregorianYearStart(y)
    ensures IsGregorianLeap(400 * q + y) == IsGregorianLeap(y)
  {
    ShiftDiv(y + 3, 100 * q, 4);
    ShiftDiv(y + 99, 4 * q, 100);
    ShiftDiv(y + 399, q, 400);
    ShiftDiv(y, 100 * q, 4);
    ShiftDiv(y, 4 * q, 100);
    ShiftDiv(y, q, 400);
  }

  /** The leap days of the first century of a 400-year cycle. */
  lemma FirstCentury(x: int)
    requires 0 <= x <= 99
    ensures LeapDaysBefore(x) == (x + 3) / 4
    ensures IsGregorianLeap(x) <==> x % 4 == 0
  {
    var b := if x == 0 then 0 else 1;
    assert (x + 99) / 100 == b;
    assert (x + 399) / 400 == b;
    if x != 0 {
      assert x % 100 == x && x % 400 == x;
    }
  }

  /** The leap days of the second to fourth centuries: their first year is
      not a leap year. */
  lemma LaterCentury(c: int, x: int)
    requires 1 <= c <= 3 && 0 <= x <= 99
    ensures LeapDaysBefore(100 * c + x) == 24 * c + 1 + (x + 3) / 4 - (if x >= 1 then 1 else 0)
    ensures IsGregorianLeap(100 * c + x) <==> x % 4 == 0 && x != 0
  {
    var y := 100 * c + x;
    ShiftDiv(x + 3, 25 * c, 4);
    ShiftDiv(x, 25 * c, 4);
    ShiftDiv(x + 99, c, 100);
    ShiftDiv(x, c, 100);
    assert (y + 3) / 4 == 25 * c + (x + 3) / 4 && y % 4 == x % 4;
    assert (y + 99) / 100 == c + (x + 99) / 100 && y % 100 == x % 100;
    assert (x + 99) / 100 == (if x >= 1 then 1 else 0);
    assert (y + 399) / 400 == 1 && y % 400 == y;
  }

  /** Within the first century of a cycle the four-year split finds the
      year and the day directly. */
  lemma FirstCenturyDay(x: int, gd: int)
    requires 0 <= x <= 99 && 1 <= gd <= (if x % 4 == 0 then 366 else 365)
    ensures GregorianYearStart(x) + gd - 1 == 365 * x + (x + 3) / 4 + gd - 1
    ensures gd <= GregorianYearLength(x)
  {
    FirstCentury(x);
  }

  /** In the later centuries the split works on a count shifted by one past
      the century's first (common) year. */
  lemma LaterCenturyDay(k: int, x: int, gd: int, d1: int, e: int)
    requires 1 <= k <= 3 && 0 <= x <= 99 && 1 <= gd <= (if x % 4 == 0 then 366 else 365)
    requires d1 == 365 * x + (x + 3) / 4 + gd - 1
    requires if d1 < 365 then e == 36524 * k + 1 + d1 else d1 >= 366 && e == 36524 * k + d1
    ensures GregorianYearStart(100 * k + x) + gd - 1 == e
    ensures gd <= GregorianYearLength(100 * k + x)
  {
    LaterCentury(k, x);
    if d1 < 365 {
      assert x == 0;
    } else {
      assert x >= 1;
    }
  }

  /** Inside one 400-year cycle the century and four-year splits find a
      year of the cycle and a day of that year. */
  lemma CycleSplitCorrect(e: int)
    requires 0 <= e < 146097
    ensures var (c, d1) := CenturySplit(e);
      var (x, gd) := FourYearSplit(d1);
      GregorianYearStart(c + x) + gd - 1 == e && 1 <= gd <= GregorianYearLength(c + x)
  {
    var (c, d1) := CenturySplit(e);
    var (x, gd) := FourYearSplit(d1);
    if c == 0 {
      FirstCenturyDay(x, gd);
    } else {
      var k := c / 100;
      assert c == 100 * k;
      LaterCenturyDay(k, x, gd, d1, e);
    }
  }

  /** `j2g`'s year split lands inside a year: the year found starts at most
      `days` and the remaining day is a day of that year. */
  lemma GregorianYearAndDayCorrect(days: int)
    ensures var (y, gd) := GregorianYearAndDay(days);
      GregorianYearStart(y) + gd - 1 == days && 1 <= gd <= GregorianYearLength(y)
  {
    var q, e := days / 146097, days % 146097;
    var (c, d1) := CenturySplit(e);
    var (x, gd) := FourYearSplit(d1);
    var r := GregorianYearAndDay(days);
    assert r == (400 * q + (c + x), gd);
    CycleSplitCorrect(e);
    CycleLift(q, c + x, gd, e, r.0, days);
  }

  /** A day of a year in the first cycle is the same day of the year 400
      `q` years later, 146097 `q` days later. */
  lemma CycleLift(q: int, y: int, gd: int, e: int, lifted: int, days: int)
    requires GregorianYearStart(y) + gd - 1 == e && 1 <= gd <= GregorianYearLength(y)
    requires lifted == 400 * q + y && days == 146097 * q + e
    ensures GregorianYearStart(lifted) + gd - 1 == days
    ensures gd <= GregorianYearLength(lifted)
  {
    GregorianCycle(q, y);
  }

  /** Each year starts where the previous one ends. */
  lemma GregorianYearStep(y: int)
    ensures GregorianYearStart(y + 1) == GregorianYearStart(y) + GregorianYearLength(y)
  {
    CountStep(y, 4);
    CountStep(y, 100);
    CountStep(y, 400);
    Divisibility(y);
    var i4 := if y % 4 == 0 then 1 else 0;
    var i100 := if y % 100 == 0 then 1 else 0;
    var i400 := if y % 400 == 0 then 1 else 0;
    assert LeapDaysBefore(y + 1) == LeapDaysBefore(y) + i4 - i100 + i400;
    assert GregorianYearLength(y) == 365 + i4 - i100 + i400;
  }

  /** Moving on one year raises the count of multiples of `m` below it
      exactly when the year left behind is one. */
  lemma CountStep(y: int, m: int)
    requires m == 4 || m == 100 || m == 400
    ensures (y + m) / m == (y + m - 1) / m + (if y % m == 0 then 1 else 0)
  {
    var q, r := y / m, y % m;
    DivIs(y + m, m, q + 1);
    DivIs(y + m - 1, m, if r == 0 then q else q + 1);
  }

  /** The quotient by a cycle length, from the bounds that define it. */
  lemma DivIs(a: int, m: int, q: int)
    requires m == 4 || m == 100 || m == 400
    requires m * q <= a < m * q + m
    ensures a / m == q
  {
    if m == 4 {
    } else if m == 100 {
    } else {
    }
  }

  /** A multiple of 400 is a multiple of 100, and a multiple of 100 one of 4. */
  lemma Divisibility(y: int)
    ensures y % 400 == 0 ==> y % 100 == 0
    ensures y % 100 == 0 ==> y % 4 == 0
  {
    if y % 400 == 0 {
      ShiftDiv(0, 4 * (y / 400), 100);
    }
    if y % 100 == 0 {
      ShiftDiv(0, 25 * (y / 100), 4);
    }
  }

  /** Year starts grow by at least 364 days a year. */
  lemma GregorianYearStartGrows(a: int, b: int)
    requires a <= b
    ensures GregorianYearStart(b) - GregorianYearStart(a) >= 364 * (b - a)
  {
    assert (b + 3) / 4 >= (a + 3) / 4;
    assert (b + 399) / 400 >= (a + 399) / 400;
    assert (b + 99) / 100 - (a + 99) / 100 <= b - a;
  }

  /** A day number names one Gregorian year and one day of it. */
  lemma GregorianYearUnique(y1: int, d1: int, y2: int, d2: int)
    requires 0 <= d1 < GregorianYearLength(y1) && 0 <= d2 < GregorianYearLength(y2)
    requires GregorianYearStart(y1) + d1 == GregorianYearStart(y2) + d2
    ensures y1 == y2 && d1 == d2
  {
    if y1 < y2 {
      GregorianYearStep(y1);
      GregorianYearStartGrows(y1 + 1, y2);
    } else if y2 < y1 {
      GregorianYearStep(y2);
      GregorianYearStartGrows(y2 + 1, y1);
    }
  }

  // ---------------------------------------------------------------------
  // Arithmetic of the Jalali cycles
  // ---------------------------------------------------------------------

  /** Each Jalali year starts where the previous one ends. */
  lemma JalaliYearStep(jy: int)
    ensures JalaliYearStart(jy + 1596) == JalaliYearStart(jy + 1595) + JalaliYearLength(jy)
  {
  }

  lemma JalaliYearStartGrows(a: int, b: int)
    requires a <= b
    ensures JalaliYearStart(b) - JalaliYearStart(a) >= 357 * (b - a)
  {
    assert b / 33 >= a / 33;
  }

  /** A day number names one Jalali year and one day of it. */
  lemma JalaliYearUnique(y1: int, d1: int, y2: int, d2: int)
    requires 0 <= d1 < JalaliYearLength(y1) && 0 <= d2 < JalaliYearLength(y2)
    requires JalaliYearStart(y1 + 1595) + d1 == JalaliYearStart(y2 + 1595) + d2
    ensures y1 == y2 && d1 == d2
  {
    if y1 < y2 {
      JalaliYearStep(y1);
      JalaliYearStartGrows(y1 + 1596, y2 + 1595);
    } else if y2 < y1 {
      JalaliYearStep(y2);
      JalaliYearStartGrows(y2 + 1596, y1 + 1595);
    }
  }

  // ---------------------------------------------------------------------
  // The month walk
  // ---------------------------------------------------------------------

  predicate IsMonthTable(t: seq<int>) {
    |t| == 13 && t[0] == 0 && forall i :: 1 <= i <= 12 ==> t[i] >= 1
  }

  /** Starting at month `k`, the walk stops at a month `m >= k` with a day
      inside it, having subtracted exactly the lengths of months k..m-1. */
  lemma {:induction false} MonthWalkFrom(t: seq<int>, k: int, gd: int)
    requires IsMonthTable(t) && 1 <= k <= 12
    requires 1 <= gd && DaysBeforeMonth(t, k) + gd <= DaysBeforeMonth(t, 13)
    ensures var (m, d) := MonthWalk(t, k, gd);
      k <= m <= 12 && 1 <= d <= t[m] && DaysBeforeMonth(t, m) + d == DaysBeforeMonth(t, k) + gd
    decreases 13 - k
  {
    if gd > t[k] {
      MonthWalkFrom(t, k + 1, gd - t[k]);
    }
  }

  lemma {:induction false} DaysBeforeMonthGrows(t: seq<int>, k: int, m: int)
    requires IsMonthTable(t) && 1 <= k <= m <= 13
    ensures DaysBeforeMonth(t, m) >= DaysBeforeMonth(t, k) + (m - k)
    decreases m - k
  {
    if k < m {
      DaysBeforeMonthGrows(t, k, m - 1);
    }
  }

  /** The walk from month `k` finds month `m` and day `d` again. */
  lemma {:induction false} MonthWalkFinds(t: seq<int>, k: int, m: int, d: int)
    requires IsMonthTable(t) && 1 <= k <= m <= 12 && 1 <= d <= t[m]
    ensures MonthWalk(t, k, DaysBeforeMonth(t, m) - DaysBeforeMonth(t, k) + d) == (m, d)
    decreases m - k
  {
    if k < m {
      DaysBeforeMonthGrows(t, k + 1, m);
      MonthWalkFinds(t, k + 1, m, d);
    }
  }

  /** `sal_a` walked cumulatively agrees with `g_d_m` plus the leap day, and
      the whole table sums to the year's length. */
  lemma {:induction false} GregorianMonthOffsets(y: int, m: int)
    requires 1 <= m <= 13
    ensures IsMonthTable(GregorianMonthTable(y))
    ensures m <= 12 ==> DaysBeforeMonth(GregorianMonthTable(y), m)
                        == CumulativeMonthDays[m - 1] + (if m > 2 && IsGregorianLeap(y) then 1 else 0)
    ensures m == 13 ==> DaysBeforeMonth(GregorianMonthTable(y), m) == GregorianYearLength(y)
  {
    if m > 1 {
      GregorianMonthOffsets(y, m - 1);
    }
  }

  /** The day count of `g2j` is the epoch plus the day number of the date. */
  lemma GregorianDayCountIsDayNumber(gy: int, gm: int, gd: int)
    requires 1 <= gm <= 12
    ensures GregorianDayCount(gy, gm, gd)
            == Ok(355667 + GregorianYearStart(gy) + DaysBeforeMonth(GregorianMonthTable(gy), gm) + gd - 1)
  {
    GregorianMonthOffsets(gy, gm);
    GregorianYearStep(gy);
  }

  /** `j2g` always answers with a real Gregorian date, whatever its input:
      month 1..12, and a day within that month's length in that year (February
      has 29 days exactly in leap years). */
  lemma JalaliToGregorianIsDate(jy: int, jm: int, jd: int)
    ensures IsGregorianDate(JalaliToGregorian(jy, jm, jd))
  {
    var days := JalaliDayCount(jy, jm, jd);
    var (gy, gd) := GregorianYearAndDay(days);
    GregorianYearAndDayCorrect(days);
    GregorianMonthOffsets(gy, 13);
    MonthWalkFrom(GregorianMonthTable(gy), 1, gd);
  }

  /** The 0-based day of year of a Jalali date, as `j2g` adds it up. */
  lemma JalaliMonthAndDayFinds(jy: int, jm: int, jd: int)
    requires IsJalaliDate(Date(jy, jm, jd))
    ensures 0 <= JalaliDaysBeforeMonth(jm) + jd - 1 < JalaliYearLength(jy)
    ensures JalaliMonthAndDay(JalaliDaysBeforeMonth(jm) + jd - 1) == (jm, jd)
  {
  }

  /** The days from 1 January of year 0 to a Gregorian date. */
  function GregorianDayNumber(d: Date): int
    requires 1 <= d.month <= 12
  {
    GregorianYearStart(d.year) + DaysBeforeMonth(GregorianMonthTable(d.year), d.month) + d.day - 1
  }

  /** The same count for a Jalali date, as the two functions align the
      calendars (1 Farvardin 1403 is day 739330, 20 March 2024). */
  function JalaliDayNumber(d: Date): int {
    JalaliDayCount(d.year, d.month, d.day)
  }

  /** The count `j2g` starts from places a valid Jalali date among the days
      of its own year: the first day of the year up to the last. */
  lemma JalaliDayCountInYear(jy: int, jm: int, jd: int)
    requires IsJalaliDate(Date(jy, jm, jd))
    ensures JalaliYearStart(jy + 1595) - 355667 <= JalaliDayCount(jy, jm, jd) < JalaliYearStart(jy + 1596) - 355667
  {
    JalaliMonthAndDayFinds(jy, jm, jd);
    JalaliYearStep(jy);
  }

  /** `g2j` answers, for any month 1..12 and any day, with a real Jalali date
      whose day number is that of its input. */
  lemma GregorianToJalaliKeepsDayNumber(gy: int, gm: int, gd: int)
    requires 1 <= gm <= 12
    ensures GregorianToJalali(gy, gm, gd).Ok?
    ensures IsJalaliDate(GregorianToJalali(gy, gm, gd).value)
    ensures JalaliDayNumber(GregorianToJalali(gy, gm, gd).value) == GregorianDayNumber(Date(gy, gm, gd))
  {
    var n := 355667 + GregorianDayNumber(Date(gy, gm, gd));
    GregorianDayCountIsDayNumber(gy, gm, gd);
    assert GregorianDayCount(gy, gm, gd) == Ok(n);
    var (jy, doy) := JalaliYearAndDay(n);
    var (jm, jd) := JalaliMonthAndDay(doy);
    var j := Date(jy, jm, jd);
    assert GregorianToJalali(gy, gm, gd) == Ok(j);
    JalaliMonthAndDayCorrect(jy, doy);
    JalaliDayNumberOf(jy, doy, jm, jd, n);
  }

  lemma JalaliDayNumberOf(jy: int, doy: int, jm: int, jd: int, n: int)
    requires JalaliYearStart(jy + 1595) + doy == n
    requires JalaliDaysBeforeMonth(jm) + jd - 1 == doy
    ensures JalaliDayNumber(Date(jy, jm, jd)) == n - 355667
  {
  }

  /** The two bands of `g2j` give a real month and day of the Jalali year. */
  lemma JalaliMonthAndDayCorrect(jy: int, doy: int)
    requires 0 <= doy < JalaliYearLength(jy)
    ensures var (jm, jd) := JalaliMonthAndDay(doy);
      IsJalaliDate(Date(jy, jm, jd)) && JalaliDaysBeforeMonth(jm) + jd - 1 == doy
  {
  }

  /** `j2g` answers, for any input, with a real Gregorian date whose day
      number is that of the Jalali date it was given. */
  lemma JalaliToGregorianKeepsDayNumber(jy: int, jm: int, jd: int)
    ensures IsGregorianDate(JalaliToGregorian(jy, jm, jd))
    ensures GregorianDayNumber(JalaliToGregorian(jy, jm, jd)) == JalaliDayNumber(Date(jy, jm, jd))
  {
    var days := JalaliDayCount(jy, jm, jd);
    var (gy, gd) := GregorianYearAndDay(days);
    GregorianYearAndDayCorrect(days);
    GregorianMonthOffsets(gy, 13);
    MonthWalkFrom(GregorianMonthTable(gy), 1, gd);
  }

  /** A valid Gregorian date falls on one of the days of its year. */
  lemma GregorianDayOfYear(d: Date)
    requires IsGregorianDate(d)
    ensures IsMonthTable(GregorianMonthTable(d.year))
    ensures 0 <= DaysBeforeMonth(GregorianMonthTable(d.year), d.month) + d.day - 1 < GregorianYearLength(d.year)
  {
    var t := GregorianMonthTable(d.year);
    GregorianMonthOffsets(d.year, 13);
    DaysBeforeMonthGrows(t, d.month + 1, 13);
    DaysBeforeMonthGrows(t, 1, d.month);
  }

  /** Within one year's table, the day of year determines month and day. */
  lemma MonthAndDayUnique(t: seq<int>, m1: int, d1: int, m2: int, d2: int)
    requires IsMonthTable(t) && 1 <= m1 <= 12 && 1 <= d1 <= t[m1] && 1 <= m2 <= 12 && 1 <= d2 <= t[m2]
    requires DaysBeforeMonth(t, m1) + d1 == DaysBeforeMonth(t, m2) + d2
    ensures m1 == m2 && d1 == d2
  {
    if m1 < m2 {
      DaysBeforeMonthGrows(t, m1 + 1, m2);
    } else if m2 < m1 {
      DaysBeforeMonthGrows(t, m2 + 1, m1);
    }
  }

  /** Different valid Gregorian dates have different day numbers. */
  lemma GregorianDayNumberInjective(a: Date, b: Date)
    requires IsGregorianDate(a) && IsGregorianDate(b)
    requires GregorianDayNumber(a) == GregorianDayNumber(b)
    ensures a == b
  {
    var ta, tb := GregorianMonthTable(a.year), GregorianMonthTable(b.year);
    var da, db := DaysBeforeMonth(ta, a.month) + a.day - 1, DaysBeforeMonth(tb, b.month) + b.day - 1;
    GregorianDayOfYear(a);
    GregorianDayOfYear(b);
    GregorianYearUnique(a.year, da, b.year, db);
    MonthAndDayUnique(ta, a.month, a.day, b.month, b.day);
  }

  /** Different valid Jalali dates have different day numbers. */
  lemma JalaliDayNumberInjective(a: Date, b: Date)
    requires IsJalaliDate(a) && IsJalaliDate(b)
    requires JalaliDayNumber(a) == JalaliDayNumber(b)
    ensures a == b
  {
    JalaliMonthAndDayFinds(a.year, a.month, a.day);
    JalaliMonthAndDayFinds(b.year, b.month, b.day);
    JalaliYearUnique(a.year, JalaliDaysBeforeMonth(a.month) + a.day - 1,
                     b.year, JalaliDaysBeforeMonth(b.month) + b.day - 1);
  }

  /** Round trip from the Gregorian side: for every valid Gregorian date, of
      any year, `j2g(g2j(d)) == d`. */
  lemma GregorianRoundTrip(d: Date)
    requires IsGregorianDate(d)
    ensures GregorianToJalali(d.year, d.month, d.day).Ok?
    ensures var j := GregorianToJalali(d.year, d.month, d.day).value;
      JalaliToGregorian(j.year, j.month, j.day) == d
  {
    GregorianToJalaliKeepsDayNumber(d.year, d.month, d.day);
    var j := GregorianToJalali(d.year, d.month, d.day).value;
    JalaliToGregorianKeepsDayNumber(j.year, j.month, j.day);
    GregorianDayNumberInjective(JalaliToGregorian(j.year, j.month, j.day), d);
  }

  /** Round trip from the Jalali side: for every valid Jalali date (under the
      33-year leap rule the two functions share), `g2j(j2g(d)) == d`. */
  lemma JalaliRoundTrip(d: Date)
    requires IsJalaliDate(d)
    ensures var g := JalaliToGregorian(d.year, d.month, d.day);
      GregorianToJalali(g.year, g.month, g.day) == Ok(d)
  {
    JalaliToGregorianKeepsDayNumber(d.year, d.month, d.day);
    var g := JalaliToGregorian(d.year, d.month, d.day);
    GregorianToJalaliKeepsDayNumber(g.year, g.month, g.day);
    JalaliDayNumberInjective(GregorianToJalali(g.year, g.month, g.day).value, d);
  }

  /** Nowruz 1403: 20 March 2024 and 1 Farvardin 1403 map to each other. */
  lemma NowruzVector()
    ensures GregorianToJalali(2024, 3, 20) == Ok(Date(1403, 1, 1))
    ensures JalaliToGregorian(1403, 1, 1) == Date(2024, 3, 20)
  {
    NowruzToJalali();
    NowruzToGregorian();
  }

  /** `g2j(2024, 3, 20)` is 1 Farvardin 1403. */
  lemma NowruzToJalali()
    ensures GregorianToJalali(2024, 3, 20) == Ok(Date(1403, 1, 1))
  {
    assert GregorianDayCount(2024, 3, 20) == Ok(1094997);
    assert 1094997 / 12053 == 90 && 1094997 % 12053 == 10227;
    assert 10227 / 1461 == 7 && 10227 % 1461 == 0;
    assert JalaliYearAndDay(1094997) == (1403, 0);
  }

  /** `j2g(1403, 1, 1)` is 20 March 2024. */
  lemma NowruzToGregorian()
    ensures JalaliToGregorian(1403, 1, 1) == Date(2024, 3, 20)
  {
    assert JalaliDayCount(1403, 1, 1) == 739330;
    assert 739330 / 146097 == 5 && 739330 % 146097 == 8845;
    assert CenturySplit(8845) == (0, 8845);
    assert FourYearSplit(8845) == (24, 80);
    assert GregorianYearAndDay(739330) == (2024, 80);
    var t := GregorianMonthTable(2024);
    assert t[1] == 31 && t[2] == 29 && t[3] == 31;
    assert MonthWalk(t, 3, 20) == (3, 20);
    assert MonthWalk(t, 2, 49) == (3, 20);
    assert MonthWalk(t, 1, 80) == (3, 20);
    assert MonthWalk(t, 0, 80) == (3, 20);
  }

  /** The day before Nowruz 1404, 20 March 2025, is 30 Esfand 1403: `g2j`
      itself gives the leap year its 366th day. */
  lemma LeapEsfand()
    ensures GregorianToJalali(2025, 3, 20) == Ok(Date(1403, 12, 30))
    ensures IsJalaliLeap(1403) && JalaliMonthLength(1403, 12) == 30
  {
    assert (1403 + 1595) % 33 == 28;
    assert GregorianDayCount(2025, 3, 20) == Ok(1095362);
    assert 1095362 / 12053 == 90 && 1095362 % 12053 == 10592;
    assert 10592 / 1461 == 7 && 10592 % 1461 == 365;
    assert JalaliYearAndDay(1095362) == (1403, 365);
    assert JalaliMonthAndDay(365) == (12, 30);
  }
}
