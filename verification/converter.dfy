/** The calendar converter: `g2j` and `j2g`. Both count days from a fixed
    epoch and split the count by closed-form leap-cycle arithmetic. Every
    divisor is a positive constant, so Python's `//` and `%` coincide with
    Dafny's `/` and `%` on `int`. */
module Converter {
  import opened Outcomes

  /** A date as the library returns it: `[year, month, day]`. */
  datatype Date = Date(year: int, month: int, day: int)

  // ---------------------------------------------------------------------
  // The Gregorian calendar as the two functions count it
  // ---------------------------------------------------------------------

  predicate IsGregorianLeap(y: int) {
    (y % 4 == 0 && y % 100 != 0) || y % 400 == 0
  }

  /** Leap days in the years before `y`, counted from year 0 (a leap year). */
  function LeapDaysBefore(y: int): int {
    (y + 3) / 4 - (y + 99) / 100 + (y + 399) / 400
  }

  /** Day number of 1 January of year `y`; year 0 starts at day 0. */
  function GregorianYearStart(y: int): int {
    365 * y + LeapDaysBefore(y)
  }

  function GregorianYearLength(y: int): int {
    if IsGregorianLeap(y) then 366 else 365
  }

  /** `sal_a` of `j2g`: entry 0 is 0 and entries 1..12 are month lengths. */
  function GregorianMonthTable(y: int): (t: seq<int>)
    ensures |t| == 13 && t[0] == 0
    ensures forall m :: 1 <= m <= 12 ==> 28 <= t[m] <= 31
    ensures t[2] == 29 <==> IsGregorianLeap(y)
  {
    var kab := if IsGregorianLeap(y) then 29 else 28;
    [0, 31, kab, 31, 30, 31, 30, 31, 31, 30, 31, 30, 31]
  }

  /** Days of year `y` before the first day of month `m` (1 <= m <= 13). */
  function DaysBeforeMonth(t: seq<int>, m: int): int
    requires |t| == 13 && 1 <= m <= 13
  {
    if m == 1 then 0 else DaysBeforeMonth(t, m - 1) + t[m - 1]
  }

  predicate IsGregorianDate(d: Date) {
    1 <= d.month <= 12 && 1 <= d.day <= GregorianMonthTable(d.year)[d.month]
  }

  // ---------------------------------------------------------------------
  // The Jalali calendar as the two functions count it
  // ---------------------------------------------------------------------

  /** Day number of 1 Farvardin of the year that `j2g` calls `jy + 1595`:
      33-year cycles of 12053 days holding eight 366-day years each. */
  function JalaliYearStart(y: int): int {
    365 * y + 8 * (y / 33) + (y % 33 + 3) / 4
  }

  /** A Jalali year has 366 days when its position in the 33-year cycle is a
      multiple of 4 other than 32. */
  predicate IsJalaliLeap(jy: int) {
    var r := (jy + 1595) % 33;
    r % 4 == 0 && r != 32
  }

  function JalaliYearLength(jy: int): int {
    if IsJalaliLeap(jy) then 366 else 365
  }

  /** Months 1-6 have 31 days, 7-11 have 30, and 12 has 30 in a leap year. */
  function JalaliMonthLength(jy: int, jm: int): int {
    if jm <= 6 then 31 else if jm <= 11 || IsJalaliLeap(jy) then 30 else 29
  }

  /** Days of the Jalali year before the first day of month `jm`. */
  function JalaliDaysBeforeMonth(jm: int): int {
    if jm < 7 then (jm - 1) * 31 else (jm - 7) * 30 + 186
  }

  predicate IsJalaliDate(d: Date) {
    1 <= d.month <= 12 && 1 <= d.day <= JalaliMonthLength(d.year, d.month)
  }

  // ---------------------------------------------------------------------
  // g2j
  // ---------------------------------------------------------------------

  /** `g_d_m`: days of a common year before each month. */
  const CumulativeMonthDays: seq<int> := [0, 31, 59, 90, 120, 151, 181, 212, 243, 273, 304, 334]

  /** Python's `s[i]`: negative indices count from the end; anything else
      raises IndexError. */
  function PyIndex(s: seq<int>, i: int): (r: Result<int>)
    ensures r.Ok? <==> -|s| <= i < |s|
    ensures r.Ok? ==> r.value == s[if i < 0 then |s| + i else i]
    ensures r.Err? ==> r.error == IndexOutOfRange
  {
    if 0 <= i < |s| then Ok(s[i])
    else if -|s| <= i < 0 then Ok(s[|s| + i])
    else Err(IndexOutOfRange)
  }

  /** The day count `g2j` builds from a Gregorian date, epoch included. */
  function GregorianDayCount(gy: int, gm: int, gd: int): (r: Result<int>)
    ensures r.Ok? <==> -11 <= gm <= 12
    ensures r.Err? ==> r.error == IndexOutOfRange
  {
    var gy2 := if gm > 2 then gy + 1 else gy;
    match PyIndex(CumulativeMonthDays, gm - 1)
    case Err(e) => Err(e)
    case Ok(before) =>
      Ok(355666 + 365 * gy + (gy2 + 3) / 4 - (gy2 + 99) / 100 + (gy2 + 399) / 400 + gd + before)
  }

  /** The Jalali year of day count `days` and the 0-based day of that year:
      33-year cycles, then 4-year cycles, then single years. */
  function JalaliYearAndDay(days: int): (r: (int, int))
    ensures JalaliYearStart(r.0 + 1595) + r.1 == days
    ensures 0 <= r.1 < JalaliYearLength(r.0)
  {
    var jy := -1595 + 33 * (days / 12053);
    var d1 := days % 12053;
    var jy1 := jy + 4 * (d1 / 1461);
    var d2 := d1 % 1461;
    if d2 > 365 then (jy1 + (d2 - 1) / 365, (d2 - 1) % 365) else (jy1, d2)
  }

  /** Month and day of a 0-based Jalali day of year: two bands, six 31-day
      months and then 30-day months. */
  function JalaliMonthAndDay(doy: int): (r: (int, int))
    ensures 0 <= doy <= 365 ==>
      && 1 <= r.0 <= 12
      && 1 <= r.1 <= (if r.0 <= 6 then 31 else 30)
      && JalaliDaysBeforeMonth(r.0) + r.1 - 1 == doy
  {
    if doy < 186 then (1 + doy / 31, 1 + doy % 31)
    else (7 + (doy - 186) / 30, 1 + (doy - 186) % 30)
  }

  function GregorianToJalali(gy: int, gm: int, gd: int): (r: Result<Date>)
    ensures r.Ok? <==> -11 <= gm <= 12
    ensures r.Ok? ==> 1 <= r.value.month <= 12
    ensures r.Ok? ==> 1 <= r.value.day <= (if r.value.month <= 6 then 31 else 30)
  {
    match GregorianDayCount(gy, gm, gd)
    case Err(e) => Err(e)
    case Ok(days) =>
      var (jy, doy) := JalaliYearAndDay(days);
      var (jm, jd) := JalaliMonthAndDay(doy);
      Ok(Date(jy, jm, jd))
  }

  /** `g2j` on arguments of any type: TypeError before any arithmetic. */
  function G2J(gy: Arg, gm: Arg, gd: Arg): (r: Result<Date>)
    ensures (gy.NonInt? || gm.NonInt? || gd.NonInt?) <==> r == Err(TypeMismatch)
    ensures gy.Int? && gm.Int? && gd.Int? ==> r == GregorianToJalali(gy.value, gm.value, gd.value)
  {
    if gy.NonInt? || gm.NonInt? || gd.NonInt? then Err(TypeMismatch)
    else GregorianToJalali(gy.value, gm.value, gd.value)
  }

  // ---------------------------------------------------------------------
  // j2g
  // ---------------------------------------------------------------------

  /** The day count `j2g` builds from a Jalali date, epoch included. */
  function JalaliDayCount(jy: int, jm: int, jd: int): (r: int)
    ensures r == JalaliYearStart(jy + 1595) + JalaliDaysBeforeMonth(jm) + jd - 1 - 355667
  {
    var y := jy + 1595;
    -355668 + 365 * y + (y / 33) * 8 + ((y % 33) + 3) / 4 + jd + JalaliDaysBeforeMonth(jm)
  }

  /** Years and remaining days within a 400-year cycle (`days` in
      0..146096): the first century has 36525 days, the other three 36524,
      and in those the day count is shifted by one past their first year so
      that the four-year split below sees a leap day there. */
  function CenturySplit(days: int): (r: (int, int))
    ensures 0 <= days < 146097 ==>
      && (r.0 == 0 || r.0 == 100 || r.0 == 200 || r.0 == 300)
      && 0 <= r.1 <= 36524
      && (r.0 == 0 ==> days == r.1)
      && (r.0 != 0 ==> if r.1 < 365 then days == 36524 * (r.0 / 100) + 1 + r.1
                       else r.1 >= 366 && days == 36524 * (r.0 / 100) + r.1)
  {
    if days > 36524 then
      var e := days - 1;
      var f := e % 36524;
      (100 * (e / 36524), if f >= 365 then f + 1 else f)
    else (0, days)
  }

  /** Years and the 1-based day of year within a four-year cycle. */
  function FourYearSplit(days: int): (r: (int, int))
    ensures 0 <= days <= 36524 ==>
      && 0 <= r.0 <= 99
      && days == 365 * r.0 + (r.0 + 3) / 4 + r.1 - 1
      && 1 <= r.1 <= (if r.0 % 4 == 0 then 366 else 365)
  {
    var y := 4 * (days / 1461);
    var d := days % 1461;
    if d > 365 then (y + (d - 1) / 365, (d - 1) % 365 + 1) else (y, d + 1)
  }

  /** The Gregorian year of day count `days` and the 1-based day of that year
      (`gd` before the month walk): 400-, 100- and 4-year cycles. */
  function GregorianYearAndDay(days: int): (r: (int, int))
    ensures 1 <= r.1 <= 366
  {
    var (c, d1) := CenturySplit(days % 146097);
    var (x, gd) := FourYearSplit(d1);
    (400 * (days / 146097) + (c + x), gd)
  }

  /** The month walk of `j2g`: subtract whole month lengths while the day
      exceeds the current month's length. */
  function MonthWalk(t: seq<int>, gm: nat, gd: int): (r: (int, int))
    requires |t| == 13
    ensures gm <= r.0 && (gm <= 13 ==> r.0 <= 13)
    ensures r.0 < 13 ==> r.1 <= t[r.0]
    ensures gm < 13 && gd > t[gm] ==> r.0 > gm && r.1 >= 1
    decreases 13 - gm
  {
    if gm < 13 && gd > t[gm] then MonthWalk(t, gm + 1, gd - t[gm]) else (gm, gd)
  }

  function JalaliToGregorian(jy: int, jm: int, jd: int): (r: Date)
    ensures 1 <= r.month <= 13
    ensures r.month <= 12 ==> 1 <= r.day <= GregorianMonthTable(r.year)[r.month]
  {
    var (gy, gd) := GregorianYearAndDay(JalaliDayCount(jy, jm, jd));
    var (gm, d) := MonthWalk(GregorianMonthTable(gy), 0, gd);
    Date(gy, gm, d)
  }
}
