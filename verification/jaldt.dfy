/** The library's public operations: `g2j` is `Converter.G2J`; `j2g` and
    `now` are the two below, each proved against its specification. */
module Jaldt {
  import opened Outcomes
  import opened Text
  import opened Locale
  import opened Converter
  import opened ConverterProofs
  import opened Format

  /** `j2g`: TypeError for a non-int argument; otherwise the day count is
      split into a year and a day of year, and the month walk subtracts whole
      month lengths until the day fits. The answer is always a real
      Gregorian date with the same day number as the Jalali input. */
  method J2G(jy: Arg, jm: Arg, jd: Arg) returns (r: Result<Date>)
    ensures (jy.NonInt? || jm.NonInt? || jd.NonInt?) <==> r == Err(TypeMismatch)
    ensures jy.Int? && jm.Int? && jd.Int? ==>
      && r == Ok(JalaliToGregorian(jy.value, jm.value, jd.value))
      && IsGregorianDate(r.value)
      && GregorianDayNumber(r.value) == JalaliDayNumber(Date(jy.value, jm.value, jd.value))
  {
    if jy.NonInt? || jm.NonInt? || jd.NonInt? {
      return Err(TypeMismatch);
    }
    var (gy, gd0) := GregorianYearAndDay(JalaliDayCount(jy.value, jm.value, jd.value));
    var salA := GregorianMonthTable(gy);
    var gm: nat, gd := 0, gd0;
    while gm < 13 && gd > salA[gm]
      invariant gm <= 13
      invariant MonthWalk(salA, gm, gd) == MonthWalk(salA, 0, gd0)
      decreases 13 - gm
    {
      gd := gd - salA[gm];
      gm := gm + 1;
    }
    assert (gm, gd) == MonthWalk(salA, 0, gd0);
    var g := Date(gy, gm, gd);
    assert g == JalaliToGregorian(jy.value, jm.value, jd.value);
    JalaliToGregorianKeepsDayNumber(jy.value, jm.value, jd.value);
    return Ok(g);
  }

  /** `now(strftime, lang)` at the injected moment `m`. */
  method Now(m: Moment, fmt: string, lang: string) returns (r: Result<string>)
    requires 0 <= m.clock.hour <= 23
    ensures r == Formatted(m, fmt, lang)
  {
    var l := ParseLanguage(lang);
    if l.Err? {
      return Err(l.error);
    }
    var jalali := GregorianToJalali(m.date.year, m.date.month, m.date.day);
    if jalali.Err? {
      return Err(jalali.error);
    }
    var j := jalali.value;
    if fmt == "default" {
      var date := IntToString(j.year) + "/" + IntToString(j.month) + "/" + IntToString(j.day);
      if l.value == Farsi {
        var d := ConvertNumbers(date);
        var t := ConvertNumbers(m.clock.time);
        return Ok(d + " " + t);
      }
      return Ok(date + " " + m.clock.time);
    }
    r := Scan(j, m.clock, l.value, fmt);
  }
}
