/** Properties of the format engine: literal text passes through, each
    directive renders its field, bad directives and languages are rejected,
    and Farsi output is the Fingilish output with its digits localized. */
module FormatProofs {
  import opened Outcomes
  import opened Text
  import opened Locale
  import opened Converter
  import opened ConverterProofs
  import opened Format

  /** No `%` that could open a directive: none before the last character. */
  predicate HasNoDirective(fmt: string) {
    forall i :: 0 <= i < |fmt| - 1 ==> fmt[i] != '%'
  }

  predicate HasNoPercent(s: string) {
    forall i :: 0 <= i < |s| ==> s[i] != '%'
  }

  /** A format string with no directive comes back unchanged, a final `%`
      included. */
  lemma {:induction false} RenderCopiesLiterals(j: Date, c: Clock, lang: Language, fmt: string)
    requires 1 <= j.month <= 12 && 0 <= c.hour <= 23
    requires HasNoDirective(fmt)
    ensures Render(j, c, lang, fmt) == Ok(fmt)
    decreases |fmt|
  {
    if fmt != [] {
      RenderCopiesLiterals(j, c, lang, fmt[1..]);
      assert [fmt[0]] + fmt[1..] == fmt;
    }
  }

  /** Text without `%` in front of the rest of a format is copied ahead of
      whatever the rest renders to, or of its error. */
  lemma {:induction false} RenderLiteralPrefix(j: Date, c: Clock, lang: Language, a: string, b: string)
    requires 1 <= j.month <= 12 && 0 <= c.hour <= 23
    requires HasNoPercent(a)
    ensures Render(j, c, lang, a + b) == PrefixWith(a, Render(j, c, lang, b))
    decreases |a|
  {
    if a == [] {
      assert a + b == b;
      PrefixWithEmpty(Render(j, c, lang, b));
    } else {
      assert (a + b)[1..] == a[1..] + b;
      RenderLiteralPrefix(j, c, lang, a[1..], b);
      PrefixWithAppend([a[0]], a[1..], Render(j, c, lang, b));
      assert [a[0]] + a[1..] == a;
    }
  }

  lemma PrefixWithEmpty(rest: Result<string>)
    ensures PrefixWith("", rest) == rest
  {
    if rest.Ok? {
      assert "" + rest.value == rest.value;
    }
  }

  /** A directive token renders its field and the scan goes on right after
      it. */
  lemma RenderDirectiveToken(j: Date, c: Clock, lang: Language, f: StrfTimeFormat, rest: string)
    requires 1 <= j.month <= 12 && 0 <= c.hour <= 23
    requires f != Default
    ensures Render(j, c, lang, FormatValue(f) + rest)
            == PrefixWith(RenderDirective(j, c, lang, f), Render(j, c, lang, rest))
  {
    var v := FormatValue(f);
    var fmt := v + rest;
    var width := if fmt[1] != '-' then 2 else 3;
    assert width == |v|;
    assert fmt[..width] == v;
    assert fmt[width..] == rest;
    ParseFormatOfValue(f);
    assert Render(j, c, lang, fmt) == PrefixWith(RenderDirective(j, c, lang, f), Render(j, c, lang, fmt[width..]));
  }

  /** The first `%` token outside the enum raises, naming that token, whatever
      follows it. */
  lemma RenderRejectsUnknown(j: Date, c: Clock, lang: Language, a: string, symbol: string, rest: string)
    requires 1 <= j.month <= 12 && 0 <= c.hour <= 23
    requires HasNoPercent(a)
    requires |symbol| >= 2 && symbol[0] == '%'
    requires (|symbol| == 2 && symbol[1] != '-') || (|symbol| == 3 && symbol[1] == '-')
    requires forall f :: FormatValue(f) != symbol
    ensures Render(j, c, lang, a + symbol + rest) == Err(UnsupportedDirective(symbol))
  {
    assert a + symbol + rest == a + (symbol + rest);
    RenderLiteralPrefix(j, c, lang, a, symbol + rest);
    var fmt := symbol + rest;
    assert fmt[0] == '%' && fmt[1] == symbol[1] && |fmt| >= |symbol|;
    assert fmt[..|symbol|] == symbol;
    assert ParseFormat(symbol).None?;
    var width := if fmt[1] != '-' then 2 else 3;
    assert width == |symbol|;
    assert !(fmt[1] == '-' && |fmt| == 2);
    assert Render(j, c, lang, fmt) == Err(UnsupportedDirective(symbol));
  }

  /** A format that ends in `%-` reads past its end. */
  lemma RenderRejectsTrailingDash(j: Date, c: Clock, lang: Language, a: string)
    requires 1 <= j.month <= 12 && 0 <= c.hour <= 23
    requires HasNoPercent(a)
    ensures Render(j, c, lang, a + "%-") == Err(IndexOutOfRange)
  {
    RenderLiteralPrefix(j, c, lang, a, "%-");
  }

  /** The scan raises only the two errors of the format string itself. */
  lemma {:induction false} RenderErrors(j: Date, c: Clock, lang: Language, fmt: string)
    requires 1 <= j.month <= 12 && 0 <= c.hour <= 23
    ensures Render(j, c, lang, fmt).Err? ==>
      Render(j, c, lang, fmt).error.UnsupportedDirective? || Render(j, c, lang, fmt).error == IndexOutOfRange
    decreases |fmt|
  {
    if fmt != [] {
      if fmt[0] == '%' && |fmt| != 1 {
        if !(fmt[1] == '-' && |fmt| == 2) {
          RenderErrors(j, c, lang, fmt[if fmt[1] != '-' then 2 else 3..]);
        }
      } else {
        RenderErrors(j, c, lang, fmt[1..]);
      }
    }
  }

  // ---------------------------------------------------------------------
  // What each directive renders
  // ---------------------------------------------------------------------

  /** The number a numeric directive shows. */
  function FieldOf(j: Date, c: Clock, f: StrfTimeFormat): int
    requires IsNumericFormat(f) && 0 <= c.hour <= 23
  {
    match f
    case DayOfMonth | DayOfMonthWithZero => j.day
    case Month | MonthWithZero => j.month
    case Year | YearWithoutCenturyWithZero => j.year
    case Hour24 | Hour24WithZero => c.hour
    case Hour12 | Hour12WithZero => Hour12Of(c.hour)
    case Minute | MinuteWithZero => c.minute
    case Second | SecondWithZero => c.second
  }

  /** In Farsi a numeric directive renders exactly the Fingilish text with
      its digits localized, so no ASCII digit is left in it. */
  lemma FarsiIsLocalizedFingilish(j: Date, c: Clock, f: StrfTimeFormat)
    requires 1 <= j.month <= 12 && 0 <= c.hour <= 23
    requires IsNumericFormat(f)
    ensures RenderDirective(j, c, Farsi, f) == Localized(RenderDirective(j, c, Fingilish, f))
    ensures forall i :: 0 <= i < |RenderDirective(j, c, Farsi, f)| ==> !IsAsciiDigit(RenderDirective(j, c, Farsi, f)[i])
  {
    if f == YearWithoutCenturyWithZero {
      LocalizedTakeLast(IntToString(j.year), 2);
    }
    var s := RenderDirective(j, c, Fingilish, f);
    forall i | 0 <= i < |s|
      ensures !IsAsciiDigit(Localized(s)[i])
    {
      assert Localized(s)[i] == LocalizeChar(s[i]);
    }
  }

  /** The `WithZero` directives of a real date and time render two ASCII
      digits whose value is the field. */
  lemma PaddedFieldsTwoDigits(j: Date, c: Clock, f: StrfTimeFormat)
    requires IsJalaliDate(j) && IsClock(c)
    requires f in {DayOfMonthWithZero, MonthWithZero, Hour24WithZero, Hour12WithZero, MinuteWithZero, SecondWithZero}
    ensures var s := RenderDirective(j, c, Fingilish, f);
      && |s| == 2
      && (forall i :: 0 <= i < 2 ==> IsAsciiDigit(s[i]))
      && DecimalValue(s) == FieldOf(j, c, f)
  {
    var n := FieldOf(j, c, f);
    AddZeroTwoDigits(n);
    NatToStringLength(n);
  }

  /** The unpadded directives of a real date and time render the field's
      decimal digits without a leading zero. */
  lemma UnpaddedFieldsDigits(j: Date, c: Clock, f: StrfTimeFormat)
    requires IsJalaliDate(j) && IsClock(c)
    requires f in {DayOfMonth, Month, Hour24, Hour12, Minute, Second}
    ensures var s := RenderDirective(j, c, Fingilish, f);
      && (forall i :: 0 <= i < |s| ==> IsAsciiDigit(s[i]))
      && DecimalValue(s) == FieldOf(j, c, f)
      && (s[0] == '0' ==> FieldOf(j, c, f) == 0)
  {
    DecimalValueOfNatToString(FieldOf(j, c, f));
  }

  /** `%Y` in Fingilish is `str` of the Jalali year: a sign exactly for a
      negative year, then its decimal digits without a leading zero. */
  lemma YearIsDecimal(j: Date, c: Clock)
    requires 1 <= j.month <= 12 && 0 <= c.hour <= 23
    ensures var s := RenderDirective(j, c, Fingilish, Year);
      && |s| >= 1 && (s[0] == '-' <==> j.year < 0)
      && var digits := if j.year < 0 then s[1..] else s;
      && |digits| >= 1 && (forall i :: 0 <= i < |digits| ==> IsAsciiDigit(digits[i]))
      && (digits[0] == '0' ==> j.year == 0)
      && DecimalValue(digits) == if j.year < 0 then -j.year else j.year
  {
    assert RenderDirective(j, c, Fingilish, Year) == IntToString(j.year);
  }

  /** The last digit of `str(n)`. */
  lemma LastDigit(n: nat)
    ensures NatToString(n)[|NatToString(n)| - 1] == DigitChar(n % 10)
  {
  }

  /** `%y` of a year from 10 on is its last two digits; of a year 0..9 it is
      the single digit, not padded. */
  lemma TwoDigitYear(j: Date, c: Clock)
    requires 1 <= j.month <= 12 && 0 <= c.hour <= 23 && j.year >= 0
    ensures var s := RenderDirective(j, c, Fingilish, YearWithoutCenturyWithZero);
      && (j.year >= 10 ==> |s| == 2 && s[0] == DigitChar(j.year / 10 % 10) && s[1] == DigitChar(j.year % 10))
      && (j.year < 10 ==> s == [DigitChar(j.year)])
  {
    var n := j.year;
    if n >= 10 {
      LastDigit(n / 10);
      NatToStringLength(n / 10);
    }
  }

  /** The `'default'` layout in Farsi is the Fingilish one with every digit
      localized. */
  lemma DefaultLayoutLocalized(j: Date, c: Clock)
    ensures DefaultLayout(j, c, Farsi) == Localized(DefaultLayout(j, c, Fingilish))
  {
    var date := IntToString(j.year) + "/" + IntToString(j.month) + "/" + IntToString(j.day);
    var ld, lt := Localized(date), Localized(c.time);
    LocalizedAppend(date, " ");
    LocalizedNoDigits(" ");
    assert Localized(date + " ") == ld + " ";
    LocalizedAppend(date + " ", c.time);
    assert Localized(date + " " + c.time) == ld + " " + lt;
  }

  // ---------------------------------------------------------------------
  // now
  // ---------------------------------------------------------------------

  /** `now` raises the language error exactly when `lang` is not one of the
      enum's values, and then before looking at the format. */
  lemma FormattedChecksLanguage(m: Moment, fmt: string, lang: string)
    requires 0 <= m.clock.hour <= 23
    ensures Formatted(m, fmt, lang) == Err(UnsupportedLanguage) <==> lang != "farsi" && lang != "fingilish"
  {
    var l := ParseLanguage(lang);
    if l.Ok? {
      var g := GregorianToJalali(m.date.year, m.date.month, m.date.day);
      if g.Ok? && fmt != "default" {
        RenderErrors(g.value, m.clock, l.value, fmt);
      }
    }
  }

  /** For any real date, a format other than `'default'` with no directive
      comes back unchanged. */
  lemma FormattedCopiesLiterals(m: Moment, fmt: string, lang: string)
    requires 0 <= m.clock.hour <= 23 && IsGregorianDate(m.date)
    requires lang == "farsi" || lang == "fingilish"
    requires fmt != "default" && HasNoDirective(fmt)
    ensures Formatted(m, fmt, lang) == Ok(fmt)
  {
    var g := GregorianToJalali(m.date.year, m.date.month, m.date.day);
    RenderCopiesLiterals(g.value, m.clock, ParseLanguage(lang).value, fmt);
  }

  /** `%z` is not a directive: `now('%z')` raises for any real date. */
  lemma FormattedRejectsZ(m: Moment, lang: string)
    requires 0 <= m.clock.hour <= 23 && IsGregorianDate(m.date)
    requires lang == "farsi" || lang == "fingilish"
    ensures Formatted(m, "%z", lang) == Err(UnsupportedDirective("%z"))
  {
    var g := GregorianToJalali(m.date.year, m.date.month, m.date.day);
    RenderRejectsUnknown(g.value, m.clock, ParseLanguage(lang).value, "", "%z", "");
    assert "" + "%z" + "" == "%z";
  }

  /** A directive, then literal text, then the rest of the format. */
  lemma RenderTokenThenText(j: Date, c: Clock, lang: Language, f: StrfTimeFormat, text: string, rest: string)
    requires 1 <= j.month <= 12 && 0 <= c.hour <= 23
    requires f != Default && HasNoPercent(text)
    ensures Render(j, c, lang, FormatValue(f) + text + rest)
            == PrefixWith(RenderDirective(j, c, lang, f) + text, Render(j, c, lang, rest))
  {
    assert FormatValue(f) + text + rest == FormatValue(f) + (text + rest);
    RenderDirectiveToken(j, c, lang, f, text + rest);
    RenderLiteralPrefix(j, c, lang, text, rest);
    PrefixWithAppend(RenderDirective(j, c, lang, f), text, Render(j, c, lang, rest));
  }

  /** Three directives with literal text between them, rendered token by
      token. */
  lemma RenderThreeTokens(j: Date, c: Clock, lang: Language, f1: StrfTimeFormat, t1: string,
                          f2: StrfTimeFormat, t2: string, f3: StrfTimeFormat)
    requires 1 <= j.month <= 12 && 0 <= c.hour <= 23
    requires f1 != Default && f2 != Default && f3 != Default
    requires HasNoPercent(t1) && HasNoPercent(t2)
    ensures Render(j, c, lang, FormatValue(f1) + t1 + (FormatValue(f2) + t2 + (FormatValue(f3) + "" + "")))
            == Ok(RenderDirective(j, c, lang, f1) + t1 + (RenderDirective(j, c, lang, f2) + t2
                  + (RenderDirective(j, c, lang, f3) + "")))
  {
    var d1, d2, d3 := RenderDirective(j, c, lang, f1), RenderDirective(j, c, lang, f2), RenderDirective(j, c, lang, f3);
    var r3 := FormatValue(f3) + "" + "";
    var r2 := FormatValue(f2) + t2 + r3;
    RenderTokenThenText(j, c, lang, f3, "", "");
    assert Render(j, c, lang, "") == Ok("");
    assert Render(j, c, lang, r3) == Ok(d3 + "" + "");
    assert d3 + "" + "" == d3 + "";
    RenderTokenThenText(j, c, lang, f2, t2, r3);
    assert Render(j, c, lang, r2) == Ok(d2 + t2 + (d3 + ""));
    RenderTokenThenText(j, c, lang, f1, t1, r2);
  }

  lemma Str1403()
    ensures IntToString(1403) == "1403"
  {
    assert NatToString(1) == "1";
    assert NatToString(14) == "14";
    assert NatToString(140) == "140";
  }

  /** The year, month and day fields of 1 Farvardin 1403 with Latin digits. */
  lemma NowruzFields(c: Clock)
    requires 0 <= c.hour <= 23
    ensures RenderDirective(Date(1403, 1, 1), c, Fingilish, Year) == "1403"
    ensures RenderDirective(Date(1403, 1, 1), c, Fingilish, MonthWithZero) == "01"
    ensures RenderDirective(Date(1403, 1, 1), c, Fingilish, DayOfMonthWithZero) == "01"
  {
    Str1403();
    assert AddZero(1) == "01";
  }

  /** The same fields with Farsi digits. */
  lemma NowruzFieldsFarsi(c: Clock)
    requires 0 <= c.hour <= 23
    ensures RenderDirective(Date(1403, 1, 1), c, Farsi, Year) == "۱۴۰۳"
    ensures RenderDirective(Date(1403, 1, 1), c, Farsi, MonthWithZero) == "۰۱"
    ensures RenderDirective(Date(1403, 1, 1), c, Farsi, DayOfMonthWithZero) == "۰۱"
  {
    NowruzFields(c);
    NowruzDigits();
    FarsiIsLocalizedFingilish(Date(1403, 1, 1), c, Year);
    FarsiIsLocalizedFingilish(Date(1403, 1, 1), c, MonthWithZero);
    FarsiIsLocalizedFingilish(Date(1403, 1, 1), c, DayOfMonthWithZero);
  }

  lemma NowruzDigits()
    ensures Localized("1403") == "۱۴۰۳" && Localized("01") == "۰۱"
  {
  }

  /** `%Y/%m/%d` renders the year, month and day fields with `/` between
      them. */
  lemma RenderYearMonthDay(j: Date, c: Clock, lang: Language, y: string, m: string, d: string)
    requires 1 <= j.month <= 12 && 0 <= c.hour <= 23
    requires RenderDirective(j, c, lang, Year) == y
    requires RenderDirective(j, c, lang, MonthWithZero) == m
    requires RenderDirective(j, c, lang, DayOfMonthWithZero) == d
    ensures Render(j, c, lang, "%Y/%m/%d") == Ok(y + "/" + m + "/" + d)
  {
    assert y + "/" + (m + "/" + (d + "")) == y + "/" + m + "/" + d;
    YearMonthDayTokens();
    RenderThreeTokens(j, c, lang, Year, "/", MonthWithZero, "/", DayOfMonthWithZero);
  }

  lemma YearMonthDayTokens()
    ensures FormatValue(Year) + "/" + (FormatValue(MonthWithZero) + "/" + (FormatValue(DayOfMonthWithZero) + "" + ""))
      == "%Y/%m/%d"
  {
  }

  /** `%Y/%m/%d` of 1 Farvardin 1403 with Latin digits. */
  lemma RenderNowruz(c: Clock)
    requires 0 <= c.hour <= 23
    ensures Render(Date(1403, 1, 1), c, Fingilish, "%Y/%m/%d") == Ok("1403/01/01")
  {
    assert "1403" + "/" + "01" + "/" + "01" == "1403/01/01";
    NowruzFields(c);
    RenderYearMonthDay(Date(1403, 1, 1), c, Fingilish, "1403", "01", "01");
  }

  /** `%Y/%m/%d` of 1 Farvardin 1403 with Farsi digits. */
  lemma RenderNowruzFarsi(c: Clock)
    requires 0 <= c.hour <= 23
    ensures Render(Date(1403, 1, 1), c, Farsi, "%Y/%m/%d") == Ok("۱۴۰۳/۰۱/۰۱")
  {
    assert "۱۴۰۳" + "/" + "۰۱" + "/" + "۰۱" == "۱۴۰۳/۰۱/۰۱";
    NowruzFieldsFarsi(c);
    RenderYearMonthDay(Date(1403, 1, 1), c, Farsi, "۱۴۰۳", "۰۱", "۰۱");
  }

  /** Nowruz 1403 (20 March 2024) through `now`: `%Y/%m/%d` in both languages
      and the `'default'` layout. */
  lemma NowruzFormatted(c: Clock)
    requires 0 <= c.hour <= 23
    ensures Formatted(Moment(Date(2024, 3, 20), c), "%Y/%m/%d", "fingilish") == Ok("1403/01/01")
    ensures Formatted(Moment(Date(2024, 3, 20), c), "%Y/%m/%d", "farsi") == Ok("۱۴۰۳/۰۱/۰۱")
    ensures Formatted(Moment(Date(2024, 3, 20), c), "default", "fingilish") == Ok("1403/1/1 " + c.time)
  {
    var m := Moment(Date(2024, 3, 20), c);
    var j := Date(1403, 1, 1);
    NowruzVector();
    RenderNowruz(c);
    RenderNowruzFarsi(c);
    NowruzDefault(c);
    assert ParseLanguage("fingilish") == Ok(Fingilish);
    assert ParseLanguage("farsi") == Ok(Farsi);
    FormattedUnfold(m, "%Y/%m/%d", "fingilish", j, Fingilish);
    FormattedUnfold(m, "%Y/%m/%d", "farsi", j, Farsi);
    FormattedUnfold(m, "default", "fingilish", j, Fingilish);
  }

  /** The `'default'` layout of 1 Farvardin 1403 with Latin digits. */
  lemma NowruzDefault(c: Clock)
    ensures DefaultLayout(Date(1403, 1, 1), c, Fingilish) == "1403/1/1 " + c.time
  {
    Str1403();
    assert IntToString(1) == "1";
  }

  /** `now` reduced to its two branches once the language and the date are known. */
  lemma FormattedUnfold(m: Moment, fmt: string, lang: string, j: Date, l: Language)
    requires 0 <= m.clock.hour <= 23
    requires ParseLanguage(lang) == Ok(l)
    requires GregorianToJalali(m.date.year, m.date.month, m.date.day) == Ok(j)
    ensures Formatted(m, fmt, lang) == if fmt == "default" then Ok(DefaultLayout(j, m.clock, l)) else Render(j, m.clock, l, fmt)
  {
  }
}
