/** The format engine of `now`: the `StrfTimeFormat` directives, how each is
    rendered for a Jalali date and a wall-clock time, the `'default'` layout,
    and the left-to-right scanner over a format string. */
module Format {
  import opened Outcomes
  import opened Text
  import opened Locale
  import opened Converter

  // ---------------------------------------------------------------------
  // StrfTimeFormat
  // ---------------------------------------------------------------------

  datatype StrfTimeFormat =
    | Default
    | ShortWeekdayName | FullWeekdayName
    | DayOfMonth | DayOfMonthWithZero
    | ShortMonthName | FullMonthName
    | Month | MonthWithZero
    | Year | YearWithoutCenturyWithZero
    | Hour24 | Hour24WithZero | Hour12 | Hour12WithZero
    | AmOrPm
    | Minute | MinuteWithZero
    | Second | SecondWithZero

  /** The enum's string values: `default`, and otherwise `%`, a letter and,
      exactly in the unpadded variants, a `-` between them. */
  function FormatValue(f: StrfTimeFormat): (r: string)
    ensures f == Default <==> r == "default"
    ensures f != Default ==> (|r| == 2 || |r| == 3) && r[0] == '%' && (r[1] == '-' <==> |r| == 3)
  {
    match f
    case Default => "default"
    case ShortWeekdayName => "%a"
    case FullWeekdayName => "%A"
    case DayOfMonth => "%-d"
    case DayOfMonthWithZero => "%d"
    case ShortMonthName => "%b"
    case FullMonthName => "%B"
    case Month => "%-m"
    case MonthWithZero => "%m"
    case Year => "%Y"
    case YearWithoutCenturyWithZero => "%y"
    case Hour24 => "%-H"
    case Hour24WithZero => "%H"
    case Hour12 => "%-I"
    case Hour12WithZero => "%I"
    case AmOrPm => "%p"
    case Minute => "%-M"
    case MinuteWithZero => "%M"
    case Second => "%-S"
    case SecondWithZero => "%S"
  }

  /** `symbol in set(StrfTimeFormat)`, and which member it is. */
  function ParseFormat(s: string): (r: Option<StrfTimeFormat>)
    ensures r.Some? ==> FormatValue(r.value) == s
    ensures r.None? ==> forall f :: FormatValue(f) != s
  {
    if s == "default" then Some(Default)
    else if |s| == 2 && s[0] == '%' then
      var r := PaddedDirective(s[1]);
      assert r.Some? ==> FormatValue(r.value) == ['%', s[1]] == s;
      r
    else if |s| == 3 && s[0] == '%' && s[1] == '-' then
      var r := UnpaddedDirective(s[2]);
      assert r.Some? ==> FormatValue(r.value) == ['%', '-', s[2]] == s;
      r
    else None
  }

  /** The directives written `%` and one letter. */
  function PaddedDirective(letter: char): (r: Option<StrfTimeFormat>)
    ensures r.Some? ==> FormatValue(r.value) == ['%', letter]
    ensures r.None? ==> forall f :: FormatValue(f) != ['%', letter]
  {
    match letter
    case 'a' => Some(ShortWeekdayName)
    case 'A' => Some(FullWeekdayName)
    case 'd' => Some(DayOfMonthWithZero)
    case 'b' => Some(ShortMonthName)
    case 'B' => Some(FullMonthName)
    case 'm' => Some(MonthWithZero)
    case 'Y' => Some(Year)
    case 'y' => Some(YearWithoutCenturyWithZero)
    case 'H' => Some(Hour24WithZero)
    case 'I' => Some(Hour12WithZero)
    case 'p' => Some(AmOrPm)
    case 'M' => Some(MinuteWithZero)
    case 'S' => Some(SecondWithZero)
    case _ => None
  }

  /** The directives written `%-` and one letter. */
  function UnpaddedDirective(letter: char): (r: Option<StrfTimeFormat>)
    ensures r.Some? ==> FormatValue(r.value) == ['%', '-', letter]
    ensures r.None? ==> forall f :: FormatValue(f) != ['%', '-', letter]
  {
    match letter
    case 'd' => Some(DayOfMonth)
    case 'm' => Some(Month)
    case 'H' => Some(Hour24)
    case 'I' => Some(Hour12)
    case 'M' => Some(Minute)
    case 'S' => Some(Second)
    case _ => None
  }

  /** Reading a directive back from its value gives the same directive. */
  lemma ParseFormatOfValue(f: StrfTimeFormat)
    ensures ParseFormat(FormatValue(f)) == Some(f)
  {
    match f
    case Default =>
    case ShortWeekdayName =>
    case FullWeekdayName =>
    case DayOfMonth =>
    case DayOfMonthWithZero =>
    case ShortMonthName =>
    case FullMonthName =>
    case Month =>
    case MonthWithZero =>
    case Year =>
    case YearWithoutCenturyWithZero =>
    case Hour24 =>
    case Hour24WithZero =>
    case Hour12 =>
    case Hour12WithZero =>
    case AmOrPm =>
    case Minute =>
    case MinuteWithZero =>
    case Second =>
    case SecondWithZero =>
  }

  // ---------------------------------------------------------------------
  // The injected clock and what strftime makes of it
  // ---------------------------------------------------------------------

  /** The current moment, read by `datetime.now()` in the library and given
      here as a value: the Gregorian date, the weekday, the time of day, and
      `str(current_datetime.time())`. */
  datatype Clock = Clock(weekday: Weekday, hour: int, minute: int, second: int, time: string)
  datatype Moment = Moment(date: Date, clock: Clock)

  predicate IsClock(c: Clock) {
    && 0 <= c.hour <= 23 && 0 <= c.minute <= 59 && 0 <= c.second <= 59
    && forall i :: 0 <= i < |c.time| ==> !IsFarsiDigit(c.time[i])
  }

  /** strftime's `%H`-style fields pad to two digits; `%-H`-style ones do not. */
  function ClockField(n: int, padded: bool): (r: string)
    ensures n >= 0 ==> (forall i :: 0 <= i < |r| ==> IsAsciiDigit(r[i])) && DecimalValue(r) == n
    ensures padded && 0 <= n <= 99 ==> |r| == 2
    ensures !padded && n >= 0 ==> |r| >= 1 && (r[0] == '0' ==> n == 0)
  {
    if padded && 0 <= n < 10 then
      AddZeroTwoDigits(n);
      "0" + IntToString(n)
    else
      NatToStringLength(if n < 0 then 0 else n);
      IntToString(n)
  }

  /** The hour on a 12-hour dial (`%I`): 12, 1, ..., 11. */
  function Hour12Of(h: int): (r: int)
    requires 0 <= h <= 23
    ensures 1 <= r <= 12 && r % 12 == h % 12
  {
    if h % 12 == 0 then 12 else h % 12
  }

  /** strftime's `%p` in the C locale. */
  function AmPmOf(h: int): (r: string)
    ensures r == "AM" || r == "PM"
    ensures r == "AM" <==> h < 12
  {
    if h < 12 then "AM" else "PM"
  }

  // ---------------------------------------------------------------------
  // Rendering one directive
  // ---------------------------------------------------------------------

  /** A numeric fragment: Farsi digits in Farsi, ASCII otherwise. */
  function Numeric(lang: Language, s: string): (r: string)
    ensures |r| == |s|
    ensures lang == Farsi ==> forall i :: 0 <= i < |r| ==> !IsAsciiDigit(r[i])
  {
    if lang == Farsi then Localized(s) else s
  }

  predicate IsNumericFormat(f: StrfTimeFormat) {
    f in {DayOfMonth, DayOfMonthWithZero, Month, MonthWithZero, Year, YearWithoutCenturyWithZero,
          Hour24, Hour24WithZero, Hour12, Hour12WithZero, Minute, MinuteWithZero, Second, SecondWithZero}
  }

  /** The text one directive adds to the output. `Default` never reaches the
      scanner (its value does not start with `%`) and adds nothing. */
  function RenderDirective(j: Date, c: Clock, lang: Language, f: StrfTimeFormat): (r: string)
    requires 1 <= j.month <= 12
    requires 0 <= c.hour <= 23
    ensures r == [] <==> f == Default
    ensures f == ShortWeekdayName ==> |r| == 3 && r <= WeekdayName(lang, c.weekday)
    ensures f == ShortMonthName ==>
      && |r| == (if |MonthName(lang, j.month)| < 3 then |MonthName(lang, j.month)| else 3)
      && r <= MonthName(lang, j.month)
    ensures f == FullWeekdayName ==> r == WeekdayName(lang, c.weekday)
    ensures f == FullMonthName ==> r == MonthName(lang, j.month)
    ensures f == AmOrPm ==>
      r == if lang == Farsi then (if c.hour < 12 then FarsiMorning else FarsiAfternoon)
           else if c.hour < 12 then "AM" else "PM"
  {
    match f
    case Default => ""
    case ShortWeekdayName => TakeFirst(WeekdayName(lang, c.weekday), 3)
    case FullWeekdayName => WeekdayName(lang, c.weekday)
    case DayOfMonth => Numeric(lang, IntToString(j.day))
    case DayOfMonthWithZero => Numeric(lang, AddZero(j.day))
    case ShortMonthName => TakeFirst(MonthName(lang, j.month), 3)
    case FullMonthName => MonthName(lang, j.month)
    case Month => Numeric(lang, IntToString(j.month))
    case MonthWithZero => Numeric(lang, AddZero(j.month))
    case Year => Numeric(lang, IntToString(j.year))
    case YearWithoutCenturyWithZero =>
      if lang == Farsi then TakeLast(Localized(IntToString(j.year)), 2) else TakeLast(IntToString(j.year), 2)
    case Hour24 => Numeric(lang, ClockField(c.hour, false))
    case Hour24WithZero => Numeric(lang, ClockField(c.hour, true))
    case Hour12 => Numeric(lang, ClockField(Hour12Of(c.hour), false))
    case Hour12WithZero => Numeric(lang, ClockField(Hour12Of(c.hour), true))
    case AmOrPm =>
      if lang == Farsi then (if AmPmOf(c.hour) == "AM" then FarsiMorning else FarsiAfternoon)
      else AmPmOf(c.hour)
    case Minute => Numeric(lang, ClockField(c.minute, false))
    case MinuteWithZero => Numeric(lang, ClockField(c.minute, true))
    case Second => Numeric(lang, ClockField(c.second, false))
    case SecondWithZero => Numeric(lang, ClockField(c.second, true))
  }

  // ---------------------------------------------------------------------
  // The scanner
  // ---------------------------------------------------------------------

  /** `output + rest`, unless the rest of the scan raised. */
  function PrefixWith(output: string, rest: Result<string>): (r: Result<string>)
    ensures r.Err? <==> rest.Err?
    ensures r.Err? ==> r.error == rest.error
    ensures r.Ok? ==> r.value == output + rest.value
  {
    match rest
    case Ok(s) => Ok(output + s)
    case Err(e) => Err(e)
  }

  /** What the scan of `fmt` produces: a `%` that is not the last character
      opens a directive of two characters, or three when a `-` follows it;
      every other character is copied. The first bad directive, or a final
      `%-`, raises. */
  function Render(j: Date, c: Clock, lang: Language, fmt: string): (r: Result<string>)
    requires 1 <= j.month <= 12
    requires 0 <= c.hour <= 23
    ensures r.Err? && r.error.UnsupportedDirective? ==>
      var symbol := r.error.symbol;
      && ((|symbol| == 2 && symbol[1] != '-') || (|symbol| == 3 && symbol[1] == '-'))
      && symbol[0] == '%' && forall f :: FormatValue(f) != symbol
    ensures r.Err? && r.error == IndexOutOfRange ==> |fmt| >= 2 && fmt[|fmt| - 2..] == "%-"
    decreases |fmt|
  {
    if fmt == [] then Ok("")
    else if fmt[0] == '%' && |fmt| != 1 then
      if fmt[1] == '-' && |fmt| == 2 then Err(IndexOutOfRange)
      else
        var width := if fmt[1] != '-' then 2 else 3;
        var symbol := fmt[..width];
        match ParseFormat(symbol)
        case None => Err(UnsupportedDirective(symbol))
        case Some(f) => PrefixWith(RenderDirective(j, c, lang, f), Render(j, c, lang, fmt[width..]))
    else PrefixWith([fmt[0]], Render(j, c, lang, fmt[1..]))
  }

  lemma PrefixWithAppend(a: string, b: string, rest: Result<string>)
    ensures PrefixWith(a, PrefixWith(b, rest)) == PrefixWith(a + b, rest)
  {
    if rest.Ok? {
      assert a + (b + rest.value) == (a + b) + rest.value;
    }
  }

  /** One turn of the scan over a directive keeps its output in step with
      `Render`. */
  lemma ScanDirectiveStep(j: Date, c: Clock, lang: Language, fmt: string, index: nat, output: string,
                          symbol: string, f: StrfTimeFormat)
    requires 1 <= j.month <= 12 && 0 <= c.hour <= 23
    requires index + |symbol| <= |fmt| && symbol == fmt[index..index + |symbol|]
    requires (|symbol| == 2 && fmt[index + 1] != '-') || (|symbol| == 3 && fmt[index + 1] == '-')
    requires fmt[index] == '%' && ParseFormat(symbol) == Some(f)
    requires Render(j, c, lang, fmt) == PrefixWith(output, Render(j, c, lang, fmt[index..]))
    ensures Render(j, c, lang, fmt)
      == PrefixWith(output + RenderDirective(j, c, lang, f), Render(j, c, lang, fmt[index + |symbol|..]))
  {
    var rest := fmt[index..];
    assert rest[..|symbol|] == symbol;
    assert rest[|symbol|..] == fmt[index + |symbol|..];
    PrefixWithAppend(output, RenderDirective(j, c, lang, f), Render(j, c, lang, fmt[index + |symbol|..]));
  }

  /** One turn of the scan over a copied character does the same. */
  lemma ScanLiteralStep(j: Date, c: Clock, lang: Language, fmt: string, index: nat, output: string)
    requires 1 <= j.month <= 12 && 0 <= c.hour <= 23
    requires index < |fmt| && !(fmt[index] == '%' && index != |fmt| - 1)
    requires Render(j, c, lang, fmt) == PrefixWith(output, Render(j, c, lang, fmt[index..]))
    ensures Render(j, c, lang, fmt) == PrefixWith(output + [fmt[index]], Render(j, c, lang, fmt[index + 1..]))
  {
    assert fmt[index..][1..] == fmt[index + 1..];
    PrefixWithAppend(output, [fmt[index]], Render(j, c, lang, fmt[index + 1..]));
  }

  /** A turn of the scan that meets an unknown directive or a final `%-`
      raises what `Render` raises. */
  lemma ScanErrorStep(j: Date, c: Clock, lang: Language, fmt: string, index: nat, output: string, symbol: string)
    requires 1 <= j.month <= 12 && 0 <= c.hour <= 23
    requires index < |fmt| - 1 && fmt[index] == '%'
    requires Render(j, c, lang, fmt) == PrefixWith(output, Render(j, c, lang, fmt[index..]))
    requires || (index + 2 == |fmt| && fmt[index + 1] == '-' && symbol == [])
             || (index + |symbol| <= |fmt| && symbol == fmt[index..index + |symbol|] && ParseFormat(symbol).None?
                 && ((|symbol| == 2 && fmt[index + 1] != '-') || (|symbol| == 3 && fmt[index + 1] == '-')))
    ensures Render(j, c, lang, fmt) == Err(if symbol == [] then IndexOutOfRange else UnsupportedDirective(symbol))
  {
    assert fmt[index..][..|symbol|] == symbol;
  }

  /** The scan's turn at a `%` that is not the last character: the output
      with the directive's text added and the index after the directive,
      or what the directive raises. */
  method ScanDirective(j: Date, c: Clock, lang: Language, fmt: string, index: nat, output: string)
    returns (r: Result<(string, nat)>)
    requires 1 <= j.month <= 12 && 0 <= c.hour <= 23
    requires index < |fmt| - 1 && fmt[index] == '%'
    requires Render(j, c, lang, fmt) == PrefixWith(output, Render(j, c, lang, fmt[index..]))
    ensures r.Err? ==> Render(j, c, lang, fmt) == Err(r.error)
    ensures r.Ok? ==>
      && index < r.value.1 <= |fmt|
      && Render(j, c, lang, fmt) == PrefixWith(r.value.0, Render(j, c, lang, fmt[r.value.1..]))
  {
    var symbol;
    if fmt[index + 1] != '-' {
      symbol := fmt[index..index + 2];
    } else if index + 2 < |fmt| {
      symbol := fmt[index..index + 3];
    } else {
      ScanErrorStep(j, c, lang, fmt, index, output, []);
      return Err(IndexOutOfRange);
    }
    match ParseFormat(symbol) {
      case None =>
        ScanErrorStep(j, c, lang, fmt, index, output, symbol);
        return Err(UnsupportedDirective(symbol));
      case Some(f) =>
        ScanDirectiveStep(j, c, lang, fmt, index, output, symbol, f);
        return Ok((output + RenderDirective(j, c, lang, f), index + |symbol|));
    }
  }

  /** The scan of the non-default branch of `now`: `index` moves forward by
      one, two or three characters on every turn, so the scan ends. */
  method Scan(j: Date, c: Clock, lang: Language, fmt: string) returns (r: Result<string>)
    requires 1 <= j.month <= 12
    requires 0 <= c.hour <= 23
    ensures r == Render(j, c, lang, fmt)
  {
    var output, index := "", 0;
    assert fmt[index..] == fmt;
    assert PrefixWith(output, Render(j, c, lang, fmt)) == Render(j, c, lang, fmt) by {
      assert forall s: string :: output + s == s;
    }
    while index < |fmt|
      invariant 0 <= index <= |fmt|
      invariant Render(j, c, lang, fmt) == PrefixWith(output, Render(j, c, lang, fmt[index..]))
      decreases |fmt| - index
    {
      if fmt[index] == '%' && index != |fmt| - 1 {
        var step := ScanDirective(j, c, lang, fmt, index, output);
        if step.Err? {
          return Err(step.error);
        }
        output, index := step.value.0, step.value.1;
      } else {
        ScanLiteralStep(j, c, lang, fmt, index, output);
        output := output + [fmt[index]];
        index := index + 1;
      }
    }
    assert fmt[index..] == [];
    assert output + "" == output;
    return Ok(output);
  }

  // ---------------------------------------------------------------------
  // The 'default' layout and `now`
  // ---------------------------------------------------------------------

  /** `year/month/day`, a space, and the time string; digits localized in
      Farsi. */
  function DefaultLayout(j: Date, c: Clock, lang: Language): (r: string)
    ensures |r| == |IntToString(j.year)| + |IntToString(j.month)| + |IntToString(j.day)| + 3 + |c.time|
    ensures r[|r| - |c.time| - 1] == ' '
    ensures r[|r| - |c.time|..] == if lang == Farsi then Localized(c.time) else c.time
    ensures lang == Fingilish ==>
      r[..|r| - |c.time| - 1] == IntToString(j.year) + "/" + IntToString(j.month) + "/" + IntToString(j.day)
  {
    var date := IntToString(j.year) + "/" + IntToString(j.month) + "/" + IntToString(j.day);
    if lang == Farsi then Localized(date) + " " + Localized(c.time) else date + " " + c.time
  }

  /** What `now(strftime, lang)` returns at moment `m`: the language is
      checked first, then the date converted, then the format applied. */
  function Formatted(m: Moment, fmt: string, lang: string): (r: Result<string>)
    requires 0 <= m.clock.hour <= 23
    ensures r.Ok? ==> ParseLanguage(lang).Ok? && -11 <= m.date.month <= 12
    ensures ParseLanguage(lang).Ok? && !(-11 <= m.date.month <= 12) ==> r == Err(IndexOutOfRange)
    ensures ParseLanguage(lang).Ok? && -11 <= m.date.month <= 12 && fmt == "default" ==> r.Ok?
  {
    match ParseLanguage(lang)
    case Err(e) => Err(e)
    case Ok(l) =>
      match GregorianToJalali(m.date.year, m.date.month, m.date.day)
      case Err(e) => Err(e)
      case Ok(j) => if fmt == "default" then Ok(DefaultLayout(j, m.clock, l)) else Render(j, m.clock, l, fmt)
  }
}
