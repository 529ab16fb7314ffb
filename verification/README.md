# Jaldt in Dafny

Jaldt is a small Python library for the Jalali (Solar Hijri) calendar. This
project models its core, `src/jaldt/__init__.py`, in two parts.

**The calendar converter.**
- `g2j` turns a Gregorian date into a Jalali one. It builds a day count from a fixed epoch, then splits it by the 33-year (12053-day) and 4-year (1461-day) cycles and two month bands.
- `j2g` goes the other way. It splits the day count by the 400-, 100- and 4-year Gregorian cycles, then walks a month-length table.
- Both reject an argument that is not an `int` before any arithmetic.
- `g2j` raises `IndexError` when `gm - 1` falls outside Python's index range of its 12-entry month table. It accepts `gm` from -11 to 12, because negative indices count from the end.

**The format engine of `now`.** This is everything in `now` except the clock read:
- the language check;
- `convert_numbers`, which swaps ASCII digits for Farsi digits;
- `add_zero`;
- the `'default'` layout;
- the left-to-right `%`-directive scanner with its weekday and month tables;
- the `StrfTimeFormat` and `Language` enums.

The current moment is a parameter (`Format.Moment`): a Gregorian date, a weekday, the hour, minute and second, and the text of `str(datetime.time())`. With it, `now` becomes a deterministic function of its inputs.

Modules:
- `Outcomes`: the error outcomes. `TypeError` for a non-int argument is `TypeMismatch`. `IndexError` is `IndexOutOfRange`. The `TypeError` for a bad language is `UnsupportedLanguage`. The `TypeError` for a bad directive is `UnsupportedDirective`.
- `Converter`: `g2j` as functions. `j2g` as a specification function.
- `ConverterProofs`: day numbers for both calendars, the bounds, the 2024 Nowruz vector and both round trips.
- `Text`: `str(int)`, `add_zero`, slicing, `convert_numbers` (a loop) and its specification.
- `Locale`: the `Language` enum and the name tables.
- `Format`: the `StrfTimeFormat` enum, one directive's rendering, the scanner (a loop) and its specification `Render`, and `Formatted`, the specification of `now`.
- `FormatProofs`: what the scanner copies, renders and rejects, and how the Farsi output relates to the Fingilish one.
- `Jaldt`: `j2g` with its month-walk loop, and `now`. Each is proved equal to its specification.

Both round trips hold for every integer year, not just a window. The Jalali leap years are those of the 33-year arithmetic cycle that `g2j` and `j2g` share: year `jy` is a leap year when `r = (jy + 1595) % 33` has `r % 4 == 0` and `r != 32`.

`g2j` checks the Gregorian month only through its list lookup `g_d_m[gm - 1]`. A month in -11..12 passes, because Python counts negative indices from the end; any other month raises `IndexError`. The model does the same.

## Model

| member | source | states |
|---|---|---|
| Converter.PyIndex | src/jaldt/__init__.py:136 | Python list indexing succeeds exactly for indices in `-len..len-1`; it gives the entry counted from the start, or from the end for a negative index; any other index raises `IndexError` |
| Converter.GregorianDayCount | src/jaldt/__init__.py:129-136 | the day count of `g2j` exists exactly when `gm` is in -11..12; any other month raises `IndexError` |
| Converter.JalaliYearAndDay | src/jaldt/__init__.py:137-144 | the 33-year and 4-year split ends in a Jalali year whose start plus the 0-based day is the count, with the day inside that year's length |
| Converter.JalaliMonthAndDay | src/jaldt/__init__.py:146-151 | for a day of the year 0..365, the two bands give a month 1..12 and a day 1..31 in months 1-6 or 1..30 in months 7-12, which count back to that day of the year |
| Converter.GregorianToJalali | src/jaldt/__init__.py:129-153 | `g2j` on ints succeeds exactly for `gm` in -11..12; the Jalali month is then in 1..12, with day 1..31 in months 1-6 and 1..30 in months 7-12 |
| Converter.G2J | src/jaldt/__init__.py:125-127 | any non-int argument raises the type error, and only then; all-int arguments give exactly the conversion |
| ConverterProofs.JalaliDayCountInYear | src/jaldt/__init__.py:172-178 | `JalaliDayCount` is the count `j2g` builds at these lines; for a valid Jalali date that count lies within that date's own Jalali year: from the count of its 1 Farvardin up to, but not including, the count of the next year's 1 Farvardin |
| Converter.CenturySplit | src/jaldt/__init__.py:180-187 | a day 0..146096 of a 400-year cycle falls in century 0, 100, 200 or 300 at a day 0..36524; in a later century that day skips the number 365, the day a non-leap first year lacks |
| Converter.FourYearSplit | src/jaldt/__init__.py:189-194 | a day 0..36524 of a century falls in year 0..99 of it, on a 1-based day within that year (366 days when the year is a multiple of 4), and the two count back to the day |
| Converter.GregorianYearAndDay | src/jaldt/__init__.py:180-194 | the day of the year `gd` handed to the month walk is always in 1..366 |
| Converter.GregorianMonthTable | src/jaldt/__init__.py:196-200 | `sal_a` has 13 entries with entry 0 equal to 0; every month has 28..31 days, and February has 29 exactly in a leap year |
| Converter.MonthWalk | src/jaldt/__init__.py:201-205 | the walk never goes back and stops at month 13 at the latest; if it stops before 13, the day fits that month; a day too large for the current month always moves it on with a positive day |
| Converter.JalaliToGregorian | src/jaldt/__init__.py:156-207 | `j2g` gives a month in 1..13 and, for months up to 12, a day within that month; `ConverterProofs.JalaliToGregorianIsDate` rules out month 13 |
| ConverterProofs.GregorianDayCountIsDayNumber | src/jaldt/__init__.py:129-136 | the day count of `g2j` is the epoch plus the date's day number (year start, month offset with the leap day after February, and the day) |
| ConverterProofs.JalaliMonthAndDayCorrect | src/jaldt/__init__.py:146-151 | the two month bands turn a day of the year into a valid Jalali month and day that count back to it |
| ConverterProofs.JalaliMonthAndDayFinds | src/jaldt/__init__.py:146-151 | for a valid Jalali date, the bands find its month and day again |
| ConverterProofs.GregorianToJalaliKeepsDayNumber | src/jaldt/__init__.py:113-153 | for months 1..12 and any day, `g2j` answers with a valid Jalali date that has the same day number |
| ConverterProofs.CycleSplitCorrect | src/jaldt/__init__.py:182-194 | within a 400-year cycle, the century and four-year splits find a year of the cycle and a 1-based day inside that year |
| ConverterProofs.GregorianYearAndDayCorrect | src/jaldt/__init__.py:180-194 | the 400/100/4-year split of `j2g` lands on a year whose start plus `gd - 1` is the count, with `gd` within the year's length |
| ConverterProofs.CycleLift | src/jaldt/__init__.py:180-181 | a year and day found inside the first 400-year cycle are the same day of the year 400 `q` later, 146097 `q` days later |
| ConverterProofs.GregorianCycle | src/jaldt/__init__.py:180-181 | 400 Gregorian years are 146097 days and repeat the leap pattern |
| ConverterProofs.GregorianYearStep | src/jaldt/__init__.py:196-200 | each Gregorian year starts where the previous one ends: 366 days under the leap rule, 365 otherwise |
| ConverterProofs.GregorianYearUnique | src/jaldt/__init__.py:180-194 | a day number names one Gregorian year and one day of it |
| ConverterProofs.JalaliYearStep | src/jaldt/__init__.py:172-173 | each Jalali year of the 33-year rule starts where the previous one ends |
| ConverterProofs.JalaliYearUnique | src/jaldt/__init__.py:172-173 | a day number names one Jalali year and one day of it |
| ConverterProofs.MonthWalkFrom | src/jaldt/__init__.py:201-205 | the walk from any month stops at a month with a day inside it, having subtracted exactly the lengths it passed |
| ConverterProofs.MonthWalkFinds | src/jaldt/__init__.py:201-205 | walking the day of year of a valid date finds its month and day again |
| ConverterProofs.GregorianMonthOffsets | src/jaldt/__init__.py:196-200 | `sal_a` accumulated agrees with `g_d_m`, plus the leap day after February, and sums to the year's length |
| ConverterProofs.JalaliToGregorianIsDate | src/jaldt/__init__.py:194-207 | `j2g` always answers with a valid Gregorian date: month 1..12, and day within that month, February having 29 days exactly in leap years |
| ConverterProofs.JalaliToGregorianKeepsDayNumber | src/jaldt/__init__.py:156-207 | `j2g` keeps the day number of every Jalali input |
| ConverterProofs.GregorianDayOfYear | src/jaldt/__init__.py:196-205 | a valid Gregorian date lies on a day of its own year: its offset from the year start is at least 0 and below the year's length |
| ConverterProofs.MonthAndDayUnique | src/jaldt/__init__.py:201-205 | within one year's month table, the day of the year determines the month and the day |
| ConverterProofs.GregorianDayNumberInjective | src/jaldt/__init__.py:196-205 | different valid Gregorian dates have different day numbers |
| ConverterProofs.JalaliDayNumberInjective | src/jaldt/__init__.py:172-178 | different valid Jalali dates have different day numbers |
| ConverterProofs.GregorianRoundTrip | src/jaldt/__init__.py:113-207 | `j2g(g2j(d)) == d` for every valid Gregorian date, in every year |
| ConverterProofs.JalaliRoundTrip | src/jaldt/__init__.py:113-207 | `g2j(j2g(d)) == d` for every valid Jalali date, in every year |
| ConverterProofs.NowruzToJalali | src/jaldt/__init__.py:136-153 | `g2j(2024, 3, 20) == [1403, 1, 1]` |
| ConverterProofs.NowruzToGregorian | src/jaldt/__init__.py:172-207 | `j2g(1403, 1, 1) == [2024, 3, 20]` |
| ConverterProofs.NowruzVector | src/jaldt/__init__.py:113-207 | 20 March 2024 and 1 Farvardin 1403 convert into each other in both directions |
| ConverterProofs.LeapEsfand | src/jaldt/__init__.py:136-153 | `g2j(2025, 3, 20) == [1403, 12, 30]`: 1403 is a leap year of the 33-year rule and its Esfand has 30 days |
| Jaldt.J2G | src/jaldt/__init__.py:156-207 | the loop of `j2g` computes the specification; any non-int argument raises the type error, and only then; the answer is a valid Gregorian date with the input's day number |
| Text.DigitChar | src/jaldt/__init__.py:258 | the ASCII digit of a value 0..9 |
| Text.NatToString | src/jaldt/__init__.py:258 | `str(n)` for `n >= 0` is non-empty, all ASCII digits, with no leading zero |
| Text.DecimalValueOfNatToString | src/jaldt/__init__.py:258 | reading back the digits of `str(n)` gives `n` |
| Text.NatToStringLength | src/jaldt/__init__.py:258 | `str(n)` has 1, 2, 3 or 4 digits for `n` below 10, 100, 1000 and 10000 |
| Text.IntToString | src/jaldt/__init__.py:258 | `str(n)` starts with `-` exactly when `n < 0`; the rest is one or more ASCII digits, with a leading zero only for 0, whose decimal value is the absolute value of `n` |
| Text.AddZero | src/jaldt/__init__.py:258 | `add_zero(n)` has at least two characters, starts with `0` exactly when `n < 10`, and has exactly two for 0..99 |
| Text.AddZeroShape | src/jaldt/__init__.py:258 | `add_zero(n)` is `0` and the digit for 0..9, `str(n)` from 10 on, and starts `0-` below 0 |
| Text.AddZeroTwoDigits | src/jaldt/__init__.py:258 | for 0..99, `add_zero` writes exactly two ASCII digits whose value is `n` |
| Text.TakeFirst | src/jaldt/__init__.py:283 | `s[:n]` is a prefix of `s` of length `min(n, len(s))` |
| Text.TakeLast | src/jaldt/__init__.py:311 | `s[-n:]`, for `n >= 1`, is the last `min(n, len(s))` characters of `s` |
| Text.LocalizeChar | src/jaldt/__init__.py:222-223 | an ASCII digit becomes the Farsi digit of the same value; any other character is kept |
| Text.Localized | src/jaldt/__init__.py:247-255 | `convert_numbers` keeps the length and maps each character through the digit table |
| Text.ConvertNumbers | src/jaldt/__init__.py:247-255 | the loop of `convert_numbers` computes its specification |
| Text.LocalizeCharRoundTrip | src/jaldt/__init__.py:222-223 | on one character with no Farsi digit, the digit table is undone by its inverse and leaves no ASCII digit |
| Text.LocalizedRoundTrip | src/jaldt/__init__.py:247-255 | on text with no Farsi digits, mapping the Farsi digits back undoes `convert_numbers`, and no ASCII digit remains |
| Locale.ParseLanguage | src/jaldt/__init__.py:219-220 | accepts exactly the values of `Language`, returning the member with that value; anything else is the language error |
| Locale.WeekdayName | src/jaldt/__init__.py:225-229 | every weekday name has at least four characters, and the Fingilish ones are all ASCII |
| Locale.MonthName | src/jaldt/__init__.py:231-239 | every month name has at least two characters; the Fingilish ones have at least three, all ASCII |
| Locale.NamesDistinct | src/jaldt/__init__.py:225-239 | in each language, different weekdays and different months have different names |
| Format.FormatValue | src/jaldt/__init__.py:35-55 | `default` is the only value that does not start with `%`; every other value has two or three characters, and three exactly when `-` comes second |
| Format.ParseFormat | src/jaldt/__init__.py:280 | `symbol in set(StrfTimeFormat)`: finds the member whose value is the symbol, and fails only when no member has it |
| Format.PaddedDirective | src/jaldt/__init__.py:280 | `%` and a letter: finds the member with that value, and fails only when no member has it |
| Format.UnpaddedDirective | src/jaldt/__init__.py:280 | `%-` and a letter: finds the member with that value, and fails only when no member has it |
| Format.ParseFormatOfValue | src/jaldt/__init__.py:35-55 | every member's value reads back as that member, so the values are distinct |
| Format.ClockField | src/jaldt/__init__.py:313-351 | a non-negative hour, minute or second renders as ASCII digits whose value is the field; padded, a field of 0..99 is exactly two characters; unpadded, it has a leading zero only for 0 |
| Format.Hour12Of | src/jaldt/__init__.py:322-328 | the `%I` hour is in 1..12 and agrees with the 24-hour clock modulo 12 |
| Format.AmPmOf | src/jaldt/__init__.py:330-335 | `%p` is `AM` or `PM`, and `AM` exactly before noon |
| Format.Numeric | src/jaldt/__init__.py:289-351 | the `convert_numbers(x) if lang == 'farsi' else x` of each numeric directive keeps the length, and in Farsi leaves no ASCII digit |
| Format.RenderDirective | src/jaldt/__init__.py:281-351 | every directive adds at least one character, and only `default` adds none; `%a` is the first three characters of the weekday name and `%A` the whole name from the weekday table; `%B` is the whole name from the month table; `%b` is the first three characters of the month name, or the whole name when it is shorter; `%p` is `AM` before noon and `PM` from noon in Fingilish, and 'صبح' before noon and 'بعد از ظهر' from noon in Farsi |
| Format.Render | src/jaldt/__init__.py:270-361 | a directive error names a `%x` or `%-x` token that is no member's value; `IndexError` comes only from a format that ends in `%-` |
| Format.Scan | src/jaldt/__init__.py:270-361 | the `while index < len(strftime)` loop computes `Render` |
| Format.ScanDirective | src/jaldt/__init__.py:273-356 | one turn of the loop at a `%` that is not the last character: it raises exactly what `Render` raises on the whole format, or it advances the index past the directive, keeping the output followed by the rendered rest equal to `Render` of the whole format |
| Format.DefaultLayout | src/jaldt/__init__.py:260-267 | the layout is as long as the year, month and day written out, two slashes, a space and the time; the character before the time is the space; it ends with the time, localized in Farsi; in Fingilish the part before the space is `str(year)/str(month)/str(day)` of the Jalali date |
| Format.Formatted | src/jaldt/__init__.py:210-361 | `now` succeeds only for a valid language and a month in -11..12; a valid language with any other month raises `IndexError`; with both valid, `'default'` always succeeds |
| FormatProofs.RenderCopiesLiterals | src/jaldt/__init__.py:272-359 | a format with no `%` before its last character comes back unchanged, a final `%` included |
| FormatProofs.RenderLiteralPrefix | src/jaldt/__init__.py:357-359 | text without `%` is copied ahead of whatever the rest of the format gives, or of its error |
| FormatProofs.RenderDirectiveToken | src/jaldt/__init__.py:273-356 | a known directive is replaced by its rendering, and the scan goes on right after it |
| FormatProofs.RenderRejectsUnknown | src/jaldt/__init__.py:273-354 | the first `%` token outside the enum raises the directive error naming it, whatever follows |
| FormatProofs.RenderRejectsTrailingDash | src/jaldt/__init__.py:276-278 | a format whose only `%` is a final `%-` reads past its end and raises `IndexError` |
| FormatProofs.RenderErrors | src/jaldt/__init__.py:270-361 | the scan raises only those two errors |
| FormatProofs.RenderTokenThenText | src/jaldt/__init__.py:270-361 | a directive, then literal text, renders as the field followed by that text |
| FormatProofs.RenderThreeTokens | src/jaldt/__init__.py:270-361 | three directives separated by literal text render as their three fields with the same separators |
| FormatProofs.RenderYearMonthDay | src/jaldt/__init__.py:270-361 | `%Y/%m/%d` renders as the year, month and day fields with `/` between them |
| FormatProofs.FarsiIsLocalizedFingilish | src/jaldt/__init__.py:289-351 | every numeric directive in Farsi is the Fingilish text with its digits localized (for `%y`, localized and then cut), so it holds no ASCII digit |
| FormatProofs.PaddedFieldsTwoDigits | src/jaldt/__init__.py:292-351 | in Fingilish, for a valid date and time, the zero-padded directives give two ASCII digits whose value is the field |
| FormatProofs.UnpaddedFieldsDigits | src/jaldt/__init__.py:289-347 | in Fingilish, for a valid date and time, the unpadded directives give the field's decimal digits, whose value is the field, with no leading zero |
| FormatProofs.YearIsDecimal | src/jaldt/__init__.py:307-308 | `%Y` in Fingilish is `str` of the Jalali year: a `-` exactly for a negative year, then its decimal digits with no leading zero, whose value is the year's magnitude |
| FormatProofs.LastDigit | src/jaldt/__init__.py:311 | the last character of `str(n)` is the digit of `n % 10` |
| FormatProofs.TwoDigitYear | src/jaldt/__init__.py:310-311 | `%y` is the last two digits of a year from 10 on, and a single unpadded digit for years 0..9 |
| FormatProofs.DefaultLayoutLocalized | src/jaldt/__init__.py:260-267 | the `'default'` layout in Farsi is the Fingilish one with every digit localized |
| FormatProofs.FormattedChecksLanguage | src/jaldt/__init__.py:219-220 | `now` gives the language error exactly when `lang` is neither `farsi` nor `fingilish` |
| FormatProofs.FormattedCopiesLiterals | src/jaldt/__init__.py:241-361 | for a valid date and a valid language, a non-default format with no directive comes back unchanged |
| FormatProofs.FormattedRejectsZ | src/jaldt/__init__.py:353-354 | for a valid language, `now('%z')` raises the directive error for any valid date |
| FormatProofs.NowruzFields | src/jaldt/__init__.py:292-308 | on 1 Farvardin 1403, `%Y`, `%m` and `%d` render `1403`, `01` and `01` |
| FormatProofs.NowruzFieldsFarsi | src/jaldt/__init__.py:292-308 | the same fields with Farsi digits |
| FormatProofs.RenderNowruz | src/jaldt/__init__.py:270-361 | `%Y/%m/%d` of 1 Farvardin 1403 is `1403/01/01` |
| FormatProofs.RenderNowruzFarsi | src/jaldt/__init__.py:270-361 | the same in Farsi digits |
| FormatProofs.NowruzDefault | src/jaldt/__init__.py:260-267 | the `'default'` layout of 1 Farvardin 1403 is `1403/1/1`, a space and the time |
| FormatProofs.NowruzFormatted | src/jaldt/__init__.py:210-361 | on 20 March 2024, `now('%Y/%m/%d')` is `1403/01/01` in Fingilish and `۱۴۰۳/۰۱/۰۱` in Farsi, and `now('default', 'fingilish')` is `1403/1/1`, a space and the time |
| Jaldt.Now | src/jaldt/__init__.py:210-361 | the body of `now`, with its two loops (`convert_numbers` and the scanner), computes `Formatted` |

## Left out

- `calendar` and `events` print a month grid and a table of events; they are presentation and I/O.
- The `JalaliStringMonth`, `JalaliIntegerMonth`, `CalendarColor` and `CalendarStyle` enums are used only by `calendar` and `events`.
- The clock read `datetime.now()` is a parameter of `now`. `str(datetime.time())` is an uninterpreted string in that parameter.
- strftime's `%A`, `%H`, `%-H`, `%I`, `%-I`, `%p`, `%M`, `%-M`, `%S` and `%-S` are computed from the weekday, hour, minute and second in the parameter. `%p` follows the C locale (`AM` before noon, `PM` after). The `-` flag follows glibc (no padding).
- `convert_numbers` tests `str.isdigit`, which is true of every Unicode decimal digit. The model treats ASCII digits as the only digits. A non-ASCII digit, which would raise `KeyError` in the source, is copied unchanged.
- `Text.LocalizedRoundTrip`: stated only for text that holds no Farsi digit already, because Farsi digits in the input would be mapped back to ASCII.
- Python counts `bool` as a subclass of `int`, so `g2j(True, 1, 1)` passes the type check. The model has only "int" and "not int" arguments.
- The error message texts are not modelled, only which error is raised.
- `now`'s default arguments (`strftime='default'`, `lang='farsi'`, line 210) are not modelled: `Formatted` and `Jaldt.Now` always take both explicitly.
- `now` called with a `strftime` that is not a string, or with an unhashable `lang`, raises a `TypeError` from Python itself. The model's parameters are strings, so these calls cannot be written.
- `setup.py` is packaging, and `src/jaldt/jalali_datetime.py` only re-exports names; neither is part of this model.
