/** The closed sets and fixed tables of the format engine: the `Language`
    enum, weekday and month names in both languages, and the two Farsi
    phrases for AM and PM. */
module Locale {
  import opened Outcomes

  datatype Language = Farsi | Fingilish

  /** The enum's string values. */
  function LanguageValue(lang: Language): string {
    match lang
    case Farsi => "farsi"
    case Fingilish => "fingilish"
  }

  /** `lang not in set(Language)` raises; the enum's two values pass. */
  function ParseLanguage(s: string): (r: Result<Language>)
    ensures r.Ok? <==> exists lang: Language :: LanguageValue(lang) == s
    ensures r.Ok? ==> LanguageValue(r.value) == s
    ensures r.Err? ==> r.error == UnsupportedLanguage
  {
    if s == "farsi" then assert LanguageValue(Farsi) == s; Ok(Farsi)
    else if s == "fingilish" then assert LanguageValue(Fingilish) == s; Ok(Fingilish)
    else
      assert LanguageValue(Farsi) != s && LanguageValue(Fingilish) != s;
      Err(UnsupportedLanguage)
  }

  /** The weekday `strftime('%A')` names. */
  datatype Weekday = Monday | Tuesday | Wednesday | Thursday | Friday | Saturday | Sunday

  /** `farsi_weekday` and `fingilish_weekday`. */
  function WeekdayName(lang: Language, w: Weekday): (r: string)
    ensures |r| >= 4
    ensures lang == Fingilish ==> forall i :: 0 <= i < |r| ==> r[i] as int < 128
  {
    match lang
    case Farsi =>
      (match w
       case Monday => "دوشنبه"
       case Tuesday => "سه شنبه"
       case Wednesday => "چهارشنبه"
       case Thursday => "پنجشنبه"
       case Friday => "جمعه"
       case Saturday => "شنبه"
       case Sunday => "یکشنبه")
    case Fingilish =>
      (match w
       case Monday => "2shanbe"
       case Tuesday => "3shanbe"
       case Wednesday => "4shanbe"
       case Thursday => "5shanbe"
       case Friday => "jomeh"
       case Saturday => "shanbe"
       case Sunday => "1shanbe")
  }

  /** `jalali_farsi_months` and `jalali_fingilish_months`, keyed 1..12. */
  function MonthName(lang: Language, m: int): (r: string)
    requires 1 <= m <= 12
    ensures |r| >= 2
    ensures lang == Fingilish ==> |r| >= 3 && forall i :: 0 <= i < |r| ==> r[i] as int < 128
  {
    match lang
    case Farsi =>
      ["فروردین", "اردیبهشت", "خرداد", "تیر", "مرداد", "شهریور",
       "مهر", "آبان", "آذر", "دی", "بهمن", "اسفند"][m - 1]
    case Fingilish =>
      ["farvardin", "ordibehesht", "khordad", "tir", "mordad", "shahrivar",
       "mehr", "aban", "azar", "dey", "bahman", "esfand"][m - 1]
  }

  const FarsiMorning: string := "صبح"
  const FarsiAfternoon: string := "بعد از ظهر"

  /** Every name in both tables is a different one: the tables lose nothing. */
  lemma NamesDistinct(lang: Language)
    ensures forall v, w :: WeekdayName(lang, v) == WeekdayName(lang, w) ==> v == w
    ensures forall m, n :: 1 <= m <= 12 && 1 <= n <= 12 && MonthName(lang, m) == MonthName(lang, n) ==> m == n
  {
  }
}
