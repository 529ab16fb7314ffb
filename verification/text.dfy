/** Text helpers of the format engine: Python's `str` of an int, `add_zero`,
    slicing, and `convert_numbers`, which swaps ASCII digits for Farsi
    (Extended Arabic-Indic) digits. */
module Text {

  predicate IsAsciiDigit(c: char) {
    '0' <= c <= '9'
  }

  /** The Farsi digit of the same value, U+06F0 .. U+06F9. */
  predicate IsFarsiDigit(c: char) {
    '۰' <= c <= '۹'
  }

  function DigitChar(n: int): (c: char)
    requires 0 <= n <= 9
    ensures IsAsciiDigit(c) && c as int - '0' as int == n
  {
    ('0' as int + n) as char
  }

  // ---------------------------------------------------------------------
  // str(n)
  // ---------------------------------------------------------------------

  /** Python's `str(n)` for `n >= 0`: decimal digits, no leading zero. */
  function NatToString(n: nat): (s: string)
    ensures 1 <= |s|
    ensures forall i :: 0 <= i < |s| ==> IsAsciiDigit(s[i])
    ensures s[0] == '0' ==> n == 0
    decreases n
  {
    if n < 10 then [DigitChar(n)] else NatToString(n / 10) + [DigitChar(n % 10)]
  }

  /** The value of a string of ASCII digits: the inverse of `NatToString`. */
  function DecimalValue(s: string): nat
    requires forall i :: 0 <= i < |s| ==> IsAsciiDigit(s[i])
  {
    if s == [] then 0
    else
      var last := s[|s| - 1];
      assert IsAsciiDigit(last);
      10 * DecimalValue(s[..|s| - 1]) + (last as int - '0' as int)
  }

  lemma {:induction false} DecimalValueOfNatToString(n: nat)
    ensures DecimalValue(NatToString(n)) == n
    decreases n
  {
    if n >= 10 {
      var s := NatToString(n);
      assert s[..|s| - 1] == NatToString(n / 10);
      DecimalValueOfNatToString(n / 10);
    }
  }

  /** The number of decimal digits of `n`. */
  lemma {:induction false} NatToStringLength(n: nat)
    ensures n < 10 ==> |NatToString(n)| == 1
    ensures 10 <= n < 100 ==> |NatToString(n)| == 2
    ensures 100 <= n < 1000 ==> |NatToString(n)| == 3
    ensures 1000 <= n < 10000 ==> |NatToString(n)| == 4
    decreases n
  {
    if n >= 10 {
      NatToStringLength(n / 10);
    }
  }

  /** Python's `str(n)`: a minus sign exactly for negative `n`, then the
      decimal digits of `|n|` with no leading zero. */
  function IntToString(n: int): (s: string)
    ensures |s| >= 1 && (s[0] == '-' <==> n < 0)
    ensures var digits := if n < 0 then s[1..] else s;
      && |digits| >= 1
      && (forall i :: 0 <= i < |digits| ==> IsAsciiDigit(digits[i]))
      && (digits[0] == '0' ==> n == 0)
      && DecimalValue(digits) == if n < 0 then -n else n
  {
    var m := if n < 0 then -n else n;
    DecimalValueOfNatToString(m);
    if n < 0 then
      var s := "-" + NatToString(m);
      assert s[1..] == NatToString(m);
      s
    else NatToString(m)
  }

  // ---------------------------------------------------------------------
  // add_zero
  // ---------------------------------------------------------------------

  /** `add_zero`: a '0' before `str(n)` when `n < 10`. */
  function AddZero(n: int): (s: string)
    ensures |s| >= 2
    ensures s[0] == '0' <==> n < 10
    ensures 0 <= n <= 99 ==> |s| == 2
  {
    NatToStringLength(if n < 0 then 0 else n);
    if n < 10 then "0" + IntToString(n)
    else
      assert NatToString(n) == NatToString(n / 10) + [DigitChar(n % 10)];
      IntToString(n)
  }

  /** `add_zero` gives exactly two digits of value `n` for 0..9, `str(n)`
      unchanged from 10 on, and a zero before the minus sign below 0. */
  lemma AddZeroShape(n: int)
    ensures 0 <= n <= 9 ==> |AddZero(n)| == 2 && AddZero(n)[0] == '0' && AddZero(n)[1] == DigitChar(n)
    ensures n >= 10 ==> AddZero(n) == IntToString(n)
    ensures n < 0 ==> AddZero(n)[..2] == "0-"
  {
  }

  /** For 0..99 `add_zero` writes exactly two ASCII digits whose value is `n`. */
  lemma AddZeroTwoDigits(n: int)
    requires 0 <= n <= 99
    ensures |AddZero(n)| == 2
    ensures forall i :: 0 <= i < 2 ==> IsAsciiDigit(AddZero(n)[i])
    ensures DecimalValue(AddZero(n)) == n
  {
    NatToStringLength(n);
    DecimalValueOfNatToString(n);
    if n < 10 {
      var s := AddZero(n);
      assert s[..1] == "0";
      assert DecimalValue(s[..1]) == 0 by {
        assert s[..1][..0] == [];
      }
    }
  }

  // ---------------------------------------------------------------------
  // Python slices
  // ---------------------------------------------------------------------

  /** Python's `s[:n]` for `n >= 0`. */
  function TakeFirst(s: string, n: nat): (r: string)
    ensures |r| == if |s| < n then |s| else n
    ensures r <= s
  {
    if |s| <= n then s else s[..n]
  }

  /** Python's `s[-n:]` for `n >= 1`. */
  function TakeLast(s: string, n: nat): (r: string)
    requires n >= 1
    ensures |r| == if |s| < n then |s| else n
    ensures forall i :: 0 <= i < |r| ==> r[i] == s[|s| - |r| + i]
  {
    if |s| <= n then s else s[|s| - n..]
  }

  // ---------------------------------------------------------------------
  // convert_numbers
  // ---------------------------------------------------------------------

  /** The `farsi_numbers` table, applied to one character; any other
      character is kept. */
  function LocalizeChar(c: char): (r: char)
    ensures IsAsciiDigit(c) ==> IsFarsiDigit(r) && r as int - '۰' as int == c as int - '0' as int
    ensures !IsAsciiDigit(c) ==> r == c
  {
    if IsAsciiDigit(c) then (c as int - '0' as int + '۰' as int) as char else c
  }

  /** What `convert_numbers` returns. */
  function Localized(s: string): (r: string)
    ensures |r| == |s|
    ensures forall i :: 0 <= i < |s| ==> r[i] == LocalizeChar(s[i])
  {
    if s == [] then [] else [LocalizeChar(s[0])] + Localized(s[1..])
  }

  /** `convert_numbers`: one pass over the string, each ASCII digit replaced
      by its Farsi glyph and every other character copied. */
  method ConvertNumbers(s: string) returns (r: string)
    ensures r == Localized(s)
  {
    r := "";
    for i := 0 to |s|
      invariant |r| == i
      invariant forall k :: 0 <= k < i ==> r[k] == LocalizeChar(s[k])
    {
      if IsAsciiDigit(s[i]) {
        r := r + [LocalizeChar(s[i])];
      } else {
        r := r + [s[i]];
      }
    }
  }

  /** The inverse table: Farsi digits back to ASCII. */
  function DelocalizeChar(c: char): char {
    if IsFarsiDigit(c) then (c as int - '۰' as int + '0' as int) as char else c
  }

  function Delocalized(s: string): (r: string)
    ensures |r| == |s|
    ensures forall i :: 0 <= i < |s| ==> r[i] == DelocalizeChar(s[i])
  {
    seq(|s|, i requires 0 <= i < |s| => DelocalizeChar(s[i]))
  }

  /** One character: an ASCII digit comes back from its Farsi glyph, and
      nothing localized is an ASCII digit. */
  lemma LocalizeCharRoundTrip(ch: char)
    requires !IsFarsiDigit(ch)
    ensures DelocalizeChar(LocalizeChar(ch)) == ch
    ensures !IsAsciiDigit(LocalizeChar(ch))
  {
  }

  /** Localizing loses nothing on text that has no Farsi digits yet, and
      leaves no ASCII digit behind. */
  lemma LocalizedRoundTrip(s: string)
    requires forall i :: 0 <= i < |s| ==> !IsFarsiDigit(s[i])
    ensures Delocalized(Localized(s)) == s
    ensures forall i :: 0 <= i < |s| ==> !IsAsciiDigit(Localized(s)[i])
  {
    var l := Localized(s);
    var d := Delocalized(l);
    forall i | 0 <= i < |s|
      ensures d[i] == s[i] && !IsAsciiDigit(l[i])
    {
      LocalizeCharRoundTrip(s[i]);
    }
    assert d == s;
  }

  lemma LocalizedAppend(a: string, b: string)
    ensures Localized(a + b) == Localized(a) + Localized(b)
  {
  }

  /** Taking the last characters commutes with localizing. */
  lemma LocalizedTakeLast(s: string, n: nat)
    requires n >= 1
    ensures TakeLast(Localized(s), n) == Localized(TakeLast(s, n))
  {
  }

  /** Localizing text without ASCII digits changes nothing. */
  lemma LocalizedNoDigits(s: string)
    requires forall i :: 0 <= i < |s| ==> !IsAsciiDigit(s[i])
    ensures Localized(s) == s
  {
  }
}
