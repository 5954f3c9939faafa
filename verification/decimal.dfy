/**
 Python's `float(str)` restricted to the literals an amount can take here: an
 optional sign followed by a plain decimal numeral (`12`, `12.`, `.5`, `12.50`)
 or one of the case-insensitive words `nan`, `inf`, `infinity`, all optionally
 surrounded by whitespace. Numerals denote exact `real` values.
 */
module Decimal {
  import opened Options
  import opened Text

  predicate IsDigit(c: char) {
    '0' <= c <= '9'
  }

  predicate AllDigits(s: string) {
    forall i :: 0 <= i < |s| ==> IsDigit(s[i])
  }

  function DigitValue(c: char): nat
    requires IsDigit(c)
  {
    c as int - '0' as int
  }

  function DigitChar(d: nat): (c: char)
    requires d < 10
    ensures IsDigit(c) && DigitValue(c) == d
  {
    ('0' as int + d) as char
  }

  /** The number a string of decimal digits denotes, most significant digit first. */
  function DigitsValue(s: string): nat
    requires AllDigits(s)
  {
    if |s| == 0 then 0 else DigitsValue(s[..|s| - 1]) * 10 + DigitValue(s[|s| - 1])
  }

  function Pow10(n: nat): (r: nat)
    ensures r >= 1
  {
    if n == 0 then 1 else 10 * Pow10(n - 1)
  }

  /** The decimal numeral of `n` without leading zeros (`"0"` for zero). */
  function NatToDigits(n: nat): (r: string)
    ensures |r| >= 1 && AllDigits(r)
  {
    if n < 10 then [DigitChar(n)] else NatToDigits(n / 10) + [DigitChar(n % 10)]
  }

  lemma {:induction false} NatToDigitsRoundTrip(n: nat)
    ensures DigitsValue(NatToDigits(n)) == n
  {
    if n >= 10 {
      NatToDigitsRoundTrip(n / 10);
      var s := NatToDigits(n);
      assert s[..|s| - 1] == NatToDigits(n / 10);
    }
  }

  /** The two-digit numeral of `d`, with a leading zero below ten. */
  function TwoDigits(d: nat): (r: string)
    requires d < 100
    ensures |r| == 2 && AllDigits(r)
  {
    [DigitChar(d / 10), DigitChar(d % 10)]
  }

  lemma TwoDigitsValue(d: nat)
    requires d < 100
    ensures DigitsValue(TwoDigits(d)) == d
  {
    var s := TwoDigits(d);
    assert s[..1][..0] == [];
    assert s[..1] == [DigitChar(d / 10)];
    assert DigitsValue(s[..1]) == d / 10;
    assert DigitsValue(s) == (d / 10) * 10 + d % 10;
  }

  /** Position of the first `c` in `s`, if any. */
  function IndexOf(s: string, c: char): (r: Option<nat>)
    ensures r.None? <==> c !in s
    ensures r.Some? ==> r.value < |s| && s[r.value] == c && c !in s[..r.value]
  {
    if |s| == 0 then None
    else if s[0] == c then Some(0)
    else match IndexOf(s[1..], c)
      case None => None
      case Some(i) => assert s[..i + 1] == [s[0]] + s[1..][..i]; Some(i + 1)
  }

  /**
   An unsigned decimal numeral: digits, optionally one `.`, at least one digit
   in all. Anything else is rejected, in particular a second `.`.
   */
  function ParseUnsigned(s: string): (r: Option<real>)
    ensures r.Some? ==> r.value >= 0.0 && Count('.', s) <= 1
    ensures '.' !in s ==> (r.Some? <==> |s| > 0 && AllDigits(s))
  {
    match IndexOf(s, '.')
    case None =>
      if |s| > 0 && AllDigits(s) then
        CountZero('.', s);
        Some(DigitsValue(s) as real)
      else None
    case Some(k) =>
      var whole, frac := s[..k], s[k + 1..];
      var r := PointNumeral(whole, frac);
      if r.Some? then
        assert s == whole + ['.'] + frac;
        CountAppend('.', whole + ['.'], frac);
        CountAppend('.', whole, ['.']);
        CountZero('.', whole);
        assert '.' !in frac;
        CountZero('.', frac);
        r
      else r
  }

  /** The value of a numeral split at its point: digits on both sides, at least one digit in all. */
  function PointNumeral(whole: string, frac: string): (r: Option<real>)
    ensures r.Some? <==> |whole| + |frac| > 0 && AllDigits(whole) && AllDigits(frac)
    ensures r.Some? ==> r.value >= 0.0
  {
    if |whole| + |frac| > 0 && AllDigits(whole) && AllDigits(frac) then
      var q := DigitsValue(frac) as real / Pow10(|frac|) as real;
      NonNegativeQuotient(DigitsValue(frac), Pow10(|frac|));
      Some(DigitsValue(whole) as real + q)
    else None
  }

  lemma NonNegativeQuotient(a: nat, b: nat)
    requires b >= 1
    ensures a as real / b as real >= 0.0
  {
  }

  /** An amount of cents written as a numeral with two fractional digits: `RenderCents(123456) == "1234.56"`. */
  function RenderCents(c: nat): (r: string)
    ensures Count('.', r) == 1
  {
    var whole, frac := NatToDigits(c / 100), TwoDigits(c % 100);
    NoDotInDigits(whole);
    NoDotInDigits(frac);
    CountAppend('.', whole + ".", frac);
    CountAppend('.', whole, ".");
    whole + "." + frac
  }

  lemma NoDotInDigits(s: string)
    requires AllDigits(s)
    ensures '.' !in s && Count('.', s) == 0
  {
    assert forall i :: 0 <= i < |s| ==> s[i] != '.' by {
      forall i | 0 <= i < |s| ensures s[i] != '.' {
        assert IsDigit(s[i]);
      }
    }
    CountZero('.', s);
  }

  /** Reading back a rendered amount yields exactly the number of cents it was rendered from, in units. */
  lemma RenderCentsRoundTrip(c: nat)
    ensures ParseUnsigned(RenderCents(c)) == Some(c as real / 100.0)
  {
    var whole, frac := NatToDigits(c / 100), TwoDigits(c % 100);
    assert RenderCents(c) == whole + "." + frac;
    NoDotInDigits(whole);
    SplitAtPoint(whole, frac);
    CentsPointValue(c);
  }

  /** The whole units and the two cent digits of `c` denote `c / 100`. */
  lemma CentsPointValue(c: nat)
    ensures PointNumeral(NatToDigits(c / 100), TwoDigits(c % 100)) == Some(c as real / 100.0)
  {
    NatToDigitsRoundTrip(c / 100);
    TwoDigitsValue(c % 100);
    assert Pow10(2) == 100;
    CentsValue(c);
  }

  /** The first `.` of `whole + "." + frac` is the one after `whole` when `whole` has none. */
  lemma SplitAtPoint(whole: string, frac: string)
    requires '.' !in whole
    ensures ParseUnsigned(whole + "." + frac) == PointNumeral(whole, frac)
  {
    var s := whole + "." + frac;
    assert s[|whole|] == '.' && s[..|whole|] == whole;
    assert s[|whole| + 1..] == frac;
  }

  /** A rendered amount is a numeral: it starts and ends with a digit and reads as a number. */
  lemma RenderCentsIsNumeral(c: nat)
    ensures var r := RenderCents(c);
      |r| > 0 && IsDigit(r[0]) && IsDigit(r[|r| - 1]) && ParseUnsigned(r).Some?
  {
    var r := RenderCents(c);
    var whole := NatToDigits(c / 100);
    assert r[0] == whole[0];
    assert IsDigit(r[|r| - 1]);
    RenderCentsRoundTrip(c);
  }

  lemma CentsValue(c: nat)
    ensures (c / 100) as real + (c % 100) as real / 100.0 == c as real / 100.0
  {
    var q, r := c / 100, c % 100;
    assert c == q * 100 + r;
  }

  /** A Python float: a finite value, a signed infinity, or not-a-number. */
  datatype PyFloat = Finite(v: real) | Infinity(negative: bool) | NaN {

    /** Python's `x <= 0` for a float `x`: false for NaN, as every comparison with NaN is. */
    predicate AtMostZero() {
      match this
      case Finite(v) => v <= 0.0
      case Infinity(negative) => negative
      case NaN => false
    }

    /** Python's `x > 0` for a float `x`. */
    predicate Positive() {
      match this
      case Finite(v) => v > 0.0
      case Infinity(negative) => !negative
      case NaN => false
    }
  }

  /** The words `float()` accepts besides numerals, compared after ASCII lower-casing. */
  predicate IsNanWord(w: string) {
    w == "nan"
  }

  predicate IsInfWord(w: string) {
    w == "inf" || w == "infinity"
  }

  lemma SpecialWordHasNoDot(body: string)
    requires IsNanWord(LowerAscii(body)) || IsInfWord(LowerAscii(body))
    ensures Count('.', body) == 0
  {
    var word := LowerAscii(body);
    forall i | 0 <= i < |body|
      ensures body[i] != '.'
    {
      LowerAsciiAt(body, i);
      assert word[i] != '.';
    }
    CountZero('.', body);
  }

  /** The text after an optional leading `+` or `-`. */
  function Unsigned(t: string): (r: string)
    ensures forall c :: c != '+' && c != '-' ==> Count(c, r) == Count(c, t)
  {
    if |t| > 0 && (t[0] == '+' || t[0] == '-') then t[1..] else t
  }

  /**
   `float(s)` on the literals described above: surrounding whitespace, in
   the narrower sense `float()` gives the word, is ignored, then an optional sign, then a special word or an unsigned numeral.
   Everything else is a `ValueError`, modelled as `None`.
   */
  function ParseFloat(s: string): (r: Option<PyFloat>)
    ensures r.Some? ==> Count('.', s) <= 1
  {
    var t := Strip(s, FloatSpacing);
    var negative := |t| > 0 && t[0] == '-';
    var body := Unsigned(t);
    var word := LowerAscii(body);
    if IsNanWord(word) || IsInfWord(word) then
      SpecialWordHasNoDot(body);
      if IsNanWord(word) then Some(NaN) else Some(Infinity(negative))
    else match ParseUnsigned(body)
      case None => None
      case Some(v) => Some(Finite(if negative then -v else v))
  }

  /** A numeral made only of digits and at most one `.` is read as its unsigned value. */
  lemma ParseFloatNumeral(s: string, v: real)
    requires |s| > 0 && IsDigit(s[0]) && IsDigit(s[|s| - 1])
    requires ParseUnsigned(s) == Some(v)
    ensures ParseFloat(s) == Some(Finite(v))
  {
    StripUnchanged(s, FloatSpacing);
    assert Unsigned(s) == s;
    NumeralNotSpecial(s);
  }

  lemma NumeralNotSpecial(s: string)
    requires |s| > 0 && IsDigit(s[0])
    ensures !IsNanWord(LowerAscii(s)) && !IsInfWord(LowerAscii(s))
  {
    LowerAsciiAt(s, 0);
  }

  /** A rendered amount parses back to the value it was rendered from. */
  lemma ParseFloatRoundTrip(c: nat)
    ensures ParseFloat(RenderCents(c)) == Some(Finite(c as real / 100.0))
  {
    var s := RenderCents(c);
    var whole := NatToDigits(c / 100);
    assert s[0] == whole[0];
    assert IsDigit(s[|s| - 1]);
    RenderCentsRoundTrip(c);
    ParseFloatNumeral(s, c as real / 100.0);
  }

  /** A leading sign is read as such: `-` negates the numeral's value, `+` keeps it. */
  lemma ParseFloatSigned(s: string, v: real)
    requires |s| > 0 && IsDigit(s[0]) && IsDigit(s[|s| - 1])
    requires ParseUnsigned(s) == Some(v)
    ensures ParseFloat("-" + s) == Some(Finite(-v))
    ensures ParseFloat("+" + s) == Some(Finite(v))
  {
    SignedValue("-" + s, s, v);
    SignedValue("+" + s, s, v);
  }

  lemma SignedValue(m: string, s: string, v: real)
    requires |s| > 0 && IsDigit(s[0]) && IsDigit(s[|s| - 1])
    requires |m| == |s| + 1 && (m[0] == '-' || m[0] == '+') && m[1..] == s
    requires ParseUnsigned(s) == Some(v)
    ensures ParseFloat(m) == Some(Finite(if m[0] == '-' then -v else v))
  {
    NumeralNotSpecial(s);
    SignedNumeral(m, s);
  }

  lemma SignedNumeral(m: string, s: string)
    requires |s| > 0 && IsDigit(s[0]) && IsDigit(s[|s| - 1])
    requires |m| == |s| + 1 && (m[0] == '-' || m[0] == '+') && m[1..] == s
    ensures Strip(m, FloatSpacing) == m && Unsigned(m) == s
  {
    assert m[|m| - 1] == s[|s| - 1];
    StripUnchanged(m, FloatSpacing);
  }

  /** `float()` accepts `nan` in any letter case, with or without a sign, and it denotes NaN. */
  lemma ParseFloatNan(w: string)
    requires LowerAscii(w) == "nan"
    ensures ParseFloat(w) == Some(NaN)
    ensures ParseFloat("-" + w) == Some(NaN)
    ensures ParseFloat("+" + w) == Some(NaN)
  {
    LowerAsciiAt(w, 0);
    LowerAsciiAt(w, 2);
    StripUnchanged(w, FloatSpacing);
    SignedWord("-" + w, w);
    SignedWord("+" + w, w);
  }

  /**
   `float()` accepts `inf` in any letter case, with or without a sign; the
   sign decides which infinity it denotes.
   */
  lemma ParseFloatInf(w: string)
    requires LowerAscii(w) == "inf"
    ensures ParseFloat(w) == Some(Infinity(false))
    ensures ParseFloat("-" + w) == Some(Infinity(true))
    ensures ParseFloat("+" + w) == Some(Infinity(false))
  {
    LowerAsciiAt(w, 0);
    LowerAsciiAt(w, 2);
    StripUnchanged(w, FloatSpacing);
    SignedWord("-" + w, w);
    SignedWord("+" + w, w);
  }

  lemma SignedWord(m: string, w: string)
    requires |w| > 0 && !IsSpaceFor(FloatSpacing, w[|w| - 1])
    requires |m| == |w| + 1 && (m[0] == '-' || m[0] == '+') && m[1..] == w
    ensures Strip(m, FloatSpacing) == m && Unsigned(m) == w
  {
    assert m[|m| - 1] == w[|w| - 1];
    StripUnchanged(m, FloatSpacing);
  }

  /**
   `float()` does not strip the ASCII separators U+001C..U+001F, although
   `str.strip()` does: a literal that starts with one is refused.
   */
  lemma SeparatorRefused(s: string)
    requires |s| > 0 && 0x1C <= s[0] as int <= 0x1F
    ensures ParseFloat(s) == None
  {
    var t := Strip(s, FloatSpacing);
    assert LeadingSpaces(s, FloatSpacing) == 0;
    assert |t| > 0 && t[0] == s[0];
    assert Unsigned(t) == t;
    LowerAsciiAt(t, 0);
    NotNumeral(t);
  }

  /** Text that starts with neither a digit nor a point is not a numeral. */
  lemma NotNumeral(t: string)
    requires |t| > 0 && !IsDigit(t[0]) && t[0] != '.'
    ensures ParseUnsigned(t) == None
  {
    match IndexOf(t, '.')
    case None =>
    case Some(k) =>
      assert k > 0 && t[..k][0] == t[0];
  }
}
