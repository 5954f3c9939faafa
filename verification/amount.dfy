/**
 The threshold amount the user types, in the format `USD 00.000,00`: a
 `.` groups thousands and a `,` separates the cents. `validate_value`
 normalises the text to a Python numeral and accepts only positive amounts.
 */
module Amount {
  import opened Options
  import opened Text
  import opened Decimal

  /**
   Strip, then drop one leading case-sensitive `USD` and strip what follows
   it. The result is a suffix of the stripped text; it is shorter exactly when
   that text starts with `USD`, and then `USD` and only whitespace after it
   were dropped.
   */
  function StripCurrency(s: string): (r: string)
    ensures |r| == 0 || (!IsSpace(r[0]) && !IsSpace(r[|r| - 1]))
    ensures var t := Strip(s); |r| <= |t| && r == t[|t| - |r|..]
    ensures StartsWith(Strip(s), "USD") <==> |r| < |Strip(s)|
    ensures var t := Strip(s); StartsWith(t, "USD") ==> OnlyBlanksAfterUsd(t, r)
    ensures forall c :: !IsSpace(c) && c != 'U' && c != 'S' && c != 'D' ==> Count(c, r) == Count(c, s)
  {
    DropCurrency(Strip(s))
  }

  /** The currency step on text that is already stripped. */
  function DropCurrency(t: string): (r: string)
    requires |t| == 0 || (!IsSpace(t[0]) && !IsSpace(t[|t| - 1]))
    ensures |r| == 0 || (!IsSpace(r[0]) && !IsSpace(r[|r| - 1]))
    ensures |r| <= |t| && r == t[|t| - |r|..]
    ensures StartsWith(t, "USD") <==> |r| < |t|
    ensures StartsWith(t, "USD") ==> OnlyBlanksAfterUsd(t, r)
    ensures forall c :: !IsSpace(c) && c != 'U' && c != 'S' && c != 'D' ==> Count(c, r) == Count(c, t)
  {
    if StartsWith(t, "USD") then AfterUsd(t) else t
  }

  /**
   The suffix `r` of `t` leaves out at least the three letters of `USD`, and
   everything else it leaves out is whitespace.
   */
  predicate OnlyBlanksAfterUsd(t: string, r: string) {
    |r| <= |t| - 3 && forall i :: 3 <= i < |t| - |r| ==> IsSpace(t[i])
  }

  /**
   What follows a leading `USD`, stripped. Since the text ends in a
   non-blank, stripping removes only the blanks after `USD`, and every other
   character is kept.
   */
  function AfterUsd(t: string): (r: string)
    requires StartsWith(t, "USD") && !IsSpace(t[|t| - 1])
    ensures |r| <= |t| - 3 && r == t[|t| - |r|..]
    ensures OnlyBlanksAfterUsd(t, r)
    ensures |r| == 0 || (!IsSpace(r[0]) && !IsSpace(r[|r| - 1]))
    ensures forall c :: !IsSpace(c) && c != 'U' && c != 'S' && c != 'D' ==> Count(c, r) == Count(c, t)
  {
    DropUsdSuffix(t);
    DropUsdCounts(t);
    Strip(t[3..])
  }

  /** Stripping what follows `USD` keeps the count of every character other than `U`, `S`, `D` and blanks. */
  lemma DropUsdCounts(t: string)
    requires StartsWith(t, "USD")
    ensures forall c :: !IsSpace(c) && c != 'U' && c != 'S' && c != 'D' ==> Count(c, Strip(t[3..])) == Count(c, t)
  {
    forall c | !IsSpace(c) && c != 'U' && c != 'S' && c != 'D'
      ensures Count(c, Strip(t[3..])) == Count(c, t)
    {
      DropUsdCount(t, c);
    }
  }

  /** Dropping a leading `USD` keeps the count of every other character. */
  lemma DropUsdCount(t: string, c: char)
    requires StartsWith(t, "USD") && c != 'U' && c != 'S' && c != 'D'
    ensures Count(c, t[3..]) == Count(c, t)
  {
    assert t == t[..3] + t[3..];
    CountAppend(c, t[..3], t[3..]);
    assert c !in t[..3];
    CountZero(c, t[..3]);
  }

  lemma DropUsdSuffix(t: string)
    requires StartsWith(t, "USD") && !IsSpace(t[|t| - 1])
    ensures var r := Strip(t[3..]); |r| <= |t| - 3 && r == t[|t| - |r|..]
    ensures OnlyBlanksAfterUsd(t, Strip(t[3..]))
  {
    var u := t[3..];
    var r := Strip(u);
    var k := LeadingSpaces(u, StrSpacing);
    assert k + |r| == |u|;
    assert r == u[k..];
    assert forall i :: 3 <= i < |t| - |r| ==> t[i] == u[i - 3];
  }

  /**
   The text handed to `float()`: every `.` deleted as a thousands separator,
   then every `,` turned into the decimal point. No `,` is left, and there
   are exactly as many `.` as the typed text had `,`.
   */
  function Normalise(s: string): (r: string)
    ensures ',' !in r
    ensures Count('.', r) == Count(',', s)
  {
    var u := StripCurrency(s);
    assert Count(',', u) == Count(',', s);
    SeparatorsSwapped(u);
    ReplaceAll(DeleteAll(u, '.'), ',', '.')
  }

  /** After deleting every `.` and turning every `,` into `.`, the points are exactly the former commas. */
  lemma SeparatorsSwapped(u: string)
    ensures var r := ReplaceAll(DeleteAll(u, '.'), ',', '.');
      ',' !in r && Count('.', r) == Count(',', u)
  {
    var d := DeleteAll(u, '.');
    CountZero('.', d);
    ReplaceAllCounts(d, ',', '.');
  }

  /** The `value <= 0` guard of `validate_value` as written, applied to what `float()` returned. */
  function GuardAsWritten(p: Option<PyFloat>): (r: Option<PyFloat>)
    ensures r.Some? ==> p == r && !r.value.AtMostZero()
    ensures p.Some? && !p.value.AtMostZero() ==> r == p
  {
    match p
    case None => None
    case Some(x) => if x.AtMostZero() then None else Some(x)
  }

  /** The intended guard: only a finite number greater than zero gets through. */
  function Guard(p: Option<PyFloat>): (r: Option<real>)
    ensures r.Some? ==> r.value > 0.0 && p == Some(Finite(r.value))
    ensures p.Some? && p.value.Finite? && p.value.v > 0.0 ==> r == Some(p.value.v)
  {
    match p
    case Some(Finite(v)) => if v > 0.0 then Some(v) else None
    case _ => None
  }

  /**
   `validate_value` as written: the amount is rejected when `float()` fails or
   when `value <= 0`. That guard is false for NaN, so `"nan"` is accepted
   (see NanAcceptedAsWritten).
   */
  function ValidateValueAsWritten(s: string): (r: Option<PyFloat>)
    ensures r.Some? ==> !r.value.AtMostZero() && ParseFloat(Normalise(s)) == r
    ensures var p := ParseFloat(Normalise(s)); p.Some? && !p.value.AtMostZero() ==> r == p
  {
    GuardAsWritten(ParseFloat(Normalise(s)))
  }

  /** `validate_value` as intended: the amount is a finite number greater than zero. */
  function ValidateValue(s: string): (r: Option<real>)
    ensures r.Some? ==> r.value > 0.0 && ParseFloat(Normalise(s)) == Some(Finite(r.value))
    ensures var p := ParseFloat(Normalise(s)); p.Some? && p.value.Finite? && p.value.v > 0.0 ==> r == Some(p.value.v)
  {
    Guard(ParseFloat(Normalise(s)))
  }

  /** The two guards agree on every finite value; they differ only on NaN and the infinities. */
  lemma GuardsAgree(p: Option<PyFloat>)
    ensures Guard(p).Some? ==> GuardAsWritten(p) == Some(Finite(Guard(p).value))
    ensures GuardAsWritten(p).Some? && GuardAsWritten(p).value.Finite? ==> Guard(p) == Some(GuardAsWritten(p).value.v)
  {
  }

  /** The intended check accepts exactly the finite amounts the code as written accepts. */
  lemma ValidateValueAgrees(s: string)
    ensures ValidateValue(s).Some? ==> ValidateValueAsWritten(s) == Some(Finite(ValidateValue(s).value))
    ensures ValidateValueAsWritten(s).Some? && ValidateValueAsWritten(s).value.Finite? ==>
              ValidateValue(s) == Some(ValidateValueAsWritten(s).value.v)
  {
    GuardsAgree(ParseFloat(Normalise(s)));
  }

  /** Text with two or more commas normalises to a numeral with two or more points, which `float()` refuses. */
  lemma TwoCommasRejected(s: string)
    requires Count(',', s) >= 2
    ensures ValidateValueAsWritten(s) == None
    ensures ValidateValue(s) == None
  {
    assert ParseFloat(Normalise(s)).None?;
  }

  /**
   The finding: `nan`, in any letter case, passes the `<= 0` guard although
   NaN is not a positive number; the intended check refuses it.
   */
  lemma NanAcceptedAsWritten(w: string)
    requires LowerAscii(w) == "nan"
    ensures ValidateValueAsWritten(w) == Some(NaN)
    ensures !NaN.Positive()
    ensures ValidateValue(w) == None
  {
    AsciiLetters(w, "nan");
    NormalisePlain(w);
    DeleteAbsent(w, '.');
    ReplaceAbsent(w, ',', '.');
    ParseFloatNan(w);
  }

  /**
   The finding's other half: `inf`, in any letter case, also passes the
   `<= 0` guard as written, although it is not a finite amount; the intended
   check refuses it.
   */
  lemma InfAcceptedAsWritten(w: string)
    requires LowerAscii(w) == "inf"
    ensures ValidateValueAsWritten(w) == Some(Infinity(false))
    ensures ValidateValue(w) == None
  {
    AsciiLetters(w, "inf");
    NormalisePlain(w);
    DeleteAbsent(w, '.');
    ReplaceAbsent(w, ',', '.');
    ParseFloatInf(w);
  }

  /** A word that lower-cases to `nan` or `inf` is made of three ASCII letters, none of them `U`. */
  lemma AsciiLetters(w: string, word: string)
    requires word == "nan" || word == "inf"
    requires LowerAscii(w) == word
    ensures |w| == 3 && w[0] != 'U'
    ensures forall i :: 0 <= i < |w| ==> ('a' <= w[i] <= 'z' || 'A' <= w[i] <= 'Z')
  {
    forall i | 0 <= i < |w| ensures 'a' <= w[i] <= 'z' || 'A' <= w[i] <= 'Z' {
      LowerAsciiAt(w, i);
    }
    LowerAsciiAt(w, 0);
  }

  /**
   Inserts a `.` before every group of three digits counted from the right:
   `"1234567"` becomes `"1.234.567"`. The points sit exactly four, eight, ...
   places from the end, so each is followed by three digits, and removing
   them gives back the digits in order.
   */
  function GroupThousands(ds: string): (r: string)
    requires |ds| > 0 && AllDigits(ds)
    ensures |r| > 0 && r[0] == ds[0] && r[|r| - 1] == ds[|ds| - 1]
    ensures PointsEveryFour(r)
    ensures ',' !in r
    ensures DeleteAll(r, '.') == ds
    decreases |ds|
  {
    if |ds| <= 3 then
      ShortGroup(ds);
      ds
    else
      var head, tail := ds[..|ds| - 3], ds[|ds| - 3..];
      var g := GroupThousands(head);
      var r := g + "." + tail;
      GroupAppend(ds, head, tail, g, r);
      r
  }

  /** The points of `r` sit exactly four, eight, ... places from its end. */
  predicate PointsEveryFour(r: string) {
    forall i :: 0 <= i < |r| ==> (r[i] == '.' <==> (|r| - i) % 4 == 0)
  }

  /** Up to three digits form a single group with no point. */
  lemma ShortGroup(ds: string)
    requires 0 < |ds| <= 3 && AllDigits(ds)
    ensures ',' !in ds && DeleteAll(ds, '.') == ds
    ensures PointsEveryFour(ds)
  {
    NoDotInDigits(ds);
    DeleteAbsent(ds, '.');
    NoCommaInDigits(ds);
    forall i | 0 <= i < |ds| ensures ds[i] != '.' && (|ds| - i) % 4 != 0 {
      assert IsDigit(ds[i]);
      FewerThanFour(|ds| - i);
    }
  }

  lemma FewerThanFour(n: int)
    requires 1 <= n <= 3
    ensures n % 4 != 0
  {
  }

  /** The grouping of `ds` is the grouping of all but its last three digits, a point, and those three digits. */
  lemma GroupAppend(ds: string, head: string, tail: string, g: string, r: string)
    requires |ds| > 3 && AllDigits(ds) && head == ds[..|ds| - 3] && tail == ds[|ds| - 3..]
    requires |g| > 0 && g[0] == head[0] && ',' !in g && DeleteAll(g, '.') == head
    requires PointsEveryFour(g) && r == g + "." + tail
    ensures |r| > 0 && r[0] == ds[0] && r[|r| - 1] == ds[|ds| - 1]
    ensures PointsEveryFour(r) && ',' !in r && DeleteAll(r, '.') == ds
  {
    GroupStep(g, head, tail);
    GroupPlaces(g, tail);
    assert head + tail == ds;
  }

  /** Appending a dot and a group of digits to a grouped numeral keeps it grouped. */
  lemma GroupStep(g: string, head: string, tail: string)
    requires |tail| > 0 && AllDigits(tail)
    requires ',' !in g && DeleteAll(g, '.') == head
    ensures ',' !in g + "." + tail
    ensures DeleteAll(g + "." + tail, '.') == head + tail
  {
    NoCommaInDigits(tail);
    DeleteDots(g, tail);
  }

  /** A point and three digits after a grouped numeral put the new point four places from the end and keep the old ones grouped. */
  lemma GroupPlaces(g: string, tail: string)
    requires |tail| == 3 && AllDigits(tail) && PointsEveryFour(g)
    ensures PointsEveryFour(g + "." + tail)
  {
    var r := g + "." + tail;
    forall i | 0 <= i < |r| ensures r[i] == '.' <==> (|r| - i) % 4 == 0 {
      if i < |g| {
        assert r[i] == g[i];
        assert |r| - i == (|g| - i) + 4;
      } else if i > |g| {
        assert r[i] == tail[i - |g| - 1];
        assert IsDigit(tail[i - |g| - 1]);
      }
    }
  }

  lemma DeleteDots(g: string, tail: string)
    requires AllDigits(tail)
    ensures DeleteAll(g + "." + tail, '.') == DeleteAll(g, '.') + tail
  {
    NoDotInDigits(tail);
    DeleteAbsent(tail, '.');
    DeleteAllAppend(g + ".", tail, '.');
    DeleteAllAppend(g, ".", '.');
  }

  /** An amount of cents typed as `1.234,56`: grouped whole units, a comma, two cent digits. */
  function FormatAmount(c: nat): (r: string)
    ensures |r| >= 4 && IsDigit(r[0]) && IsDigit(r[|r| - 1])
  {
    var g := GroupThousands(NatToDigits(c / 100));
    g + "," + TwoDigits(c % 100)
  }

  /** An amount of cents typed in the prompt's own format: `USD 1.234,56`. */
  function FormatUsd(c: nat): string {
    "USD " + FormatAmount(c)
  }

  /** Removing the separators from a typed amount yields the plain numeral of the same amount. */
  lemma NormaliseFormatted(x: string, c: nat)
    requires x == FormatAmount(c)
    ensures ReplaceAll(DeleteAll(x, '.'), ',', '.') == RenderCents(c)
  {
    var ds, two := NatToDigits(c / 100), TwoDigits(c % 100);
    var g := GroupThousands(ds);
    assert x == g + "," + two;
    NoDotInDigits(two);
    DeleteAbsent(two, '.');
    DeleteAbsent(",", '.');
    DeleteAllAppend(g + ",", two, '.');
    DeleteAllAppend(g, ",", '.');
    var d := DeleteAll(x, '.');
    assert d == ds + "," + two;
    NoCommaInDigits(ds);
    NoCommaInDigits(two);
    ReplaceAllAppend(ds + ",", two, ',', '.');
    ReplaceAllAppend(ds, ",", ',', '.');
    assert ReplaceAll(",", ',', '.') == ".";
  }

  lemma NoCommaInDigits(s: string)
    requires AllDigits(s)
    ensures ',' !in s && ReplaceAll(s, ',', '.') == s
  {
    assert forall i :: 0 <= i < |s| ==> s[i] != ',' by {
      forall i | 0 <= i < |s| ensures s[i] != ',' {
        assert IsDigit(s[i]);
      }
    }
    ReplaceAbsent(s, ',', '.');
  }

  lemma NormaliseAmount(c: nat)
    ensures Normalise(FormatAmount(c)) == RenderCents(c)
  {
    var x := FormatAmount(c);
    assert IsDigit(x[0]);
    NormalisePlain(x);
    NormaliseFormatted(x, c);
  }

  lemma NormaliseUsd(c: nat)
    ensures Normalise(FormatUsd(c)) == RenderCents(c)
  {
    var x := FormatAmount(c);
    StripCurrencyUsd(x);
    NormaliseFormatted(x, c);
  }

  /** One leading `USD` and the blank after it are dropped. */
  lemma StripCurrencyUsd(x: string)
    requires |x| > 0 && !IsSpace(x[0]) && !IsSpace(x[|x| - 1])
    ensures StripCurrency("USD " + x) == x
  {
    var s := "USD " + x;
    assert s[0] == 'U' && s[|s| - 1] == x[|x| - 1];
    StripUnchanged(s);
    assert StartsWith(s, "USD");
    var rest := s[3..];
    assert rest == " " + x;
    assert rest[1..] == x;
    assert TrimStart(rest, StrSpacing) == x;
    StripUnchanged(x);
    assert Strip(rest) == x;
  }

  lemma NormaliseNegative(c: nat)
    ensures Normalise("-" + FormatAmount(c)) == "-" + RenderCents(c)
  {
    var x := FormatAmount(c);
    var s := "-" + x;
    assert s[0] == '-' && s[|s| - 1] == x[|x| - 1];
    NormalisePlain(s);
    MinusKept(x);
    NormaliseFormatted(x, c);
  }

  /** The separators of a minus-prefixed text are those after the minus. */
  lemma MinusKept(x: string)
    ensures ReplaceAll(DeleteAll("-" + x, '.'), ',', '.') == "-" + ReplaceAll(DeleteAll(x, '.'), ',', '.')
  {
    DeleteAllAppend("-", x, '.');
    var d := DeleteAll(x, '.');
    assert DeleteAll("-" + x, '.') == "-" + d;
    ReplaceAllAppend("-", d, ',', '.');
  }

  /** Text with no surrounding whitespace and no leading `USD` goes straight to the separator swap. */
  lemma NormalisePlain(s: string)
    requires |s| > 0 && !IsSpace(s[0]) && !IsSpace(s[|s| - 1]) && s[0] != 'U'
    ensures Normalise(s) == ReplaceAll(DeleteAll(s, '.'), ',', '.')
  {
    StripUnchanged(s);
    assert StripCurrency(s) == s;
  }

  /** The intended guard passes an amount of cents exactly when it is above zero. */
  lemma GuardCents(c: nat)
    ensures Guard(Some(Finite(c as real / 100.0))) == (if c > 0 then Some(c as real / 100.0) else None)
  {
    var v := c as real / 100.0;
    if c > 0 { assert v > 0.0; } else { assert !(v > 0.0); }
  }

  /** Text that normalises to the plain numeral of `c` cents is accepted exactly when `c` is positive. */
  lemma ValidateRenderedCents(s: string, c: nat)
    requires Normalise(s) == RenderCents(c)
    ensures ValidateValue(s) == (if c > 0 then Some(c as real / 100.0) else None)
  {
    ParseFloatRoundTrip(c);
    GuardCents(c);
  }

  /**
   Round trip: an amount typed as `USD 1.234,56` or `1.234,56` is read back
   as exactly that many units, provided it is above zero; zero is rejected.
   */
  lemma FormattedAmountAccepted(c: nat)
    ensures ValidateValue(FormatUsd(c)) == (if c > 0 then Some(c as real / 100.0) else None)
    ensures ValidateValue(FormatAmount(c)) == (if c > 0 then Some(c as real / 100.0) else None)
  {
    NormaliseUsd(c);
    ValidateRenderedCents(FormatUsd(c), c);
    NormaliseAmount(c);
    ValidateRenderedCents(FormatAmount(c), c);
  }

  /** Text that normalises to a minus sign before an unsigned numeral is always rejected. */
  lemma RejectNegated(s: string, r: string)
    requires |r| > 0 && IsDigit(r[0]) && IsDigit(r[|r| - 1])
    requires ParseUnsigned(r).Some?
    requires Normalise(s) == "-" + r
    ensures ValidateValue(s) == None
    ensures ValidateValueAsWritten(s) == None
  {
    var v := ParseUnsigned(r).value;
    ParseFloatSigned(r, v);
    assert -v <= 0.0;
    assert Guard(Some(Finite(-v))) == None;
    assert GuardAsWritten(Some(Finite(-v))) == None;
  }

  /** A typed amount with a minus sign is always rejected. */
  lemma NegativeAmountRejected(c: nat)
    ensures ValidateValue("-" + FormatAmount(c)) == None
    ensures ValidateValueAsWritten("-" + FormatAmount(c)) == None
  {
    NormaliseNegative(c);
    RenderCentsIsNumeral(c);
    RejectNegated("-" + FormatAmount(c), RenderCents(c));
  }

  /**
   The prompt's own example, `USD 1.234,56`, is the amount 1234.56. The
   amount is held in a variable so that the formatter is unfolded only
   through the digit lemmas below, not evaluated on the literal.
   */
  lemma PromptExample()
    ensures ValidateValue("USD 1.234,56") == Some(1234.56)
  {
    var c: nat := 123456;
    assert c / 100 == 1234 && c % 100 == 56;
    Digits1234();
    Group1234();
    Digits56();
    var g, two := GroupThousands(NatToDigits(c / 100)), TwoDigits(c % 100);
    assert g == "1.234" && two == "56";
    assert FormatAmount(c) == "1.234,56" by {
      assert g + "," + two == "1.234,56";
    }
    UsdPrefix(c, "1.234,56");
    ExampleText();
    FormattedAmountAccepted(c);
  }

  /** Proof step: `FormatUsd` puts `USD ` in front of the amount, whatever the amount's text is. */
  lemma UsdPrefix(c: nat, x: string)
    requires FormatAmount(c) == x
    ensures FormatUsd(c) == "USD " + x
  {
  }

  /** Proof step: the concatenation of the two literals, kept apart so that it is checked on its own. */
  lemma ExampleText()
    ensures "USD " + "1.234,56" == "USD 1.234,56"
  {
  }

  lemma Digits56()
    ensures TwoDigits(56) == "56"
  {
  }

  lemma Digits1234()
    ensures NatToDigits(1234) == "1234"
  {
    assert NatToDigits(1) == "1";
    assert NatToDigits(12) == "12";
    assert NatToDigits(123) == "123";
  }

  lemma Group1234()
    ensures GroupThousands("1234") == "1.234"
  {
    assert "1234"[..1] == "1";
    assert "1234"[1..] == "234";
  }
}
