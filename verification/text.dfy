/**
 The handful of Python `str` operations the amount and email checks rely on:
 `strip()`, `startswith`, `replace`, `lower()` on ASCII letters, and counting
 occurrences of a character. Strings are sequences of Unicode code points.
 */
module Text {

  /** Python's `str.isspace()` set, which is what `strip()` with no argument removes. */
  predicate IsSpace(c: char) {
    || c == ' ' || ('\t' <= c <= '\r')           // tab, line feed, vertical tab, form feed, carriage return
    || (0x1C <= c as int <= 0x1F)                 // file, group, record and unit separators
    || c as int == 0x85 || c as int == 0xA0
    || c as int == 0x1680
    || (0x2000 <= c as int <= 0x200A)
    || c as int == 0x2028 || c as int == 0x2029
    || c as int == 0x202F || c as int == 0x205F || c as int == 0x3000
  }

  /** Number of occurrences of `c` in `s`. */
  function Count(c: char, s: string): (n: nat)
    ensures n <= |s|
  {
    if |s| == 0 then 0 else (if s[0] == c then 1 else 0) + Count(c, s[1..])
  }

  lemma {:induction false} CountAppend(c: char, a: string, b: string)
    ensures Count(c, a + b) == Count(c, a) + Count(c, b)
  {
    if |a| == 0 {
      assert a + b == b;
    } else {
      assert (a + b)[1..] == a[1..] + b;
      CountAppend(c, a[1..], b);
    }
  }

  lemma {:induction false} CountZero(c: char, s: string)
    ensures Count(c, s) == 0 <==> c !in s
  {
    if |s| > 0 {
      CountZero(c, s[1..]);
      assert s == [s[0]] + s[1..];
    }
  }

  /**
   Which whitespace a strip removes. `str.strip()` removes every `str.isspace()`
   character. `float()` removes only ASCII space, tab, line feed, vertical tab,
   form feed and carriage return, plus the non-ASCII whitespace: the ASCII
   separators U+001C..U+001F stay in the literal and make it invalid.
   */
  datatype Spacing = StrSpacing | FloatSpacing

  predicate IsSpaceFor(sp: Spacing, c: char) {
    IsSpace(c) && (sp.FloatSpacing? ==> !(0x1C <= c as int <= 0x1F))
  }

  /** The length of the run of whitespace `s` starts with. */
  function LeadingSpaces(s: string, sp: Spacing): (n: nat)
    ensures n <= |s|
    ensures forall i :: 0 <= i < n ==> IsSpaceFor(sp, s[i])
    ensures n < |s| ==> !IsSpaceFor(sp, s[n])
  {
    if |s| > 0 && IsSpaceFor(sp, s[0]) then 1 + LeadingSpaces(s[1..], sp) else 0
  }

  /** `s.lstrip()`: the longest suffix of `s` that does not start with whitespace. */
  function TrimStart(s: string, sp: Spacing): (r: string)
    ensures |r| <= |s| && r == s[|s| - |r|..] && |s| - |r| == LeadingSpaces(s, sp)
    ensures forall i :: 0 <= i < |s| - |r| ==> IsSpaceFor(sp, s[i])
    ensures |r| == 0 || !IsSpaceFor(sp, r[0])
  {
    if |s| > 0 && IsSpaceFor(sp, s[0]) then TrimStart(s[1..], sp) else s
  }

  /** `s.rstrip()`: the longest prefix of `s` that does not end with whitespace. */
  function TrimEnd(s: string, sp: Spacing): (r: string)
    ensures |r| <= |s| && r == s[..|r|]
    ensures forall i :: |r| <= i < |s| ==> IsSpaceFor(sp, s[i])
    ensures |r| == 0 || !IsSpaceFor(sp, r[|r| - 1])
  {
    if |s| > 0 && IsSpaceFor(sp, s[|s| - 1]) then TrimEnd(s[..|s| - 1], sp) else s
  }

  /**
   `s.strip()` (or, with `FloatSpacing`, the strip inside `float()`): the
   slice of `s` that starts after its leading whitespace and stops before its
   trailing whitespace. Every character that is not whitespace survives, so
   its count is unchanged.
   */
  function Strip(s: string, sp: Spacing := StrSpacing): (r: string)
    ensures r <= s[LeadingSpaces(s, sp)..]
    ensures forall i :: LeadingSpaces(s, sp) + |r| <= i < |s| ==> IsSpaceFor(sp, s[i])
    ensures |r| == 0 || (!IsSpaceFor(sp, r[0]) && !IsSpaceFor(sp, r[|r| - 1]))
    ensures forall c :: !IsSpaceFor(sp, c) ==> Count(c, r) == Count(c, s)
  {
    var t := TrimStart(s, sp);
    StripSlice(s, sp);
    StripCounts(s, sp);
    TrimEnd(t, sp)
  }

  /** Trimming both ends leaves a prefix of what follows the leading whitespace, followed only by whitespace. */
  lemma StripSlice(s: string, sp: Spacing)
    ensures TrimEnd(TrimStart(s, sp), sp) <= s[LeadingSpaces(s, sp)..]
    ensures var r, k := TrimEnd(TrimStart(s, sp), sp), LeadingSpaces(s, sp);
      forall i :: k + |r| <= i < |s| ==> IsSpaceFor(sp, s[i])
  {
    var t := TrimStart(s, sp);
    var r := TrimEnd(t, sp);
    var k := LeadingSpaces(s, sp);
    assert t == s[k..];
    TrailingSpaces(s, t, r, k, sp);
  }

  lemma TrailingSpaces(s: string, t: string, r: string, k: nat, sp: Spacing)
    requires k <= |s| && t == s[k..] && |r| <= |t|
    requires forall i :: |r| <= i < |t| ==> IsSpaceFor(sp, t[i])
    ensures forall i :: k + |r| <= i < |s| ==> IsSpaceFor(sp, s[i])
  {
    forall i | k + |r| <= i < |s| ensures IsSpaceFor(sp, s[i]) {
      assert s[i] == t[i - k];
    }
  }

  /** Trimming both ends keeps the count of every non-space character. */
  lemma StripCounts(s: string, sp: Spacing)
    ensures forall c :: !IsSpaceFor(sp, c) ==> Count(c, TrimEnd(TrimStart(s, sp), sp)) == Count(c, s)
  {
    forall c | !IsSpaceFor(sp, c) ensures Count(c, TrimEnd(TrimStart(s, sp), sp)) == Count(c, s) {
      TrimStartCount(s, c, sp);
      TrimEndCount(TrimStart(s, sp), c, sp);
    }
  }

  /** Trimming leading whitespace keeps every non-space character. */
  lemma {:induction false} TrimStartCount(s: string, c: char, sp: Spacing)
    requires !IsSpaceFor(sp, c)
    ensures Count(c, TrimStart(s, sp)) == Count(c, s)
  {
    if |s| > 0 && IsSpaceFor(sp, s[0]) {
      TrimStartCount(s[1..], c, sp);
    }
  }

  /** Trimming trailing whitespace keeps every non-space character. */
  lemma {:induction false} TrimEndCount(s: string, c: char, sp: Spacing)
    requires !IsSpaceFor(sp, c)
    ensures Count(c, TrimEnd(s, sp)) == Count(c, s)
  {
    if |s| > 0 && IsSpaceFor(sp, s[|s| - 1]) {
      var init := s[..|s| - 1];
      TrimEndCount(init, c, sp);
      assert s == init + [s[|s| - 1]];
      CountAppend(c, init, [s[|s| - 1]]);
    }
  }

  /** Stripping a string that neither starts nor ends with whitespace leaves it alone. */
  lemma StripUnchanged(s: string, sp: Spacing := StrSpacing)
    requires |s| == 0 || (!IsSpaceFor(sp, s[0]) && !IsSpaceFor(sp, s[|s| - 1]))
    ensures Strip(s, sp) == s
  {
    assert TrimStart(s, sp) == s;
  }

  /** Stripping twice is stripping once. */
  lemma StripIdempotent(s: string, sp: Spacing := StrSpacing)
    ensures Strip(Strip(s, sp), sp) == Strip(s, sp)
  {
    StripUnchanged(Strip(s, sp), sp);
  }

  /** `s.startswith(p)`: case-sensitive prefix test. */
  predicate StartsWith(s: string, p: string) {
    |p| <= |s| && s[..|p|] == p
  }

  /**
   `s.replace(c, "")`: `s` with every occurrence of `c` deleted and the rest
   kept in order. A character at position `i` that is not `c` moves left by
   the number of `c` before it.
   */
  function DeleteAll(s: string, c: char): (r: string)
    ensures c !in r
    ensures |r| == |s| - Count(c, s)
    ensures forall d :: d != c ==> Count(d, r) == Count(d, s)
    ensures forall i {:trigger s[..i]} :: 0 <= i < |s| && s[i] != c ==>
      i - Count(c, s[..i]) < |r| && r[i - Count(c, s[..i])] == s[i]
  {
    if |s| == 0 then []
    else
      var rest := DeleteAll(s[1..], c);
      assert forall i :: 0 < i <= |s| ==> s[..i][1..] == s[1..][..i - 1];
      if s[0] == c then rest
      else [s[0]] + rest
  }

  lemma {:induction false} DeleteAllAppend(a: string, b: string, c: char)
    ensures DeleteAll(a + b, c) == DeleteAll(a, c) + DeleteAll(b, c)
  {
    if |a| == 0 {
      assert a + b == b;
    } else {
      assert (a + b)[1..] == a[1..] + b;
      DeleteAllAppend(a[1..], b, c);
    }
  }

  /** Deleting a character that does not occur changes nothing. */
  lemma {:induction false} DeleteAbsent(s: string, c: char)
    requires c !in s
    ensures DeleteAll(s, c) == s
  {
    if |s| > 0 {
      DeleteAbsent(s[1..], c);
      assert s[0] != c;
      assert s == [s[0]] + s[1..];
    }
  }

  /**
   `s.replace(a, b)` for single characters: same length, every `a` becomes
   `b`, every other character stays where it was.
   */
  function ReplaceAll(s: string, a: char, b: char): (r: string)
    ensures |r| == |s|
    ensures forall i :: 0 <= i < |s| ==> r[i] == (if s[i] == a then b else s[i])
  {
    if |s| == 0 then [] else [if s[0] == a then b else s[0]] + ReplaceAll(s[1..], a, b)
  }

  /** After replacing `a` by `b` there is no `a` left, and each former `a` counts as a `b`. */
  lemma {:induction false} ReplaceAllCounts(s: string, a: char, b: char)
    requires a != b
    ensures a !in ReplaceAll(s, a, b)
    ensures Count(b, ReplaceAll(s, a, b)) == Count(b, s) + Count(a, s)
  {
    if |s| > 0 {
      ReplaceAllCounts(s[1..], a, b);
      assert ReplaceAll(s, a, b)[1..] == ReplaceAll(s[1..], a, b);
    }
  }

  lemma {:induction false} ReplaceAllAppend(x: string, y: string, a: char, b: char)
    ensures ReplaceAll(x + y, a, b) == ReplaceAll(x, a, b) + ReplaceAll(y, a, b)
  {
    if |x| == 0 {
      assert x + y == y;
    } else {
      assert (x + y)[1..] == x[1..] + y;
      ReplaceAllAppend(x[1..], y, a, b);
    }
  }

  /** Replacing a character that does not occur changes nothing. */
  lemma ReplaceAbsent(s: string, a: char, b: char)
    requires a !in s
    ensures ReplaceAll(s, a, b) == s
  {
  }

  /** Lower-cases an ASCII letter `A`..`Z` and leaves every other character alone. */
  function LowerChar(c: char): (d: char)
    ensures ('A' <= c <= 'Z') <==> d != c
    ensures 'a' <= d <= 'z' <==> ('a' <= c <= 'z' || 'A' <= c <= 'Z')
  {
    if 'A' <= c <= 'Z' then (c as int + 32) as char else c
  }

  /** Lower-cases the ASCII letters of `s`, character by character. */
  function LowerAscii(s: string): (r: string)
    ensures |r| == |s|
  {
    if |s| == 0 then [] else [LowerChar(s[0])] + LowerAscii(s[1..])
  }

  lemma {:induction false} LowerAsciiAt(s: string, i: nat)
    requires i < |s|
    ensures LowerAscii(s)[i] == LowerChar(s[i])
  {
    if i > 0 {
      LowerAsciiAt(s[1..], i - 1);
    }
  }
}
