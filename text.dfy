/**
 * The string operations the cleaning pipeline relies on: Python's `str.strip()` and
 * `str.split()`, `int()` on a token, the digits-only regular expression `[^0-9]+`, the
 * text-to-number parse of `pd.to_numeric` and the `%b-%Y` date format.
 */
module Text {
  import opened Wrappers

  /** Characters Python's `str.isspace()` accepts; `strip()` and `split()` cut on exactly these. */
  predicate IsSpace(ch: char) {
    || ch == ' '
    || ('\t' <= ch <= '\r')
    || ('\U{1C}' <= ch <= '\U{1F}')
    || ch == '\U{85}' || ch == '\U{A0}' || ch == '\U{1680}'
    || ('\U{2000}' <= ch <= '\U{200A}')
    || ch == '\U{2028}' || ch == '\U{2029}' || ch == '\U{202F}' || ch == '\U{205F}' || ch == '\U{3000}'
  }

  /** An ASCII digit: the class `[0-9]`. */
  predicate IsDigit(ch: char) {
    '0' <= ch <= '9'
  }

  predicate AllSpace(s: string) {
    forall i :: 0 <= i < |s| ==> IsSpace(s[i])
  }

  predicate NoSpace(s: string) {
    forall i :: 0 <= i < |s| ==> !IsSpace(s[i])
  }

  predicate AllDigits(s: string) {
    forall i :: 0 <= i < |s| ==> IsDigit(s[i])
  }

  predicate NoDigits(s: string) {
    forall i :: 0 <= i < |s| ==> !IsDigit(s[i])
  }

  // ---------------------------------------------------------------------------
  // strip() and split()
  // ---------------------------------------------------------------------------

  /** `s.lstrip()`: the suffix of `s` left after dropping leading whitespace. */
  function LStrip(s: string): (r: string)
    ensures |r| <= |s| && r == s[|s| - |r|..]
    ensures AllSpace(s[..|s| - |r|])
    ensures r == [] || !IsSpace(r[0])
  {
    if s != [] && IsSpace(s[0]) then
      var r := LStrip(s[1..]);
      assert s[..|s| - |r|] == [s[0]] + s[1..][..|s| - 1 - |r|];
      r
    else
      s
  }

  /** `s.rstrip()`: the prefix of `s` left after dropping trailing whitespace. */
  function RStrip(s: string): (r: string)
    ensures |r| <= |s| && r == s[..|r|]
    ensures AllSpace(s[|r|..])
    ensures r == [] || !IsSpace(r[|r| - 1])
  {
    if s != [] && IsSpace(s[|s| - 1]) then
      var r := RStrip(s[..|s| - 1]);
      assert s[|r|..] == s[..|s| - 1][|r|..] + [s[|s| - 1]];
      r
    else
      s
  }

  /** `s.strip()`. */
  function Strip(s: string): (r: string)
    ensures |r| <= |s|
    ensures r == [] || (!IsSpace(r[0]) && !IsSpace(r[|r| - 1]))
  {
    RStrip(LStrip(s))
  }

  lemma LStripEmpty(s: string)
    ensures LStrip(s) == [] <==> AllSpace(s)
  {
    var l := LStrip(s);
    if l == [] {
      assert s == s[..|s| - |l|];
    } else {
      assert s[|s| - |l|] == l[0];
    }
  }

  lemma RStripEmpty(s: string)
    ensures RStrip(s) == [] <==> AllSpace(s)
  {
    var r := RStrip(s);
    if r == [] {
      assert s == s[|r|..];
    } else {
      assert s[|r| - 1] == r[|r| - 1];
    }
  }

  /** `strip()` gives the empty string exactly for all-whitespace text. */
  lemma StripEmpty(s: string)
    ensures Strip(s) == [] <==> AllSpace(s)
  {
    var l := LStrip(s);
    LStripEmpty(s);
    RStripEmpty(l);
  }


  /** The longest prefix of `s` holding no whitespace. */
  function TakeToken(s: string): (t: string)
    ensures |t| <= |s| && t == s[..|t|] && NoSpace(t)
    ensures |t| == |s| || IsSpace(s[|t|])
  {
    if s == [] || IsSpace(s[0]) then [] else [s[0]] + TakeToken(s[1..])
  }

  /** `s.split()[0]`: the first whitespace-separated token; `None` where Python raises IndexError. */
  function FirstToken(s: string): (r: Option<string>)
    ensures r.None? <==> AllSpace(s)
    ensures r.Some? ==> r.value != [] && NoSpace(r.value)
  {
    var t := LStrip(s);
    if t == [] then
      None
    else
      assert s[|s| - |t|] == t[0];
      Some(TakeToken(t))
  }

  lemma {:induction false} LStripPadded(w: string, t: string)
    requires AllSpace(w) && (t == [] || !IsSpace(t[0]))
    ensures LStrip(w + t) == t
  {
    if w == [] {
      assert w + t == t;
    } else {
      assert (w + t)[0] == w[0];
      assert (w + t)[1..] == w[1..] + t;
      LStripPadded(w[1..], t);
    }
  }

  lemma {:induction false} RStripPadded(t: string, w: string)
    requires AllSpace(w) && (t == [] || !IsSpace(t[|t| - 1]))
    ensures RStrip(t + w) == t
  {
    if w == [] {
      assert t + w == t;
    } else {
      var s := t + w;
      assert s[|s| - 1] == w[|w| - 1];
      assert s[..|s| - 1] == t + w[..|w| - 1];
      RStripPadded(t, w[..|w| - 1]);
    }
  }

  /** Stripping whitespace off both ends gives back the padded text. */
  lemma StripPadded(w1: string, t: string, w2: string)
    requires AllSpace(w1) && AllSpace(w2)
    requires t != [] && !IsSpace(t[0]) && !IsSpace(t[|t| - 1])
    ensures Strip(w1 + t + w2) == t
  {
    assert w1 + t + w2 == w1 + (t + w2);
    LStripPadded(w1, t + w2);
    RStripPadded(t, w2);
  }

  lemma {:induction false} TakeTokenPrefix(t: string, rest: string)
    requires NoSpace(t) && (rest == [] || IsSpace(rest[0]))
    ensures TakeToken(t + rest) == t
  {
    if t == [] {
      assert t + rest == rest;
    } else {
      assert (t + rest)[0] == t[0];
      assert (t + rest)[1..] == t[1..] + rest;
      TakeTokenPrefix(t[1..], rest);
    }
  }

  /**
   * `s.strip().split()[0]` of a text made of leading whitespace, a token, and a tail that is
   * empty or starts with whitespace, is that token.
   */
  lemma FirstTokenOfPadded(w: string, t: string, tail: string)
    requires AllSpace(w) && t != [] && NoSpace(t) && (tail == [] || IsSpace(tail[0]))
    ensures FirstToken(Strip(w + t + tail)) == Some(t)
  {
    assert w + t + tail == w + (t + tail);
    LStripPadded(w, t + tail);
    var tail' := RStripKeepsToken(t, tail);
    assert Strip(w + t + tail) == t + tail';
    TakeTokenPrefix(t, tail');
  }

  /** Right-stripping a token followed by a tail keeps the token and a prefix of the tail. */
  lemma RStripKeepsToken(t: string, tail: string) returns (tail': string)
    requires t != [] && NoSpace(t)
    ensures RStrip(t + tail) == t + tail'
    ensures tail' == tail[..|tail'|]
  {
    var s := t + tail;
    var r := RStrip(s);
    assert !IsSpace(s[|t| - 1]);
    assert |r| >= |t|;
    tail' := tail[..|r| - |t|];
    assert r == t + tail';
  }

  // ---------------------------------------------------------------------------
  // Digits and integers
  // ---------------------------------------------------------------------------

  function DigitValue(ch: char): nat
    requires IsDigit(ch)
  {
    (ch as int) - ('0' as int)
  }

  function DigitChar(d: nat): (ch: char)
    requires d < 10
    ensures IsDigit(ch) && DigitValue(ch) == d
  {
    (('0' as int) + d) as char
  }

  /** The value of a string of decimal digits, most significant first. */
  function DigitsValue(s: string): nat
    requires AllDigits(s)
  {
    if s == [] then 0 else DigitsValue(s[..|s| - 1]) * 10 + DigitValue(s[|s| - 1])
  }

  lemma {:induction false} DigitsValueBound(s: string)
    requires AllDigits(s)
    ensures DigitsValue(s) < Pow10(|s|)
  {
    if s != [] {
      DigitsValueBound(s[..|s| - 1]);
    }
  }

  /** The decimal rendering of `n` (what `str(n)` prints). */
  function NatText(n: nat): (s: string)
    ensures s != [] && AllDigits(s)
  {
    if n < 10 then [DigitChar(n)] else NatText(n / 10) + [DigitChar(n % 10)]
  }

  lemma {:induction false} NatTextValue(n: nat)
    ensures DigitsValue(NatText(n)) == n
  {
    if n >= 10 {
      var s := NatText(n);
      NatTextValue(n / 10);
      assert s[..|s| - 1] == NatText(n / 10);
    }
  }

  /** A signed rendering `"-<n>"` is a single token. */
  lemma NegativeTextNoSpace(n: nat)
    ensures NoSpace("-" + NatText(n))
  {
    var neg := "-" + NatText(n);
    var t := NatText(n);
    assert NoSpace(t);
    assert neg[0] == '-';
    assert !IsSpace('-');
    assert forall i :: 1 <= i < |neg| ==> neg[i] == t[i - 1];
  }

  /** The longest prefix of `s` made of digits. */
  function TakeDigits(s: string): (t: string)
    ensures |t| <= |s| && t == s[..|t|] && AllDigits(t)
    ensures |t| == |s| || !IsDigit(s[|t|])
  {
    if s == [] || !IsDigit(s[0]) then [] else [s[0]] + TakeDigits(s[1..])
  }

  /**
   * `int(t)` on a token without whitespace: an optional sign followed by ASCII digits.
   * `None` stands for the ValueError Python raises.
   */
  function ParseInt(t: string): (r: Option<int>)
    ensures r.Some? ==> t != [] && (AllDigits(t) || ((t[0] == '-' || t[0] == '+') && AllDigits(t[1..])))
    ensures AllDigits(t) && t != [] ==> r == Some(DigitsValue(t) as int)
    ensures |t| >= 2 && t[0] == '-' && AllDigits(t[1..]) ==> r == Some(-(DigitsValue(t[1..]) as int))
    ensures |t| >= 2 && t[0] == '+' && AllDigits(t[1..]) ==> r == Some(DigitsValue(t[1..]) as int)
  {
    if t != [] && (t[0] == '-' || t[0] == '+') then
      var body := t[1..];
      if body != [] && AllDigits(body) then
        Some(if t[0] == '-' then -(DigitsValue(body) as int) else DigitsValue(body))
      else
        None
    else if t != [] && AllDigits(t) then
      Some(DigitsValue(t))
    else
      None
  }

  lemma ParseIntNatText(n: nat)
    ensures ParseInt(NatText(n)) == Some(n as int)
    ensures ParseInt("-" + NatText(n)) == Some(-(n as int))
  {
    NatTextValue(n);
    var s := "-" + NatText(n);
    assert s[1..] == NatText(n);
  }

  function Pow10(k: nat): (p: nat)
    ensures p >= 1
  {
    if k == 0 then 1 else 10 * Pow10(k - 1)
  }

  /** A character that may appear in a number `ParseDecimal` accepts. */
  predicate IsNumeral(ch: char) {
    IsDigit(ch) || ch == '.' || ch == '-' || ch == '+'
  }

  /** An unsigned decimal: digits, optionally a point and more digits, at least one digit in all. */
  function ParseUnsigned(s: string): (r: Option<real>)
    ensures r.Some? ==> s != [] && forall i :: 0 <= i < |s| ==> IsDigit(s[i]) || s[i] == '.'
    ensures r.Some? ==> r.value >= 0.0
  {
    var whole := TakeDigits(s);
    var rest := s[|whole|..];
    assert s == whole + rest;
    if rest == [] then
      if whole == [] then None else Some(DigitsValue(whole) as real)
    else if rest[0] == '.' && AllDigits(rest[1..]) && (whole != [] || |rest| > 1) then
      Some(DigitsValue(whole) as real + DigitsValue(rest[1..]) as real / Pow10(|rest| - 1) as real)
    else
      None
  }

  /**
   * The text-to-number parse of `pd.to_numeric`, restricted to an optional sign, digits and an
   * optional fractional part (`"12"`, `"-3.5"`, `".5"`, `"7."`); `None` is a value pandas cannot parse.
   */
  function ParseDecimal(s: string): (r: Option<real>)
    ensures r.Some? ==> s != [] && forall i :: 0 <= i < |s| ==> IsNumeral(s[i])
  {
    if s != [] && (s[0] == '-' || s[0] == '+') then
      match ParseUnsigned(s[1..])
      case None => None
      case Some(m) =>
        assert forall i :: 1 <= i < |s| ==> s[i] == s[1..][i - 1];
        Some(if s[0] == '-' then -m else m)
    else
      ParseUnsigned(s)
  }

  lemma ParseDecimalNatText(n: nat)
    ensures ParseDecimal(NatText(n)) == Some(n as real)
  {
    var s := NatText(n);
    NatTextValue(n);
    assert TakeDigits(s) == s;
  }

  // ---------------------------------------------------------------------------
  // The regular expression `[^0-9]+` replaced by ''
  // ---------------------------------------------------------------------------

  /** `re.sub('[^0-9]+', '', s)`: keep only the ASCII digits of `s`, in order. */
  function KeepDigits(s: string): (r: string)
    ensures |r| <= |s| && AllDigits(r)
    ensures AllDigits(s) ==> r == s
    ensures NoDigits(s) ==> r == []
  {
    if s == [] then []
    else if IsDigit(s[0]) then [s[0]] + KeepDigits(s[1..])
    else KeepDigits(s[1..])
  }

  lemma {:induction false} KeepDigitsAppend(a: string, b: string)
    ensures KeepDigits(a + b) == KeepDigits(a) + KeepDigits(b)
  {
    if a == [] {
      assert a + b == b;
    } else {
      assert (a + b)[0] == a[0];
      assert (a + b)[1..] == a[1..] + b;
      KeepDigitsAppend(a[1..], b);
      if IsDigit(a[0]) {
        assert [a[0]] + (KeepDigits(a[1..]) + KeepDigits(b)) == ([a[0]] + KeepDigits(a[1..])) + KeepDigits(b);
      }
    }
  }

  // ---------------------------------------------------------------------------
  // The `%b-%Y` date format
  // ---------------------------------------------------------------------------

  /** ASCII lower-casing, as Python's IGNORECASE matching applies it to month names. */
  function Lower(ch: char): char {
    if 'A' <= ch <= 'Z' then ((ch as int) + 32) as char else ch
  }

  function LowerText(s: string): (r: string)
    ensures |r| == |s| && forall i :: 0 <= i < |s| ==> r[i] == Lower(s[i])
  {
    if s == [] then [] else [Lower(s[0])] + LowerText(s[1..])
  }

  /** The month abbreviations `%b` matches, January first (the C locale). */
  const MonthAbbreviations: seq<string> :=
    ["Jan", "Feb", "Mar", "Apr", "May", "Jun", "Jul", "Aug", "Sep", "Oct", "Nov", "Dec"]

  /**
   * The number (1 to 12) of a three-letter month abbreviation, in any letter case: the
   * lowered text is looked up among the lowered abbreviations.
   */
  function MonthNumber(t: string): (r: Option<int>)
    ensures r.Some? ==> 1 <= r.value <= 12
    ensures r.Some? ==> LowerText(t) == LowerText(MonthAbbreviations[r.value - 1])
    ensures r.None? ==> forall m {:trigger MonthAbbreviations[m - 1]} :: 1 <= m <= 12 ==> LowerText(t) != LowerText(MonthAbbreviations[m - 1])
  {
    FindMonth(LowerText(t), 1)
  }

  /** The first month from `m` on whose lowered abbreviation is `l`. */
  function FindMonth(l: string, m: int): (r: Option<int>)
    requires 1 <= m <= 13
    decreases 13 - m
    ensures r.Some? ==> m <= r.value <= 12 && l == LowerText(MonthAbbreviations[r.value - 1])
    ensures r.None? ==> forall k {:trigger MonthAbbreviations[k - 1]} :: m <= k <= 12 ==> l != LowerText(MonthAbbreviations[k - 1])
  {
    if m == 13 then None
    else if l == LowerText(MonthAbbreviations[m - 1]) then Some(m)
    else FindMonth(l, m + 1)
  }

  /**
   * Parse `<month abbreviation>-<4-digit year>` as `pd.to_datetime(..., format='%b-%Y')`
   * does: the whole text must match, and year 0 is rejected as Python's `datetime` rejects it.
   * The result is (year, month).
   */
  function ParseMonthYear(s: string): (r: Option<(int, int)>)
    ensures r.Some? ==> |s| == 8 && s[3] == '-' && AllDigits(s[4..])
    ensures r.Some? ==> 1 <= r.value.0 <= 9999 && 1 <= r.value.1 <= 12
    ensures r.Some? <==> |s| == 8 && s[3] == '-' && AllDigits(s[4..]) && MonthNumber(s[..3]).Some? && DigitsValue(s[4..]) >= 1
    ensures r.Some? ==> r.value == (DigitsValue(s[4..]) as int, MonthNumber(s[..3]).value)
  {
    if |s| == 8 && s[3] == '-' && AllDigits(s[4..]) then
      match MonthNumber(s[..3])
      case None => None
      case Some(m) =>
        var y := DigitsValue(s[4..]);
        DigitsValueBound(s[4..]);
        if y >= 1 then Some((y, m)) else None
    else
      None
  }

  /** The four digits of a year, zero-padded, as `%Y` prints them. */
  function YearText(year: int): (s: string)
    requires 0 <= year <= 9999
    ensures |s| == 4 && AllDigits(s)
  {
    [DigitChar(year / 1000), DigitChar(year / 100 % 10), DigitChar(year / 10 % 10), DigitChar(year % 10)]
  }

  /** `date.strftime('%b-%Y')` for the years `datetime` supports. */
  function MonthYearText(year: int, month: int): (s: string)
    requires 1 <= year <= 9999 && 1 <= month <= 12
    ensures |s| == 8
  {
    MonthAbbreviations[month - 1] + "-" + YearText(year)
  }

  /** The value of four digits, most significant first. */
  lemma DigitsValueFour(s: string)
    requires |s| == 4 && AllDigits(s)
    ensures DigitsValue(s) == ((DigitValue(s[0]) * 10 + DigitValue(s[1])) * 10 + DigitValue(s[2])) * 10 + DigitValue(s[3])
  {
    assert s[..1][..0] == [];
    assert DigitsValue(s[..1]) == DigitValue(s[0]);
    assert s[..2][..1] == s[..1];
    assert DigitsValue(s[..2]) == DigitsValue(s[..1]) * 10 + DigitValue(s[1]);
    assert s[..3][..2] == s[..2];
    assert DigitsValue(s[..3]) == DigitsValue(s[..2]) * 10 + DigitValue(s[2]);
    assert s[..4] == s && s[..3] == s[..|s| - 1];
  }

  /** A year in 0..9999 is put together from its four decimal digits. */
  lemma YearDigits(year: int)
    requires 0 <= year <= 9999
    ensures year == ((year / 1000 * 10 + year / 100 % 10) * 10 + year / 10 % 10) * 10 + year % 10
  {
    assert year / 100 == year / 1000 * 10 + year / 100 % 10;
    assert year / 10 == year / 100 * 10 + year / 10 % 10;
  }

  lemma YearTextValue(year: int)
    requires 0 <= year <= 9999
    ensures DigitsValue(YearText(year)) == year
  {
    DigitsValueFour(YearText(year));
    YearDigits(year);
  }

  /** The abbreviations lowered, as `%b` compares them. */
  const MonthKeys: seq<string> :=
    ["jan", "feb", "mar", "apr", "may", "jun", "jul", "aug", "sep", "oct", "nov", "dec"]

  lemma LowerAbbreviation(month: int)
    requires 1 <= month <= 12
    ensures LowerText(MonthAbbreviations[month - 1]) == MonthKeys[month - 1]
  {
    var t := MonthAbbreviations[month - 1];
    assert |t| == 3;
    assert LowerText(t) == [Lower(t[0]), Lower(t[1]), Lower(t[2])];
  }

  /** No two months share a lowered abbreviation. */
  lemma MonthKeysDistinct(j: int, k: int)
    requires 1 <= j <= 12 && 1 <= k <= 12 && j != k
    ensures MonthKeys[j - 1] != MonthKeys[k - 1]
  {
    var a, b := MonthKeys[j - 1], MonthKeys[k - 1];
    assert a[0] != b[0] || a[1] != b[1] || a[2] != b[2];
  }

  lemma {:induction false} FindMonthFrom(month: int, m: int)
    requires 1 <= m <= month <= 12
    decreases month - m
    ensures FindMonth(MonthKeys[month - 1], m) == Some(month)
  {
    LowerAbbreviation(m);
    if m < month {
      MonthKeysDistinct(m, month);
      FindMonthFrom(month, m + 1);
    }
  }

  lemma MonthNumberOfAbbreviation(month: int)
    requires 1 <= month <= 12
    ensures MonthNumber(MonthAbbreviations[month - 1]) == Some(month)
  {
    LowerAbbreviation(month);
    FindMonthFrom(month, 1);
  }

  /** Reading back what `%b-%Y` printed gives the year and month. */
  lemma ParseMonthYearText(year: int, month: int)
    requires 1 <= year <= 9999 && 1 <= month <= 12
    ensures ParseMonthYear(MonthYearText(year, month)) == Some((year, month))
  {
    var s := MonthYearText(year, month);
    assert s[..3] == MonthAbbreviations[month - 1];
    MonthNumberOfAbbreviation(month);
    assert s[4..] == YearText(year);
    YearTextValue(year);
  }
}
