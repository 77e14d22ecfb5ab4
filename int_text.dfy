/**
 * Decimal text for 32-bit signed integers: the `int.TryParse(string, out int)`
 * acceptance rule (`NumberStyles.Integer`, invariant digits) and the rendering
 * `int.ToString()` that it inverts.
 */
module Int32Text {
  import opened Wrappers
  import opened Text

  const MinInt32: int := -0x8000_0000
  const MaxInt32: int := 0x7FFF_FFFF

  predicate IsInt32(n: int)
  {
    MinInt32 <= n <= MaxInt32
  }

  /** The white space `NumberStyles.AllowLeadingWhite` and `AllowTrailingWhite` skip: U+0009 to U+000D and U+0020. */
  const NumberWhite: set<char> := {'\t', '\n', 11 as char, 12 as char, '\r', ' '}

  predicate IsDigit(c: char)
  {
    '0' <= c <= '9'
  }

  predicate AllDigits(s: string)
  {
    forall k :: 0 <= k < |s| ==> IsDigit(s[k])
  }

  function DigitValue(c: char): (v: nat)
    requires IsDigit(c)
    ensures v < 10
  {
    (c as int) - ('0' as int)
  }

  function DigitChar(v: nat): (c: char)
    requires v < 10
    ensures IsDigit(c) && DigitValue(c) == v
  {
    (('0' as int) + v) as char
  }

  /** The value of a string of decimal digits, most significant first. */
  function DigitsValue(s: string): nat
    requires AllDigits(s)
  {
    if s == [] then 0 else DigitsValue(s[..|s| - 1]) * 10 + DigitValue(s[|s| - 1])
  }

  /** The shortest decimal rendering of a natural number. */
  function NatToDecimal(n: nat): (r: string)
    ensures r != [] && AllDigits(r)
    ensures DigitsValue(r) == n
  {
    if n < 10 then [DigitChar(n)]
    else
      var r := NatToDecimal(n / 10) + [DigitChar(n % 10)];
      assert r[..|r| - 1] == NatToDecimal(n / 10);
      r
  }

  /** `n.ToString()` with the invariant culture's negative sign `-`. */
  function Render(n: int): string
  {
    if n < 0 then "-" + NatToDecimal(-n) else NatToDecimal(n)
  }

  /** The optional leading sign and the digits after it. */
  function SplitSign(t: string): (bool, string)
  {
    if t != [] && t[0] == '-' then (true, t[1..])
    else if t != [] && t[0] == '+' then (false, t[1..])
    else (false, t)
  }

  /** The NUL character, which `int.TryParse` accepts any number of at the very end of its text. */
  const Nul: char := 0 as char

  /** The part of the text the number is read from: trailing NULs dropped, then the white space around it. */
  function Significant(s: string): string
  {
    Trim(TrimEnd(s, {Nul}), NumberWhite)
  }

  /**
   * `int.TryParse(s, out v)`: white space around an optional sign and at
   * least one decimal digit, followed by nothing but NULs; `None` when the
   * text is malformed or the value does not fit 32 bits.
   */
  function ParseInt32(s: string): (r: Option<int>)
    ensures r.Some? ==> IsInt32(r.value)
  {
    ParseSignificant(Significant(s))
  }

  /** The number of a significant part: an optional sign and at least one digit, within the 32-bit range. */
  function ParseSignificant(t: string): (r: Option<int>)
    ensures r.Some? ==> IsInt32(r.value)
  {
    var (negative, digits) := SplitSign(t);
    if digits == [] || !AllDigits(digits) then None
    else
      var v: int := if negative then -(DigitsValue(digits) as int) else DigitsValue(digits);
      if IsInt32(v) then Some(v) else None
  }

  /** A character that can never be part of an accepted number: not a digit, a sign, white space or NUL. */
  predicate IsForeign(c: char)
  {
    !IsDigit(c) && c != '+' && c != '-' && c !in NumberWhite && c != Nul
  }

  /** Parsing the rendering of any 32-bit integer gives that integer back. */
  lemma ParseRender(n: int)
    requires IsInt32(n)
    ensures ParseInt32(Render(n)) == Some(n)
  {
    var text := Render(n);
    var digits := NatToDecimal(if n < 0 then -n else n);
    assert text[0] == '-' || IsDigit(text[0]);
    assert IsDigit(text[|text| - 1]);
    assert TrimEnd(text, {Nul}) == text;
    TrimUntouched(text, NumberWhite);
    if n < 0 {
      assert text[1..] == digits;
    }
    assert SplitSign(text) == (n < 0, digits);
  }

  /** NULs appended to a text that does not already end in one do not change what it parses to. */
  lemma ParseIgnoresTrailingNuls(s: string, n: nat)
    requires s != [] && s[|s| - 1] != Nul
    ensures ParseInt32(s + Repeat(Nul, n)) == ParseInt32(s)
  {
    TrimEndRepeat(s, {Nul}, Nul, n);
    TrimEndRepeat(s, {Nul}, Nul, 0);
    assert s + Repeat(Nul, 0) == s;
  }

  /**
   * Text whose significant part has a non-digit anywhere but in the sign
   * position, or a non-digit non-sign in that position, is refused.
   */
  lemma ParseRejectsNonDigit(s: string, k: nat)
    requires k < |Significant(s)| && !IsDigit(Significant(s)[k])
    requires k == 0 ==> Significant(s)[0] != '+' && Significant(s)[0] != '-'
    ensures ParseInt32(s) == None
  {
    var t := Significant(s);
    var digits := SplitSign(t).1;
    if t[0] == '-' || t[0] == '+' {
      assert digits == t[1..] && digits[k - 1] == t[k];
    } else {
      assert digits == t && digits[k] == t[k];
    }
  }

  /** Text with a foreign character anywhere, such as a letter or a dot, is refused. */
  lemma ParseRejectsForeign(s: string, k: nat)
    requires k < |s| && IsForeign(s[k])
    ensures ParseInt32(s) == None
  {
    TrimEndKeeps(s, {Nul}, k);
    TrimKeeps(TrimEnd(s, {Nul}), NumberWhite, k);
    var t := Significant(s);
    var j :| 0 <= j < |t| && t[j] == s[k];
    ParseRejectsNonDigit(s, j);
  }

  /** Text whose significant part is empty or a bare sign is refused. */
  lemma ParseRejectsNoDigits(s: string)
    requires Significant(s) == "" || Significant(s) == "+" || Significant(s) == "-"
    ensures ParseInt32(s) == None
  {
    var t := Significant(s);
    if t != "" {
      assert t[1..] == "";
    }
  }

  /** A text that starts with a sign or a digit and ends with a digit is all significant. */
  lemma SignificantUntouched(s: string)
    requires s != [] && IsDigit(s[|s| - 1])
    requires IsDigit(s[0]) || s[0] == '+' || s[0] == '-'
    ensures Significant(s) == s
  {
    assert TrimEnd(s, {Nul}) == s;
    TrimUntouched(s, NumberWhite);
  }

  /**
   * The significant part's number, once its sign and digits are known: an
   * unfolding of `ParseSignificant`, the step `ParseBare`, `ParsePlus` and
   * `ParseMinus` share.
   */
  lemma ParseSplit(t: string, negative: bool, d: string)
    requires SplitSign(t) == (negative, d) && d != [] && AllDigits(d)
    ensures var v: int := if negative then -(DigitsValue(d) as int) else DigitsValue(d);
            ParseSignificant(t) == if IsInt32(v) then Some(v) else None
  {
  }

  /** A digit string parses to its value when that value is a 32-bit integer, and is refused otherwise. */
  lemma ParseBare(d: string)
    requires d != [] && AllDigits(d)
    ensures ParseInt32(d) == if DigitsValue(d) <= MaxInt32 then Some(DigitsValue(d) as int) else None
  {
    SignificantUntouched(d);
    assert SplitSign(d) == (false, d) by {
      assert IsDigit(d[0]);
    }
    ParseSplit(d, false, d);
  }

  /** A digit string after `+` parses as the bare digit string does. */
  lemma ParsePlus(d: string)
    requires d != [] && AllDigits(d)
    ensures ParseInt32("+" + d) == if DigitsValue(d) <= MaxInt32 then Some(DigitsValue(d) as int) else None
  {
    var s := "+" + d;
    assert s[|s| - 1] == d[|d| - 1];
    SignificantUntouched(s);
    assert SplitSign(s) == (false, d) by {
      assert s[1..] == d;
    }
    ParseSplit(s, false, d);
  }

  /** A digit string after `-` parses to the negated value when that is a 32-bit integer, and is refused otherwise. */
  lemma ParseMinus(d: string)
    requires d != [] && AllDigits(d)
    ensures ParseInt32("-" + d) == if DigitsValue(d) <= -MinInt32 then Some(-(DigitsValue(d) as int)) else None
  {
    var s := "-" + d;
    assert s[|s| - 1] == d[|d| - 1];
    SignificantUntouched(s);
    assert SplitSign(s) == (true, d) by {
      assert s[1..] == d;
    }
    ParseSplit(s, true, d);
  }
}
