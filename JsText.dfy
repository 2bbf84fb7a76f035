/**
 * The JavaScript built-ins the core relies on, on strings as `seq<char>`:
 * the `\d`, `\w` and `\s` character classes of a regular expression without
 * the `u` flag, case-insensitive comparison of ASCII literals, substring search,
 * and the numeric conversions `parseInt` and `parseFloat`.
 */
module JsText {
  import opened Wrappers

  predicate IsDigit(c: char) { '0' <= c <= '9' }

  predicate IsAsciiLetter(c: char) { 'a' <= c <= 'z' || 'A' <= c <= 'Z' }

  /** `\w` */
  predicate IsWordChar(c: char) { IsAsciiLetter(c) || IsDigit(c) || c == '_' }

  predicate IsLineTerminator(c: char) {
    c == '\n' || c == '\r' || c == '\U{2028}' || c == '\U{2029}'
  }

  /** `\s`: the WhiteSpace and LineTerminator code points of ECMA-262. */
  predicate IsSpace(c: char) {
    c == '\t' || c == '\U{B}' || c == '\U{C}' || c == ' ' || c == '\U{A0}' || c == '\U{FEFF}'
    || c == '\U{1680}' || ('\U{2000}' <= c <= '\U{200A}') || c == '\U{202F}' || c == '\U{205F}'
    || c == '\U{3000}' || IsLineTerminator(c)
  }

  /** Lower-casing as the `i` flag canonicalises ASCII letters; everything else is left alone. */
  function LowerAscii(c: char): char {
    if 'A' <= c <= 'Z' then (c as int + 32) as char else c
  }

  predicate AllDigits(s: string) { forall k :: 0 <= k < |s| ==> IsDigit(s[k]) }

  predicate AllWordChars(s: string) { forall k :: 0 <= k < |s| ==> IsWordChar(s[k]) }

  /** `pat` occurs in `s` at index `i`. */
  predicate OccursAt(s: string, pat: string, i: int) {
    0 <= i && i + |pat| <= |s| && s[i..i + |pat|] == pat
  }

  /** `pat` occurs in `s` at index `i`, ASCII letters compared without case. */
  predicate OccursAtIgnoreCase(s: string, pat: string, i: int) {
    0 <= i && i + |pat| <= |s|
    && forall k :: 0 <= k < |pat| ==> LowerAscii(s[i + k]) == LowerAscii(pat[k])
  }

  /** `s.indexOf(pat, from)`, absent for -1. */
  function IndexOf(s: string, pat: string, from: nat): (r: Option<nat>)
    ensures r.Some? ==> from <= r.value && OccursAt(s, pat, r.value)
    ensures r.Some? ==> forall j :: from <= j < r.value ==> !OccursAt(s, pat, j)
    ensures r.None? ==> forall j :: from <= j ==> !OccursAt(s, pat, j)
    decreases |s| - from
  {
    if from + |pat| > |s| then None
    else if s[from..from + |pat|] == pat then Some(from)
    else IndexOf(s, pat, from + 1)
  }

  /** `s.match(/pat/)` is non-null for a literal pattern. */
  predicate Contains(s: string, pat: string) { IndexOf(s, pat, 0).Some? }

  /** `s.match(/pat/i)` is non-null for a literal pattern. */
  predicate ContainsIgnoreCase(s: string, pat: string) {
    exists i :: 0 <= i <= |s| - |pat| && OccursAtIgnoreCase(s, pat, i)
  }

  /** End of the run of `\s` characters that starts at `i`. */
  function SkipSpaces(s: string, i: nat): (j: nat)
    requires i <= |s|
    ensures i <= j <= |s|
    ensures forall k :: i <= k < j ==> IsSpace(s[k])
    ensures j < |s| ==> !IsSpace(s[j])
    decreases |s| - i
  {
    if i < |s| && IsSpace(s[i]) then SkipSpaces(s, i + 1) else i
  }

  /** End of the run of decimal digits that starts at `i`. */
  function DigitEnd(s: string, i: nat): (j: nat)
    requires i <= |s|
    ensures i <= j <= |s|
    ensures forall k :: i <= k < j ==> IsDigit(s[k])
    ensures j < |s| ==> !IsDigit(s[j])
    decreases |s| - i
  {
    if i < |s| && IsDigit(s[i]) then DigitEnd(s, i + 1) else i
  }

  predicate IsHexDigit(c: char) { IsDigit(c) || 'a' <= c <= 'f' || 'A' <= c <= 'F' }

  /** End of the run of hexadecimal digits that starts at `i`. */
  function HexEnd(s: string, i: nat): (j: nat)
    requires i <= |s|
    ensures i <= j <= |s|
    ensures forall k :: i <= k < j ==> IsHexDigit(s[k])
    decreases |s| - i
  {
    if i < |s| && IsHexDigit(s[i]) then HexEnd(s, i + 1) else i
  }

  function DigitValue(c: char): nat
    requires IsHexDigit(c)
  {
    if IsDigit(c) then c as int - '0' as int
    else if 'a' <= c <= 'f' then c as int - 'a' as int + 10
    else c as int - 'A' as int + 10
  }

  /** The value of a digit string in base `radix`, most significant digit first. */
  function DigitsValue(s: string, radix: nat): nat
    requires forall k :: 0 <= k < |s| ==> IsHexDigit(s[k])
  {
    if s == [] then 0 else DigitsValue(s[..|s| - 1], radix) * radix + DigitValue(s[|s| - 1])
  }

  function Pow(b: nat, e: nat): (r: nat)
    ensures b > 0 ==> r > 0
  {
    if e == 0 then 1 else b * Pow(b, e - 1)
  }

  function Signed(negative: bool, v: real): real { if negative then -v else v }

  /** Index just after an optional `+` or `-` at `i`. */
  function AfterSign(s: string, i: nat): nat
    requires i <= |s|
  {
    if i < |s| && (s[i] == '+' || s[i] == '-') then i + 1 else i
  }

  /**
   * `parseInt(s)` with no radix: leading white space, an optional sign, an optional
   * `0x` prefix selecting base 16, then the longest run of digits; NaN (absent)
   * when that run is empty.
   */
  function ParseInt(s: string): Option<int>
  {
    var i := SkipSpaces(s, 0);
    var negative := i < |s| && s[i] == '-';
    var j := AfterSign(s, i);
    if j + 1 < |s| && s[j] == '0' && (s[j + 1] == 'x' || s[j + 1] == 'X') then
      var k := HexEnd(s, j + 2);
      if k == j + 2 then None else Some(Signed(negative, DigitsValue(s[j + 2..k], 16) as real).Floor)
    else
      var k := DigitEnd(s, j);
      if k == j then None else Some(Signed(negative, DigitsValue(s[j..k], 10) as real).Floor)
  }

  /** `parseInt` applied to a value that may be `undefined` (which it reads as the text "undefined"). */
  function ParseIntOf(v: Option<string>): Option<int> {
    match v
    case None => None
    case Some(s) => ParseInt(s)
  }

  /** The value of the fraction digits `d` after a decimal point. */
  function Fraction(d: string): real
    requires AllDigits(d)
  {
    DigitsValue(d, 10) as real / Pow(10, |d|) as real
  }

  function Scale(e: int): real {
    if e >= 0 then Pow(10, e) as real else 1.0 / Pow(10, -e) as real
  }

  /** The exponent part that starts at `l` (`e`, optional sign, digits), or 0 when there is none. */
  function Exponent(s: string, l: nat): int
    requires l <= |s|
  {
    if l < |s| && (s[l] == 'e' || s[l] == 'E') then
      var m := AfterSign(s, l + 1);
      var n := DigitEnd(s, m);
      if n == m then 0
      else if s[l + 1] == '-' then -(DigitsValue(s[m..n], 10) as int)
      else DigitsValue(s[m..n], 10)
    else 0
  }

  /** The value of the digits `s[j..k]` and, after a point at `k`, the fraction digits `s[k + 1..l]`. */
  function Mantissa(s: string, j: nat, k: nat, l: nat): real
    requires j <= k <= l <= |s|
    requires forall m :: j <= m < k ==> IsDigit(s[m])
    requires l > k ==> forall m :: k < m < l ==> IsDigit(s[m])
  {
    DigitsValue(s[j..k], 10) as real + (if l > k then Fraction(s[k + 1..l]) else 0.0)
  }

  /**
   * The unsigned decimal literal at `j`: digits, an optional point with digits, an optional
   * exponent; absent when there are no digits before or after the point.
   */
  function UnsignedDecimal(s: string, j: nat): Option<real>
    requires j <= |s|
  {
    var k := DigitEnd(s, j);
    var hasPoint := k < |s| && s[k] == '.';
    var l := if hasPoint then DigitEnd(s, k + 1) else k;
    if k == j && l <= k + 1 then None
    else Some(Mantissa(s, j, k, l) * Scale(Exponent(s, l)))
  }

  /**
   * `parseFloat(s)`: leading white space, an optional sign, then the longest prefix that
   * is a decimal literal; NaN (absent) when there is none.
   */
  function ParseFloat(s: string): Option<real>
  {
    var i := SkipSpaces(s, 0);
    match UnsignedDecimal(s, AfterSign(s, i))
    case None => None
    case Some(v) => Some(Signed(i < |s| && s[i] == '-', v))
  }

  /** `parseFloat` applied to a value that may be `undefined`. */
  function ParseFloatOf(v: Option<string>): Option<real> {
    match v
    case None => None
    case Some(s) => ParseFloat(s)
  }

  /** A non-empty string of decimal digits reads back as its value under `parseInt`. */
  lemma ParseIntDigits(s: string)
    requires |s| > 0 && AllDigits(s)
    ensures ParseInt(s) == Some(DigitsValue(s, 10))
  {
    assert SkipSpaces(s, 0) == 0;
    assert AfterSign(s, 0) == 0;
    assert DigitEnd(s, 0) == |s| by { DigitEndAt(s, 0, |s|); }
    assert s[0..|s|] == s;
  }

  /** `digits.fraction` reads back as its value under `parseFloat`. */
  lemma ParseFloatDecimal(s: string, k: nat)
    requires 0 < k < |s| - 1 && s[k] == '.'
    requires AllDigits(s[..k]) && AllDigits(s[k + 1..])
    ensures ParseFloat(s) == Some(DigitsValue(s[..k], 10) as real + Fraction(s[k + 1..]))
  {
    DecimalShape(s, k);
    assert s[k + 1..|s|] == s[k + 1..];
    ParseFloatPointed(s, k, |s|);
  }

  /** Where the two digit runs of `digits.fraction` end. */
  lemma DecimalShape(s: string, k: nat)
    requires 0 < k < |s| - 1 && s[k] == '.'
    requires AllDigits(s[..k]) && AllDigits(s[k + 1..])
    ensures IsDigit(s[0]) && DigitEnd(s, 0) == k && DigitEnd(s, k + 1) == |s|
  {
    assert forall m :: 0 <= m < k ==> s[m] == s[..k][m];
    assert forall m :: k < m < |s| ==> s[m] == s[k + 1..][m - k - 1];
    DigitEndAt(s, 0, k);
    DigitEndAt(s, k + 1, |s|);
  }

  /** `parseFloat` of text that starts with a digit: the sign and white space steps do nothing. */
  lemma ParseFloatUnsigned(s: string)
    requires |s| > 0 && IsDigit(s[0])
    ensures ParseFloat(s) == UnsignedDecimal(s, 0)
  {
    assert SkipSpaces(s, 0) == 0;
    assert AfterSign(s, 0) == 0;
  }

  /** A decimal literal with no exponent denotes its mantissa. */
  lemma UnsignedDecimalNoExponent(s: string, k: nat, l: nat)
    requires 0 < k <= l <= |s| && DigitEnd(s, 0) == k
    requires l == (if k < |s| && s[k] == '.' then DigitEnd(s, k + 1) else k)
    requires l < |s| ==> s[l] != 'e' && s[l] != 'E'
    ensures UnsignedDecimal(s, 0) == Some(Mantissa(s, 0, k, l))
  {
    assert Exponent(s, l) == 0;
    assert Scale(0) == 1.0;
  }

  /** `parseFloat` of digits, a point and digits, followed by a character that ends the literal. */
  lemma ParseFloatPointed(s: string, k: nat, l: nat)
    requires 0 < k < l <= |s| && s[k] == '.'
    requires IsDigit(s[0]) && DigitEnd(s, 0) == k && DigitEnd(s, k + 1) == l
    requires l < |s| ==> s[l] != 'e' && s[l] != 'E'
    ensures AllDigits(s[k + 1..l])
    ensures ParseFloat(s) == Some(DigitsValue(s[..k], 10) as real + Fraction(s[k + 1..l]))
  {
    ParseFloatUnsigned(s);
    UnsignedDecimalNoExponent(s, k, l);
    assert s[0..k] == s[..k];
  }

  /** `parseFloat` of digits followed by a character that ends the literal. */
  lemma ParseFloatWhole(s: string, k: nat)
    requires 0 < k <= |s| && IsDigit(s[0]) && DigitEnd(s, 0) == k
    requires k < |s| ==> s[k] != '.' && s[k] != 'e' && s[k] != 'E'
    ensures AllDigits(s[..k])
    ensures ParseFloat(s) == Some(DigitsValue(s[..k], 10) as real)
  {
    ParseFloatUnsigned(s);
    UnsignedDecimalNoExponent(s, k, k);
    assert s[0..k] == s[..k];
  }

  /** `DigitEnd` stops exactly at the first non-digit. */
  lemma {:induction false} DigitEndAt(s: string, i: nat, n: nat)
    requires i <= n <= |s|
    requires forall k :: i <= k < n ==> IsDigit(s[k])
    requires n < |s| ==> !IsDigit(s[n])
    ensures DigitEnd(s, i) == n
    decreases n - i
  {
    if i < n { DigitEndAt(s, i + 1, n); }
  }
}
