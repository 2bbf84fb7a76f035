/**
 * The two value parsers of the ffmpeg diagnostic handler (downloader.js:101-117):
 * `parseSize` with its unit helper `getK`, and `parseTime` for `HH:MM:SS.ff` timestamps.
 */
module SizeTime {
  import opened Wrappers
  import opened JsText

  /**
   * What `getK` can be handed: a string, the array that `String.prototype.match`
   * returns, or `null`. Strict equality holds only between two strings.
   */
  datatype UnitArg = Text(s: string) | MatchArray(items: seq<string>) | Null

  /** The `units` table of `getK`: byte, kilo, mega, giga, tera, peta. */
  const UnitLetters: string := "bkmgtp"

  function UpperAscii(c: char): char {
    if 'a' <= c <= 'z' then (c as int - 32) as char else c
  }

  /** `getK`'s loop from index `i`: the first table letter equal to `unit` decides the scale. */
  function GetKFrom(unit: UnitArg, i: nat): nat
    decreases |UnitLetters| - i
  {
    if i >= |UnitLetters| then 1
    else if unit == Text([LowerAscii(UnitLetters[i])]) then Pow(1000, i)
    else if unit == Text([UpperAscii(UnitLetters[i])]) then Pow(1024, i)
    else GetKFrom(unit, i + 1)
  }

  function GetK(unit: UnitArg): nat { GetKFrom(unit, 0) }

  /** A one-letter string from the table selects a decimal (lower case) or binary (upper case) scale. */
  lemma GetKOfLetter(i: nat)
    requires i < |UnitLetters|
    ensures GetK(Text([UnitLetters[i]])) == Pow(1000, i)
    ensures GetK(Text([UpperAscii(UnitLetters[i])])) == Pow(1024, i)
  {
    GetKFinds(i, 0);
  }

  lemma {:induction false} GetKFinds(i: nat, j: nat)
    requires j <= i < |UnitLetters|
    ensures GetKFrom(Text([UnitLetters[i]]), j) == Pow(1000, i)
    ensures GetKFrom(Text([UpperAscii(UnitLetters[i])]), j) == Pow(1024, i)
    decreases i - j
  {
    if j < i { GetKFinds(i, j + 1); }
  }

  /** Anything that is not a one-letter string from the table, in either case, gets the scale 1. */
  lemma {:induction false} GetKOther(unit: UnitArg, j: nat)
    requires forall i :: 0 <= i < |UnitLetters| ==>
      unit != Text([UnitLetters[i]]) && unit != Text([UpperAscii(UnitLetters[i])])
    ensures GetKFrom(unit, j) == 1
    decreases |UnitLetters| - j
  {
    if j < |UnitLetters| { GetKOther(unit, j + 1); }
  }

  /** `getK` given a match array or `null`, as `parseSize` calls it, is always 1. */
  lemma GetKOfNonString(unit: UnitArg)
    requires !unit.Text?
    ensures GetK(unit) == 1
  {
    GetKOther(unit, 0);
  }

  /** `str.match(/[a-z]/i)`: the first ASCII letter from `from` on. */
  function FirstLetter(s: string, from: nat): (r: Option<nat>)
    ensures r.Some? ==> from <= r.value < |s| && IsAsciiLetter(s[r.value])
    decreases |s| - from
  {
    if from >= |s| then None
    else if IsAsciiLetter(s[from]) then Some(from)
    else FirstLetter(s, from + 1)
  }

  /** The value `parseSize` passes to `getK`: the match array, or `null`. */
  function UnitOf(str: string): UnitArg {
    match FirstLetter(str, 0)
    case None => Null
    case Some(i) => MatchArray([[str[i]]])
  }

  /** The divisor for `bit` units (`str.match(/bit/i)`). */
  function BitDivisor(str: string): real {
    if ContainsIgnoreCase(str, "bit") then 8.0 else 1.0
  }

  /** `parseSize(str)`: `parseFloat(str) * getK(unit) / (isBit ? 8 : 1)`; NaN (absent) stays NaN. */
  function ParseSize(str: string): Option<real> {
    match ParseFloat(str)
    case None => None
    case Some(v) => Some(v * GetK(UnitOf(str)) as real / BitDivisor(str))
  }

  /** As written, the unit letter never scales a sized value: only `bit` divides by 8. */
  lemma ParseSizeIgnoresUnit(str: string)
    ensures ParseSize(str).Some? <==> ParseFloat(str).Some?
    ensures ParseSize(str).Some? ==> ParseSize(str).value == ParseFloat(str).value / BitDivisor(str)
  {
    GetKOfNonString(UnitOf(str));
  }

  /** The regular expression `(\d{2}):(\d{2}):(\d{2}\.\d{1,2})` matches at index `i`. */
  predicate IsTimestampAt(s: string, i: int) {
    0 <= i && i + 10 <= |s|
    && IsDigit(s[i]) && IsDigit(s[i + 1]) && s[i + 2] == ':'
    && IsDigit(s[i + 3]) && IsDigit(s[i + 4]) && s[i + 5] == ':'
    && IsDigit(s[i + 6]) && IsDigit(s[i + 7]) && s[i + 8] == '.' && IsDigit(s[i + 9])
  }

  /** Length of the match at `i`: `\d{1,2}` is greedy. */
  function TimestampLength(s: string, i: nat): (n: nat)
    requires IsTimestampAt(s, i)
    ensures n == 10 || n == 11
    ensures i + n <= |s|
  {
    if i + 10 < |s| && IsDigit(s[i + 10]) then 11 else 10
  }

  /** The leftmost timestamp at or after `from`. */
  function FirstTimestamp(s: string, from: nat): (r: Option<nat>)
    ensures r.Some? ==> from <= r.value && IsTimestampAt(s, r.value)
    ensures r.Some? ==> forall j :: from <= j < r.value ==> !IsTimestampAt(s, j)
    ensures r.None? ==> forall j :: from <= j ==> !IsTimestampAt(s, j)
    decreases |s| - from
  {
    if from + 10 > |s| then None
    else if IsTimestampAt(s, from) then Some(from)
    else FirstTimestamp(s, from + 1)
  }

  /** The seconds a timestamp at `i` denotes: hours, minutes, seconds and the 1- or 2-digit fraction. */
  function TimestampValue(s: string, i: nat): real
    requires IsTimestampAt(s, i)
  {
    var n := TimestampLength(s, i);
    (DigitsValue(s[i..i + 2], 10) * 3600 + DigitsValue(s[i + 3..i + 5], 10) * 60
      + DigitsValue(s[i + 6..i + 8], 10)) as real + Fraction(s[i + 9..i + n])
  }

  /**
   * `parseTime(str)`: `(parseInt(h) * 60 + parseInt(m)) * 60 + parseFloat(s.ff)` over the
   * first timestamp match; absent when there is none (the source then throws on `null[1]`).
   */
  function ParseTime(str: string): (r: Option<real>)
    ensures r.Some? <==> FirstTimestamp(str, 0).Some?
    ensures r.Some? ==> r.value == TimestampValue(str, FirstTimestamp(str, 0).value)
  {
    match FirstTimestamp(str, 0)
    case None => None
    case Some(i) =>
      var n := TimestampLength(str, i);
      var hours, minutes, seconds := str[i..i + 2], str[i + 3..i + 5], str[i + 6..i + n];
      TimestampHoursMinutes(str, i);
      TimestampSeconds(str, i, n);
      Some(((ParseInt(hours).value * 60 + ParseInt(minutes).value) * 60) as real + ParseFloat(seconds).value)
  }

  /** The hour and minute fields of a timestamp read back under `parseInt`. */
  lemma TimestampHoursMinutes(s: string, i: nat)
    requires IsTimestampAt(s, i)
    ensures ParseInt(s[i..i + 2]) == Some(DigitsValue(s[i..i + 2], 10))
    ensures ParseInt(s[i + 3..i + 5]) == Some(DigitsValue(s[i + 3..i + 5], 10))
  {
    var h, m := s[i..i + 2], s[i + 3..i + 5];
    assert h[0] == s[i] && h[1] == s[i + 1];
    assert m[0] == s[i + 3] && m[1] == s[i + 4];
    ParseIntDigits(h);
    ParseIntDigits(m);
  }

  /** The seconds field of a timestamp reads back under `parseFloat`. */
  lemma TimestampSeconds(s: string, i: nat, n: nat)
    requires IsTimestampAt(s, i) && n == TimestampLength(s, i)
    ensures ParseFloat(s[i + 6..i + n]) == Some(DigitsValue(s[i + 6..i + 8], 10) as real + Fraction(s[i + 9..i + n]))
  {
    var seconds := s[i + 6..i + n];
    assert seconds[..2] == s[i + 6..i + 8];
    assert seconds[3..] == s[i + 9..i + n];
    ParseFloatDecimal(seconds, 2);
  }

  /** `parseTime(undefined)` throws: absent in, absent out. */
  function ParseTimeOf(v: Option<string>): Option<real> {
    match v
    case None => None
    case Some(s) => ParseTime(s)
  }

  /** `parseSize(undefined)` throws: absent in, absent out. */
  function ParseSizeOf(v: Option<string>): Option<real> {
    match v
    case None => None
    case Some(s) => ParseSize(s)
  }

  /** Re-parsing the matched timestamp text alone (`strDuration.toString()`) gives the same value. */
  lemma ParseTimeOfMatch(s: string, i: nat)
    requires IsTimestampAt(s, i)
    ensures ParseTime(s[i..i + TimestampLength(s, i)]) == Some(TimestampValue(s, i))
  {
    var t := s[i..i + TimestampLength(s, i)];
    TimestampShift(s, i, t);
    assert FirstTimestamp(t, 0) == Some(0);
  }

  /** The matched text, cut out, is itself a timestamp of the same length and value. */
  lemma TimestampShift(s: string, i: nat, t: string)
    requires IsTimestampAt(s, i) && t == s[i..i + TimestampLength(s, i)]
    ensures IsTimestampAt(t, 0) && TimestampLength(t, 0) == |t| == TimestampLength(s, i)
    ensures TimestampValue(t, 0) == TimestampValue(s, i)
  {
    var n := TimestampLength(s, i);
    assert forall k :: 0 <= k < n ==> t[k] == s[i + k];
    assert t[0..2] == s[i..i + 2];
    assert t[3..5] == s[i + 3..i + 5];
    assert t[6..8] == s[i + 6..i + 8];
    assert t[9..n] == s[i + 9..i + n];
  }

  lemma TwoDigits(d: string)
    requires |d| == 2 && AllDigits(d)
    ensures DigitsValue(d, 10) == DigitValue(d[0]) * 10 + DigitValue(d[1])
  {
    var d1 := d[..1];
    assert d1[..0] == [];
    assert DigitsValue(d1, 10) == DigitValue(d[0]);
    assert d[..|d| - 1] == d1;
  }

  /** One hour, two minutes and 3.5 seconds. */
  lemma ParseTimeExample(s: string)
    requires s == "01:02:03.50"
    ensures ParseTime(s) == Some(3723.5)
  {
    assert IsTimestampAt(s, 0);
    assert FirstTimestamp(s, 0) == Some(0);
    assert TimestampLength(s, 0) == 11;
    TwoDigits(s[0..2]);
    TwoDigits(s[3..5]);
    TwoDigits(s[6..8]);
    TwoDigits(s[9..11]);
    assert Pow(10, 2) == 100;
  }

  /** `size=100kB` reads as 100: the `k` is ignored. */
  lemma ParseSizeKiloBytes(a: string)
    requires a == "100kB"
    ensures ParseSize(a) == Some(100.0)
  {
    ParseSizeIgnoresUnit(a);
    ParseFloatOfKiloBytes(a);
    KiloBytesNoBit(a);
  }

  lemma ParseFloatOfKiloBytes(a: string)
    requires a == "100kB"
    ensures ParseFloat(a) == Some(100.0)
  {
    DigitEndAt(a, 0, 3);
    ParseFloatWhole(a, 3);
    assert a[..3] == "100";
    assert DigitsValue("100", 10) == 100 by { assert "100"[..2] == "10"; TwoDigits("10"); }
  }

  /** `100kB` does not mention `bit` in any case. */
  lemma KiloBytesNoBit(a: string)
    requires a == "100kB"
    ensures !ContainsIgnoreCase(a, "bit")
  {
    forall i | 0 <= i <= |a| - 3 ensures !OccursAtIgnoreCase(a, "bit", i) {
      assert LowerAscii("bit"[0]) == 'b' && LowerAscii("bit"[1]) == 'i';
      if i == 2 {
        assert LowerAscii(a[i + 1]) != LowerAscii("bit"[1]);
      } else {
        assert LowerAscii(a[i]) != LowerAscii("bit"[0]);
      }
    }
  }

  /** `bitrate=160.0kbits/s` reads as 20 bytes: the `bit` suffix divides by 8, the `k` is ignored. */
  lemma ParseSizeKiloBits(b: string)
    requires b == "160.0kbits/s"
    ensures ParseSize(b) == Some(20.0)
  {
    ParseSizeIgnoresUnit(b);
    ParseFloatOfKiloBits(b);
    assert OccursAtIgnoreCase(b, "bit", 6);
  }

  lemma ParseFloatOfKiloBits(b: string)
    requires b == "160.0kbits/s"
    ensures ParseFloat(b) == Some(160.0)
  {
    KiloBitsShape(b);
    ParseFloatPointed(b, 3, 5);
    KiloBitsValue(b);
  }

  /** Where the digit runs of `160.0kbits/s` end. */
  lemma KiloBitsShape(b: string)
    requires b == "160.0kbits/s"
    ensures IsDigit(b[0]) && b[3] == '.' && b[5] != 'e' && b[5] != 'E'
    ensures DigitEnd(b, 0) == 3 && DigitEnd(b, 4) == 5
  {
    DigitEndAt(b, 0, 3);
    DigitEndAt(b, 4, 5);
  }

  /** The digits of `160.0kbits/s` denote 160 and 0. */
  lemma KiloBitsValue(b: string)
    requires b == "160.0kbits/s"
    ensures DigitsValue(b[..3], 10) as real + Fraction(b[4..5]) == 160.0
  {
    assert b[..3] == "160";
    assert b[4..5] == "0";
    assert DigitsValue("160", 10) == 160 by { assert "160"[..2] == "16"; TwoDigits("16"); }
    assert Fraction("0") == 0.0;
  }
}
