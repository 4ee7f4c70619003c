/**
  JavaScript's `parseInt(s, 10)`: skip leading white space, read an optional
  sign, then the longest run of decimal digits. No digits at all gives NaN,
  here `None`. With radix 10 a `0x` prefix is not special, so "0x1A" is 0.
 */
module Decimal {
  import opened Wrappers

  predicate IsDigit(c: char) {
    '0' <= c <= '9'
  }

  predicate AllDigits(s: string) {
    forall i :: 0 <= i < |s| ==> IsDigit(s[i])
  }

  function DigitValue(c: char): (d: nat)
    requires IsDigit(c)
    ensures d < 10
  {
    (c as int) - ('0' as int)
  }

  function DigitChar(d: nat): (c: char)
    requires d < 10
    ensures IsDigit(c) && DigitValue(c) == d
  {
    (('0' as int) + d) as char
  }

  /** The value of a run of digits, most significant digit first. */
  function DigitsValue(s: string): nat
    requires AllDigits(s)
  {
    if |s| == 0 then 0 else 10 * DigitsValue(s[..|s| - 1]) + DigitValue(s[|s| - 1])
  }

  /** The canonical decimal spelling of `n`: no sign and no leading zero. */
  function ToDecimal(n: nat): (s: string)
    ensures |s| > 0 && AllDigits(s)
    ensures |s| > 1 ==> s[0] != '0'
  {
    if n < 10 then [DigitChar(n)] else ToDecimal(n / 10) + [DigitChar(n % 10)]
  }

  /** ECMAScript StrWhiteSpaceChar: WhiteSpace and LineTerminator. */
  predicate IsJsSpace(c: char) {
    || c == '\t' || c == '\n' || c == '\r' || c == ' '
    || c == '\U{000B}' || c == '\U{000C}' || c == '\U{00A0}' || c == '\U{1680}'
    || ('\U{2000}' <= c <= '\U{200A}')
    || c == '\U{2028}' || c == '\U{2029}' || c == '\U{202F}' || c == '\U{205F}'
    || c == '\U{3000}' || c == '\U{FEFF}'
  }

  /** `s` without its leading white space. */
  function TrimStart(s: string): (t: string)
    ensures |t| <= |s| && t == s[|s| - |t|..]
    ensures forall i :: 0 <= i < |s| - |t| ==> IsJsSpace(s[i])
    ensures |t| > 0 ==> !IsJsSpace(t[0])
  {
    if |s| > 0 && IsJsSpace(s[0]) then TrimStart(s[1..]) else s
  }

  /** The longest prefix of `s` made of decimal digits. */
  function DigitPrefix(s: string): (p: string)
    ensures |p| <= |s| && p == s[..|p|] && AllDigits(p)
    ensures |p| < |s| ==> !IsDigit(s[|p|])
  {
    if |s| > 0 && IsDigit(s[0]) then [s[0]] + DigitPrefix(s[1..]) else []
  }

  /** What follows an optional leading sign. */
  function Unsigned(t: string): (u: string)
    ensures u == t || (|t| > 0 && (t[0] == '-' || t[0] == '+') && u == t[1..])
  {
    if |t| > 0 && (t[0] == '-' || t[0] == '+') then t[1..] else t
  }

  /** `parseInt(s, 10)`; `None` is NaN. */
  function ParseInt(s: string): (r: Option<int>)
    ensures r.None? <==> |DigitPrefix(Unsigned(TrimStart(s)))| == 0
    ensures |s| == 0 ==> r.None?
  {
    ParseSigned(TrimStart(s))
  }

  /** The sign and digits that `parseInt` reads once white space is gone. */
  function ParseSigned(t: string): Option<int> {
    var digits := DigitPrefix(Unsigned(t));
    if |digits| == 0 then None
    else
      var magnitude: int := DigitsValue(digits);
      Some(if t[0] == '-' then -magnitude else magnitude)
  }

  lemma {:induction false} DigitsValueOfDecimal(n: nat)
    ensures DigitsValue(ToDecimal(n)) == n
  {
    if n >= 10 {
      var front := ToDecimal(n / 10);
      var s := front + [DigitChar(n % 10)];
      assert s[..|s| - 1] == front;
      DigitsValueOfDecimal(n / 10);
    }
  }

  lemma {:induction false} DigitPrefixStopsAtNonDigit(digits: string, rest: string)
    requires AllDigits(digits)
    requires |rest| == 0 || !IsDigit(rest[0])
    ensures DigitPrefix(digits + rest) == digits
  {
    if |digits| > 0 {
      assert (digits + rest)[1..] == digits[1..] + rest;
      DigitPrefixStopsAtNonDigit(digits[1..], rest);
    }
  }

  /** A string that starts with a digit is neither trimmed nor signed. */
  lemma DigitStartIsBare(s: string)
    requires |s| > 0 && IsDigit(s[0])
    ensures TrimStart(s) == s && Unsigned(s) == s
  {
    assert !IsJsSpace(s[0]);
  }

  /** A run of digits followed by anything but a digit parses to the run's
      value. */
  lemma ParseIntOfDigitRun(digits: string, rest: string)
    requires |digits| > 0 && AllDigits(digits)
    requires |rest| == 0 || !IsDigit(rest[0])
    ensures ParseInt(digits + rest) == Some(DigitsValue(digits))
  {
    var s := digits + rest;
    assert s[0] == digits[0];
    DigitStartIsBare(s);
    DigitPrefixStopsAtNonDigit(digits, rest);
  }

  /** A decimal numeral followed by anything that is not a digit ("12.5",
      "12px") parses to the numeral's value. */
  lemma ParseIntOfDecimalPrefix(n: nat, rest: string)
    requires |rest| == 0 || !IsDigit(rest[0])
    ensures ParseInt(ToDecimal(n) + rest) == Some(n)
  {
    ParseIntOfDigitRun(ToDecimal(n), rest);
    DigitsValueOfDecimal(n);
  }

  /** Round trip: base-10 parsing of the decimal spelling of `n` gives `n`. */
  lemma ParseIntOfDecimal(n: nat)
    ensures ParseInt(ToDecimal(n)) == Some(n)
  {
    ParseIntOfDecimalPrefix(n, []);
    assert ToDecimal(n) + [] == ToDecimal(n);
  }

  /** A string made only of digits parses to its value. */
  lemma ParseIntOfDigits(s: string)
    requires |s| > 0 && AllDigits(s)
    ensures ParseInt(s) == Some(DigitsValue(s))
  {
    ParseIntOfDigitRun(s, []);
    assert s + [] == s;
  }

  /** A minus sign negates the value. */
  lemma ParseIntOfNegativeDecimal(n: nat)
    ensures ParseInt("-" + ToDecimal(n)).Some?
    ensures ParseInt("-" + ToDecimal(n)).value == -(n as int)
  {
    var s := "-" + ToDecimal(n);
    assert TrimStart(s) == s;
    assert Unsigned(s) == ToDecimal(n);
    DigitPrefixStopsAtNonDigit(ToDecimal(n), []);
    assert ToDecimal(n) + [] == ToDecimal(n);
    DigitsValueOfDecimal(n);
  }

  /** Leading white space does not change the result. */
  lemma ParseIntSkipsSpace(c: char, s: string)
    requires IsJsSpace(c)
    ensures ParseInt([c] + s) == ParseInt(s)
  {
    var t := [c] + s;
    assert t[0] == c && t[1..] == s;
    assert TrimStart(t) == TrimStart(s);
  }

  /** A string that starts with a character other than white space, a sign
      or a digit is NaN: "true", "abc". */
  lemma ParseIntOfNonNumeric(s: string)
    requires |s| > 0 && !IsJsSpace(s[0]) && !IsDigit(s[0]) && s[0] != '-' && s[0] != '+'
    ensures ParseInt(s).None?
  {
    assert TrimStart(s) == s;
    assert Unsigned(s) == s;
  }

  /** A string with no digit anywhere is NaN. */
  lemma ParseIntWithoutDigits(s: string)
    requires forall i :: 0 <= i < |s| ==> !IsDigit(s[i])
    ensures ParseInt(s).None?
  {
    var u := Unsigned(TrimStart(s));
    if |u| > 0 {
      assert u[0] in s;
    }
  }
}
