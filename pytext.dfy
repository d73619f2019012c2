/**
 * The text conversions that the cleaning code relies on: `str.strip`,
 * `str.lower`, and the parsers behind Python's `float(text)` and `int(text)`.
 * Characters are compared by code point; only the ASCII/Latin-1 part of
 * Python's Unicode tables is modelled.
 */
module PyText {
  import opened Common

  /** `str.isspace` on the Latin-1 range: \t \n \v \f \r, \x1c-\x1f, space, \x85, \xa0. */
  predicate IsSpace(c: char) {
    var n := c as int;
    (9 <= n <= 13) || (28 <= n <= 32) || n == 0x85 || n == 0xA0
  }

  /** `str.lstrip()`: drops the leading whitespace. */
  function TrimLeft(s: string): (r: string)
    ensures |r| <= |s|
  {
    if |s| > 0 && IsSpace(s[0]) then TrimLeft(s[1..]) else s
  }

  /** `str.rstrip()`: drops the trailing whitespace. */
  function TrimRight(s: string): (r: string)
    ensures |r| <= |s|
  {
    if |s| > 0 && IsSpace(s[|s| - 1]) then TrimRight(s[..|s| - 1]) else s
  }

  /** What `lstrip` keeps is a suffix that does not start with whitespace, and all it drops is whitespace. */
  lemma {:induction false} TrimLeftSpec(s: string)
    ensures var r := TrimLeft(s);
      r == s[|s| - |r|..] && (r == [] || !IsSpace(r[0])) &&
      forall i :: 0 <= i < |s| - |r| ==> IsSpace(s[i])
  {
    if |s| > 0 && IsSpace(s[0]) {
      TrimLeftSpec(s[1..]);
    }
  }

  /** What `rstrip` keeps is a prefix that does not end in whitespace, and all it drops is whitespace. */
  lemma {:induction false} TrimRightSpec(s: string)
    ensures var r := TrimRight(s);
      r == s[..|r|] && (r == [] || !IsSpace(r[|r| - 1])) &&
      forall i :: |r| <= i < |s| ==> IsSpace(s[i])
  {
    if |s| > 0 && IsSpace(s[|s| - 1]) {
      TrimRightSpec(s[..|s| - 1]);
    }
  }

  /** Text that neither starts nor ends with whitespace is left alone by both trims. */
  lemma Unpadded(s: string)
    requires s == [] || (!IsSpace(s[0]) && !IsSpace(s[|s| - 1]))
    ensures TrimLeft(s) == s && TrimRight(s) == s
  {
  }

  /** `str.strip()`: the text between the leading and the trailing whitespace. */
  function Strip(s: string): string
  {
    TrimRight(TrimLeft(s))
  }

  /** What `strip` keeps neither starts nor ends with whitespace, and every character of it comes from the original text. */
  lemma StripSpec(s: string)
    ensures var r := Strip(s);
      (r == [] || (!IsSpace(r[0]) && !IsSpace(r[|r| - 1]))) &&
      forall i :: 0 <= i < |r| ==> r[i] in s
  {
    var l := TrimLeft(s);
    TrimLeftSpec(s);
    TrimRightSpec(l);
    var r := TrimRight(l);
    var k := |s| - |l|;
    forall i | 0 <= i < |r| ensures r[i] in s {
      assert r[i] == l[i] == s[k + i];
    }
  }

  /** Stripping twice is stripping once. */
  lemma StripIdempotent(s: string)
    ensures Strip(Strip(s)) == Strip(s)
  {
    StripSpec(s);
    Unpadded(Strip(s));
  }

  function LowerChar(c: char): char {
    if 'A' <= c <= 'Z' then (c as int + 32) as char else c
  }

  /** `str.lower()` on ASCII letters. */
  function Lower(s: string): (r: string)
    ensures |r| == |s|
    ensures forall i :: 0 <= i < |s| ==> r[i] == LowerChar(s[i])
  {
    seq(|s|, i requires 0 <= i < |s| => LowerChar(s[i]))
  }

  predicate IsDigit(c: char) {
    '0' <= c <= '9'
  }

  /**
   * `str.isdigit` on one character, on the Latin-1 range: the ASCII digits
   * and the superscripts one, two and three, which Python counts as digits
   * although `float` does not accept them.
   */
  predicate IsDigitLike(c: char) {
    IsDigit(c) || c == '\U{B9}' || c == '\U{B2}' || c == '\U{B3}'
  }

  predicate AllDigits(s: string) {
    forall i :: 0 <= i < |s| ==> IsDigit(s[i])
  }

  function DigitValue(c: char): nat
    requires IsDigit(c)
  {
    c as int - '0' as int
  }

  /** The number a string of decimal digits denotes (0 for the empty string). */
  function DigitsValue(s: string): nat
    requires AllDigits(s)
  {
    if |s| == 0 then 0 else DigitsValue(s[..|s| - 1]) * 10 + DigitValue(s[|s| - 1])
  }

  function Pow10(n: nat): (r: nat)
    ensures r >= 1
  {
    if n == 0 then 1 else 10 * Pow10(n - 1)
  }

  /** The first index of `s` holding a character of `cs`, or |s| when there is none. */
  function FindFirst(s: string, cs: set<char>): (i: nat)
    ensures i <= |s|
    ensures forall j :: 0 <= j < i ==> s[j] !in cs
    ensures i < |s| ==> s[i] in cs
  {
    if |s| == 0 then 0
    else if s[0] in cs then 0
    else 1 + FindFirst(s[1..], cs)
  }

  /** The number of occurrences of `c` in `s`. */
  function Count(s: string, c: char): (n: nat)
    ensures n <= |s|
    ensures n == 0 <==> c !in s
  {
    if |s| == 0 then 0 else (if s[0] == c then 1 else 0) + Count(s[1..], c)
  }

  /** An optionally signed run of at least one digit, with nothing around it. */
  function ParseSignedDigits(t: string): (r: Option<int>)
    ensures r.Some? ==> |t| > 0
  {
    if |t| > 0 && (t[0] == '+' || t[0] == '-') then
      var d := t[1..];
      if |d| > 0 && AllDigits(d) then
        Some(if t[0] == '-' then -(DigitsValue(d) as int) else DigitsValue(d) as int)
      else None
    else if |t| > 0 && AllDigits(t) then Some(DigitsValue(t) as int)
    else None
  }

  /** Python's `int(text)` in base 10: surrounding whitespace, a sign, digits. */
  function ParseInt(text: string): Option<int> {
    ParseSignedDigits(Strip(text))
  }

  /** Digits with at most one decimal point, at least one digit in all. */
  function ParseMantissa(m: string): (r: Option<real>)
    ensures r.Some? ==> r.value >= 0.0
  {
    var d := FindFirst(m, {'.'});
    var ip := m[..d];
    var fp := if d < |m| then m[d + 1..] else [];
    if AllDigits(ip) && AllDigits(fp) && |ip| + |fp| > 0 then Some(DecimalValue(ip, fp)) else None
  }

  /** The value of the decimal `ip.fp`, as the quotient of two naturals. */
  function DecimalValue(ip: string, fp: string): (r: real)
    requires AllDigits(ip) && AllDigits(fp)
    ensures r >= 0.0
    ensures fp == [] ==> r == DigitsValue(ip) as real
  {
    var den := Pow10(|fp|);
    var num := DigitsValue(ip) * den + DigitsValue(fp);
    NonNegativeQuotient(num as real, den as real);
    num as real / den as real
  }

  lemma NonNegativeQuotient(a: real, b: real)
    requires a >= 0.0 && b > 0.0
    ensures a / b >= 0.0
  {
  }

  function ScaleBy10(x: real, e: int): real {
    if e >= 0 then x * Pow10(e) as real else x / Pow10(-e) as real
  }

  /** An unsigned decimal number with an optional exponent (`1.5`, `.5`, `2.`, `1e3`). */
  function ParseUnsigned(t: string): (r: Option<real>)
    ensures r.Some? ==> r.value >= 0.0
  {
    var e := FindFirst(t, {'e', 'E'});
    if e == |t| then ParseMantissa(t)
    else
      match (ParseMantissa(t[..e]), ParseSignedDigits(t[e + 1..]))
      case (Some(m), Some(x)) => Some(ScaleBy10(m, x))
      case _ => None
  }

  /** Python's `float(text)` on decimal text: surrounding whitespace, a sign, an unsigned number. */
  function ParseFloat(text: string): Option<real> {
    var t := Strip(text);
    if |t| > 0 && (t[0] == '+' || t[0] == '-') then
      match ParseUnsigned(t[1..])
      case None => None
      case Some(x) => Some(if t[0] == '-' then -x else x)
    else ParseUnsigned(t)
  }

  /** A character that no part of a decimal number can hold. */
  predicate OutsideNumbers(c: char) {
    !IsDigit(c) && !IsSpace(c) && c != '.' && c != 'e' && c != 'E' && c != '+' && c != '-'
  }

  lemma NoDigitRun(s: string, c: char)
    requires c in s && !IsDigit(c)
    ensures !AllDigits(s)
  {
    var i :| 0 <= i < |s| && s[i] == c;
  }

  lemma InPrefixOrSuffix(s: string, c: char, k: nat)
    requires c in s && k < |s| && s[k] != c
    ensures c in s[..k] || c in s[k + 1..]
  {
    var i :| 0 <= i < |s| && s[i] == c;
    if i < k { assert s[..k][i] == c; } else { assert s[k + 1..][i - k - 1] == c; }
  }

  lemma MantissaRejects(m: string, c: char)
    requires c in m && OutsideNumbers(c)
    ensures ParseMantissa(m).None?
  {
    var d := FindFirst(m, {'.'});
    if d < |m| {
      InPrefixOrSuffix(m, c, d);
      if c in m[..d] { NoDigitRun(m[..d], c); } else { NoDigitRun(m[d + 1..], c); }
    } else {
      assert m[..d] == m;
      NoDigitRun(m, c);
    }
  }

  lemma SignedDigitsRejects(t: string, c: char)
    requires c in t && OutsideNumbers(c)
    ensures ParseSignedDigits(t).None?
  {
    if |t| > 0 && (t[0] == '+' || t[0] == '-') {
      InPrefixOrSuffix(t, c, 0);
      NoDigitRun(t[1..], c);
    } else {
      NoDigitRun(t, c);
    }
  }

  lemma UnsignedRejects(t: string, c: char)
    requires c in t && OutsideNumbers(c)
    ensures ParseUnsigned(t).None?
  {
    var e := FindFirst(t, {'e', 'E'});
    if e == |t| {
      MantissaRejects(t, c);
    } else {
      InPrefixOrSuffix(t, c, e);
      if c in t[..e] { MantissaRejects(t[..e], c); } else { SignedDigitsRejects(t[e + 1..], c); }
    }
  }

  /** `float(text)` raises on text holding a character no decimal number can contain, wherever it stands. */
  lemma ParseFloatRejects(text: string, c: char)
    requires c in text && OutsideNumbers(c)
    ensures ParseFloat(text).None?
  {
    var i :| 0 <= i < |text| && text[i] == c;
    var l := TrimLeft(text);
    TrimLeftSpec(text);
    assert l[i - (|text| - |l|)] == c;
    var t := TrimRight(l);
    TrimRightSpec(l);
    assert t[i - (|text| - |l|)] == c;
    assert c in t;
    if |t| > 0 && (t[0] == '+' || t[0] == '-') {
      InPrefixOrSuffix(t, c, 0);
      UnsignedRejects(t[1..], c);
    } else {
      UnsignedRejects(t, c);
    }
  }

  /** `str(n)` for a natural number. */
  function ShowNat(n: nat): (s: string)
    ensures |s| > 0 && AllDigits(s)
  {
    var last := ['0' + (n % 10) as char];
    if n < 10 then last else ShowNat(n / 10) + last
  }

  lemma {:induction false} ShowNatValue(n: nat)
    ensures DigitsValue(ShowNat(n)) == n
  {
    var s := ShowNat(n);
    if n >= 10 {
      ShowNatValue(n / 10);
      assert s[..|s| - 1] == ShowNat(n / 10);
    }
  }

  /** Text without surrounding whitespace is left alone by `strip`. */
  lemma StripDigits(s: string)
    requires |s| > 0 && AllDigits(s)
    ensures Strip(s) == s
  {
    assert IsDigit(s[0]) && IsDigit(s[|s| - 1]);
    Unpadded(s);
  }

  lemma NoneFound(s: string, cs: set<char>)
    requires AllDigits(s)
    requires forall c :: c in cs ==> !IsDigit(c)
    ensures FindFirst(s, cs) == |s|
  {
  }

  lemma MantissaDigits(s: string)
    requires |s| > 0 && AllDigits(s)
    ensures ParseMantissa(s) == Some(DigitsValue(s) as real)
  {
    NoneFound(s, {'.'});
    assert s[..|s|] == s;
  }

  /** A run of digits parses, as a float, to the number it denotes. */
  lemma ParseUnsignedDigits(s: string)
    requires |s| > 0 && AllDigits(s)
    ensures ParseUnsigned(s) == Some(DigitsValue(s) as real)
  {
    NoneFound(s, {'e', 'E'});
    MantissaDigits(s);
  }

  /** `int(str(n)) == n`. */
  lemma ParseIntShowNat(n: nat)
    ensures ParseInt(ShowNat(n)) == Some(n)
  {
    ShowNatValue(n);
    StripDigits(ShowNat(n));
  }

  /** `float(str(n)) == n`. */
  lemma ParseFloatShowNat(n: nat)
    ensures ParseFloat(ShowNat(n)) == Some(n as real)
  {
    var s := ShowNat(n);
    ShowNatValue(n);
    StripDigits(s);
    assert IsDigit(s[0]);
    ParseUnsignedDigits(s);
  }
}
