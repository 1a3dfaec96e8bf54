/** Decimal text for integers: JavaScript's `String(n)` / template
    interpolation of an integer, and the integer-reading part of
    `parseInt`. */
module Decimal {
  import opened Outcomes

  predicate IsDigit(c: char) {
    '0' <= c <= '9'
  }

  predicate AllDigits(s: string) {
    forall i :: 0 <= i < |s| ==> IsDigit(s[i])
  }

  function DigitChar(d: nat): (c: char)
    requires d < 10
    ensures IsDigit(c)
  {
    ('0' as int + d) as char
  }

  function DigitValue(c: char): (d: nat)
    requires IsDigit(c)
    ensures d < 10
  {
    c as int - '0' as int
  }

  /** The shortest decimal spelling of `n`: at least one digit and no leading
      zero unless `n` is zero. */
  function NatToString(n: nat): (s: string)
    ensures 1 <= |s| && AllDigits(s)
    ensures s[0] == '0' ==> n == 0 && |s| == 1
    decreases n
  {
    if n < 10 then [DigitChar(n)] else NatToString(n / 10) + [DigitChar(n % 10)]
  }

  /** `String(n)` for an integer: a minus sign followed by the digits of the
      magnitude when negative. */
  function IntToString(n: int): (s: string)
    ensures 1 <= |s|
    ensures n >= 0 <==> AllDigits(s)
  {
    if n < 0 then
      var s := ['-'] + NatToString(-n);
      assert !IsDigit(s[0]);
      s
    else NatToString(n)
  }

  /** The number a string of digits denotes, most significant digit first. */
  function DigitsValue(s: string): nat
    requires AllDigits(s)
    decreases |s|
  {
    if s == [] then 0 else DigitsValue(s[..|s| - 1]) * 10 + DigitValue(s[|s| - 1])
  }

  lemma {:induction false} DigitsValueOfNatToString(n: nat)
    ensures DigitsValue(NatToString(n)) == n
    decreases n
  {
    var s := NatToString(n);
    if n >= 10 {
      DigitsValueOfNatToString(n / 10);
      assert s[..|s| - 1] == NatToString(n / 10);
    }
  }

  /** The longest prefix of `s` made of digits. */
  function LeadingDigits(s: string): (d: string)
    ensures |d| <= |s| && d == s[..|d|]
    ensures AllDigits(d)
    ensures |d| < |s| ==> !IsDigit(s[|d|])
  {
    if s == [] || !IsDigit(s[0]) then [] else [s[0]] + LeadingDigits(s[1..])
  }

  /** `parseInt(s)` (radix 10): an optional sign, then the longest run of
      digits; no digits gives NaN, here `None`. Input strings of an
      `<input type="number">` never carry leading white space or a `0x`
      prefix, so those branches of `parseInt` are not modelled. */
  function ParseInt(s: string): (r: Option<int>)
    ensures r.None? <==> LeadingDigits(Unsigned(s)) == []
    ensures r.Some? && r.value != 0 ==> (r.value < 0 <==> s[0] == '-')
  {
    var d := LeadingDigits(Unsigned(s));
    var v: int := if d == [] then 0 else DigitsValue(d);
    if d == [] then None
    else if |s| > 0 && s[0] == '-' then Some(-v)
    else Some(v)
  }

  /** `s` without one leading sign character. */
  function Unsigned(s: string): (u: string)
    ensures u == s || (|s| > 0 && u == s[1..])
  {
    if |s| > 0 && (s[0] == '-' || s[0] == '+') then s[1..] else s
  }

  /** Reading the decimal text of an integer back gives that integer, also when
      non-digit text (a decimal point, an exponent) follows it. */
  lemma ParseIntOfIntToString(n: int, rest: string)
    requires rest == [] || !IsDigit(rest[0])
    ensures ParseInt(IntToString(n) + rest) == Some(n)
  {
    var m: nat := if n < 0 then -n else n;
    var digits := NatToString(m);
    LeadingDigitsOfDigits(digits, rest);
    DigitsValueOfNatToString(m);
    if n < 0 {
      ParseIntNegative(digits, rest);
    } else {
      ParseIntUnsigned(digits, rest);
    }
  }

  lemma ParseIntNegative(digits: string, rest: string)
    requires digits != [] && LeadingDigits(digits + rest) == digits
    ensures ParseInt(['-'] + digits + rest) == Some(-(DigitsValue(digits) as int))
  {
    var s := ['-'] + digits + rest;
    assert s[1..] == digits + rest;
  }

  lemma ParseIntUnsigned(digits: string, rest: string)
    requires digits != [] && AllDigits(digits) && LeadingDigits(digits + rest) == digits
    ensures ParseInt(digits + rest) == Some(DigitsValue(digits))
  {
    assert (digits + rest)[0] == digits[0];
    assert IsDigit(digits[0]);
  }

  /** The decimal text of an integer alone reads back as that integer. */
  lemma ParseIntOfIntToStringAlone(n: int)
    ensures ParseInt(IntToString(n)) == Some(n)
  {
    ParseIntOfIntToString(n, []);
    assert IntToString(n) + [] == IntToString(n);
  }

  lemma {:induction false} LeadingDigitsOfDigits(d: string, rest: string)
    requires AllDigits(d)
    requires rest == [] || !IsDigit(rest[0])
    ensures LeadingDigits(d + rest) == d
    decreases |d|
  {
    if d != [] {
      LeadingDigitsOfDigits(d[1..], rest);
      assert (d + rest)[1..] == d[1..] + rest;
    }
  }

  /** Distinct integers have distinct decimal spellings. */
  lemma IntToStringInjective(a: int, b: int)
    requires IntToString(a) == IntToString(b)
    ensures a == b
  {
    ParseIntOfIntToString(a, []);
    ParseIntOfIntToString(b, []);
    assert IntToString(a) + [] == IntToString(a);
    assert IntToString(b) + [] == IntToString(b);
  }

  /** A leading zero does not change the value a digit string denotes. */
  lemma {:induction false} DigitsValueLeadingZero(d: string)
    requires AllDigits(d)
    ensures AllDigits(['0'] + d) && DigitsValue(['0'] + d) == DigitsValue(d)
    decreases |d|
  {
    var z := ['0'] + d;
    if d != [] {
      DigitsValueLeadingZero(d[..|d| - 1]);
      assert z[..|z| - 1] == ['0'] + d[..|d| - 1];
    }
  }
}
