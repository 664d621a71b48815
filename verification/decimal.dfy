/**
  Decimal text of integers as Kotlin prints and parses it: `Int.toString()`,
  `String.toIntOrNull()` and the two-digit zero padding of `%02d`.
  Only ASCII digits are modelled.
 */
module Decimal {
  import opened Optional

  /** Bounds of Kotlin's 32-bit `Int`. */
  const INT_MIN: int := -0x8000_0000
  const INT_MAX: int := 0x7fff_ffff

  type Int32 = x: int | INT_MIN <= x <= INT_MAX

  predicate IsDigit(c: char) {
    '0' <= c <= '9'
  }

  predicate AllDigits(s: string) {
    forall i :: 0 <= i < |s| ==> IsDigit(s[i])
  }

  function DigitChar(d: nat): (c: char)
    requires d < 10
    ensures IsDigit(c)
  {
    ('0' as int + d) as char
  }

  function DigitValue(c: char): (d: nat)
    requires IsDigit(c)
    ensures d < 10
    ensures DigitChar(d) == c
  {
    c as int - '0' as int
  }

  /** The value of a string of decimal digits, most significant first. */
  function ParseDigits(s: string): nat
    requires AllDigits(s)
  {
    if |s| == 0 then 0 else ParseDigits(s[..|s| - 1]) * 10 + DigitValue(s[|s| - 1])
  }

  /** The shortest decimal digits of `n`; parsing them gives `n` back. */
  function NatToString(n: nat): (s: string)
    ensures |s| >= 1 && AllDigits(s)
    ensures s[0] == '0' ==> n == 0
    ensures ParseDigits(s) == n
    ensures n < 10 <==> |s| == 1
  {
    if n < 10 then [DigitChar(n)]
    else
      var s := NatToString(n / 10) + [DigitChar(n % 10)];
      assert s[..|s| - 1] == NatToString(n / 10);
      s
  }

  /** Kotlin's `toString()` on an integer: a minus sign before the digits of a negative value. */
  function IntToString(n: int): (s: string)
    ensures |s| >= 1
    ensures s[0] == '-' <==> n < 0
    ensures n >= 0 ==> AllDigits(s) && ParseDigits(s) == n
    ensures n < 0 ==> AllDigits(s[1..]) && ParseDigits(s[1..]) == -n
  {
    if n < 0 then
      var s := "-" + NatToString(-n);
      assert s[1..] == NatToString(-n);
      s
    else NatToString(n)
  }

  /** The text of an integer has no leading zero: only zero itself starts with `0`, and the
      digits after a minus sign start with a non-zero digit. */
  lemma IntToStringCanonical(n: int)
    ensures n >= 0 && IntToString(n)[0] == '0' ==> n == 0
    ensures n < 0 ==> |IntToString(n)| >= 2 && IntToString(n)[1] != '0'
  {
    if n < 0 {
      assert IntToString(n)[1..] == NatToString(-n);
    }
  }

  /** The shape of an integer literal: an optional sign followed by at least one digit. */
  predicate IsIntText(s: string) {
    && |s| > 0
    && if s[0] == '-' || s[0] == '+' then |s| > 1 && AllDigits(s[1..]) else AllDigits(s)
  }

  /** The mathematical value an integer literal denotes, whatever its size. */
  function TextValue(s: string): int
    requires IsIntText(s)
  {
    if s[0] == '-' then -(ParseDigits(s[1..]) as int)
    else if s[0] == '+' then ParseDigits(s[1..])
    else ParseDigits(s)
  }

  /** Kotlin's `String.toIntOrNull()`: an optional sign followed by at least one digit,
      whose value fits in an `Int`; anything else is null. */
  function ToIntOrNull(s: string): (r: Option<Int32>)
    ensures r.None? <==> !IsIntText(s) || !(INT_MIN <= TextValue(s) <= INT_MAX)
    ensures r.Some? ==> r.value == TextValue(s)
    ensures r.Some? ==> |s| > 0 && (IsDigit(s[0]) || s[0] == '-' || s[0] == '+')
    ensures r.Some? ==> forall i :: 0 < i < |s| ==> IsDigit(s[i])
    ensures r.Some? && s[0] == '-' ==> |s| > 1 && r.value == -(ParseDigits(s[1..]) as int)
    ensures r.Some? && s[0] == '+' ==> r.value == ParseDigits(s[1..])
    ensures r.Some? && IsDigit(s[0]) ==> r.value == ParseDigits(s)
    ensures r.Some? && s[0] != '-' ==> r.value >= 0
  {
    if |s| == 0 then None
    else if s[0] == '-' || s[0] == '+' then
      if |s| == 1 || !AllDigits(s[1..]) then None
      else
        var magnitude: int := ParseDigits(s[1..]);
        var v := if s[0] == '-' then -magnitude else magnitude;
        if INT_MIN <= v <= INT_MAX then Some(v) else None
    else if !AllDigits(s) then None
    else
      var v := ParseDigits(s);
      if v <= INT_MAX then Some(v) else None
  }

  /** Every `Int` survives printing and parsing back. */
  lemma ToIntOrNullInvertsToString(n: Int32)
    ensures ToIntOrNull(IntToString(n)) == Some(n)
  {
    var s := IntToString(n);
    if n < 0 {
      assert s[0] == '-' && |s| > 1;
    } else {
      assert IsDigit(s[0]);
    }
  }

  /** `%02d`: the decimal text, with a leading zero when it would be a single digit. A
      negative value already has two characters with its sign, so it is printed as is. */
  function Pad2(n: int): (s: string)
    ensures |s| >= 2
    ensures 0 <= n < 100 ==> |s| == 2
    ensures n >= 0 ==> AllDigits(s) && ParseDigits(s) == n
  {
    if 0 <= n < 10 then
      var s := ['0', DigitChar(n)];
      assert s[..1] == "0" && ParseDigits("0") == 0;
      s
    else IntToString(n)
  }

  /** `%02d` adds a zero only to a single digit: from ten up the text starts with a non-zero
      digit, and a negative value is a minus sign followed by the shortest digits of its size. */
  lemma Pad2Canonical(n: int)
    ensures n >= 10 ==> Pad2(n)[0] != '0'
    ensures 0 <= n < 10 ==> Pad2(n)[0] == '0'
    ensures n < 0 ==> Pad2(n)[0] == '-' && AllDigits(Pad2(n)[1..])
    ensures n < 0 ==> ParseDigits(Pad2(n)[1..]) == -n && Pad2(n)[1] != '0'
  {
    IntToStringCanonical(n);
  }
}
