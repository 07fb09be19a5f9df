/**
 Decimal rendering of integers (JavaScript's `Number.prototype.toString` on
 integral values) and the positional value of a digit string, used both by the
 "MM:SS" formatter and by the duration text field.
 */
module Decimal {

  predicate IsDigit(c: char) {
    '0' <= c <= '9'
  }

  predicate IsHexDigit(c: char) {
    IsDigit(c) || 'a' <= c <= 'f' || 'A' <= c <= 'F'
  }

  predicate AllDigits(s: string) {
    forall i :: 0 <= i < |s| ==> IsDigit(s[i])
  }

  function DigitValue(c: char): nat
    requires IsHexDigit(c)
  {
    if IsDigit(c) then c as int - '0' as int
    else if 'a' <= c <= 'f' then c as int - 'a' as int + 10
    else c as int - 'A' as int + 10
  }

  /** Every character of `s` is a digit of the given base. */
  predicate DigitsIn(base: nat, s: string) {
    forall i :: 0 <= i < |s| ==> IsHexDigit(s[i]) && DigitValue(s[i]) < base
  }

  /** The value of a digit string read most significant digit first. */
  function ValueIn(base: nat, s: string): nat
    requires DigitsIn(base, s)
  {
    if s == [] then 0
    else
      DigitsInPrefix(base, s);
      var high: nat := ValueIn(base, s[..|s| - 1]);
      Shifted(high, base) + DigitValue(s[|s| - 1])
  }

  /** The value of the higher digits, one place up. */
  function Shifted(high: nat, base: nat): nat {
    high * base
  }

  lemma DigitsInPrefix(base: nat, s: string)
    requires DigitsIn(base, s) && s != []
    ensures DigitsIn(base, s[..|s| - 1])
  {
  }

  function DigitChar(d: nat): (c: char)
    requires d < 10
    ensures IsDigit(c) && DigitValue(c) == d
  {
    ('0' as int + d) as char
  }

  /** Shortest decimal rendering of a natural number (no leading zeros). */
  function NatToString(n: nat): (s: string)
    ensures |s| > 0 && AllDigits(s)
    ensures n >= 10 ==> s[0] != '0'
    decreases n
  {
    if n < 10 then [DigitChar(n)] else NatToString(n / 10) + [DigitChar(n % 10)]
  }

  /** `n.toString()` for an integral number. */
  function IntToString(n: int): (s: string)
    ensures |s| > 0
    ensures n >= 0 ==> AllDigits(s)
    ensures n < 0 ==> s[0] == '-' && AllDigits(s[1..])
  {
    if n < 0 then "-" + NatToString(-n) else NatToString(n)
  }

  lemma AllDigitsAreDecimal(s: string)
    requires AllDigits(s)
    ensures DigitsIn(10, s)
  {
  }

  /** Reading the rendering back gives the number. */
  lemma {:induction false} NatToStringValue(n: nat)
    ensures DigitsIn(10, NatToString(n)) && ValueIn(10, NatToString(n)) == n
    decreases n
  {
    var s := NatToString(n);
    AllDigitsAreDecimal(s);
    if n >= 10 {
      NatToStringValue(n / 10);
      assert s[..|s| - 1] == NatToString(n / 10);
    }
  }

  /** The rendering has one digit below 10 and two digits from 10 to 99. */
  lemma {:induction false} NatToStringLength(n: nat)
    ensures |NatToString(n)| == 1 <==> n < 10
    ensures |NatToString(n)| == 2 <==> 10 <= n < 100
  {
    if n >= 10 {
      NatToStringLength(n / 10);
    }
  }

  /** A leading zero does not change the value of a digit string. */
  lemma {:induction false} LeadingZero(s: string)
    requires AllDigits(s)
    ensures DigitsIn(10, "0" + s) && ValueIn(10, "0" + s) == ValueIn(10, s)
  {
    AllDigitsAreDecimal("0" + s);
    if s != [] {
      assert ("0" + s)[..|"0" + s| - 1] == "0" + s[..|s| - 1];
      LeadingZero(s[..|s| - 1]);
    }
  }
}
