/** Decimal digits and numerals: JavaScript's `String(n)` for an integer and
    `Number(digits)` for a string of decimal digits, as the lexical helpers
    and the example printers use them. */
module Decimal {

  predicate IsDecimalDigit(c: char) {
    '0' <= c <= '9'
  }

  predicate AllDigits(s: seq<char>) {
    forall k :: 0 <= k < |s| ==> IsDecimalDigit(s[k])
  }

  /** The digit character for 0..9. */
  function DigitChar(d: nat): (c: char)
    requires d < 10
    ensures IsDecimalDigit(c)
  {
    ('0' as int + d) as char
  }

  /** The value of a digit character (0 for any other character, which the
      parsers never pass here). */
  function DigitValue(c: char): (d: nat)
    ensures d < 10
  {
    if IsDecimalDigit(c) then c as int - '0' as int else 0
  }

  /** `Number(ds)` for a string of decimal digits; the empty string is 0. */
  function DigitsValue(ds: seq<char>): nat {
    if ds == [] then 0 else DigitsValue(ds[..|ds| - 1]) * 10 + DigitValue(ds[|ds| - 1])
  }

  /** `String(n)` for a non-negative integer. */
  function NatToString(n: nat): (s: string)
    ensures |s| >= 1 && AllDigits(s)
    ensures |s| > 1 ==> s[0] != '0'
  {
    if n < 10 then [DigitChar(n)] else NatToString(n / 10) + [DigitChar(n % 10)]
  }

  /** `String(x)` for an integer: a minus sign before negative values. */
  function IntToString(x: int): (s: string)
    ensures |s| >= 1
  {
    if x < 0 then "-" + NatToString(-x) else NatToString(x)
  }

  /** Reading back a rendered number gives the number. */
  lemma {:induction false} NatToStringRoundTrip(n: nat)
    ensures DigitsValue(NatToString(n)) == n
  {
    if n >= 10 {
      var s := NatToString(n / 10);
      NatToStringRoundTrip(n / 10);
      assert (s + [DigitChar(n % 10)])[..|s|] == s;
    }
  }

  /** Rendering is injective, since it has an inverse. */
  lemma NatToStringInjective(m: nat, n: nat)
    ensures NatToString(m) == NatToString(n) ==> m == n
  {
    NatToStringRoundTrip(m);
    NatToStringRoundTrip(n);
  }

  /** A rendering holds no parenthesis, space or sign, so the printers'
      punctuation never clashes with it. */
  lemma NatToStringHasNoPunctuation(n: nat)
    ensures forall k :: 0 <= k < |NatToString(n)| ==> NatToString(n)[k] !in "() -+*/"
  {
  }
}
