/** The decimal form of an attachment ID, as concatenated into the error
    messages, and the reading back of such a string. */
module Decimal {

  predicate IsDigit(c: char) {
    '0' <= c <= '9'
  }

  predicate AllDigits(s: string) {
    forall i :: 0 <= i < |s| ==> IsDigit(s[i])
  }

  /** The character for one decimal digit. */
  function DigitChar(d: nat): (c: char)
    requires d < 10
    ensures IsDigit(c) && (c as int) - ('0' as int) == d
  {
    (('0' as int) + d) as char
  }

  /** The value of one decimal digit character. */
  function DigitValue(c: char): nat
    requires IsDigit(c)
  {
    (c as int) - ('0' as int)
  }

  /** The decimal form of an attachment ID: the shortest spelling. */
  function FromNat(n: nat): (s: string)
    ensures |s| > 0 && AllDigits(s)
    ensures s[0] == '0' ==> n == 0 && s == "0"
  {
    if n < 10 then [DigitChar(n)] else FromNat(n / 10) + [DigitChar(n % 10)]
  }

  /** The number a digit string spells. */
  function Value(s: string): nat
    requires AllDigits(s)
  {
    if |s| == 0 then 0 else 10 * Value(s[..|s| - 1]) + DigitValue(s[|s| - 1])
  }

  /** Reading back the decimal spelling of `n` gives `n`. */
  lemma {:induction false} ValueFromNat(n: nat)
    ensures Value(FromNat(n)) == n
  {
    if n >= 10 {
      var s := FromNat(n);
      ValueFromNat(n / 10);
      assert s[..|s| - 1] == FromNat(n / 10);
    }
  }

  /** Distinct IDs are spelled differently. */
  lemma FromNatInjective(a: nat, b: nat)
    ensures FromNat(a) == FromNat(b) ==> a == b
  {
    ValueFromNat(a);
    ValueFromNat(b);
  }

  /** The length of the run of digits at the front of `s`. */
  function DigitRun(s: string): (k: nat)
    ensures k <= |s|
    ensures AllDigits(s[..k])
    ensures k < |s| ==> !IsDigit(s[k])
  {
    if |s| == 0 || !IsDigit(s[0]) then 0 else 1 + DigitRun(s[1..])
  }

  /** The digit run of a spelled number followed by a non-digit is exactly
      that spelling. */
  lemma DigitRunFromNat(n: nat, rest: string)
    requires rest == [] || !IsDigit(rest[0])
    ensures DigitRun(FromNat(n) + rest) == |FromNat(n)|
  {
    DigitRunPrefix(FromNat(n), rest);
  }

  lemma {:induction false} DigitRunPrefix(d: string, rest: string)
    requires AllDigits(d)
    requires rest == [] || !IsDigit(rest[0])
    ensures DigitRun(d + rest) == |d|
  {
    if |d| > 0 {
      assert (d + rest)[1..] == d[1..] + rest;
      DigitRunPrefix(d[1..], rest);
    } else {
      assert d + rest == rest;
    }
  }
}
