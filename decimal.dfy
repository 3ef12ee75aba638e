/**
 * Decimal text of a non-negative integer, as the standard output stream
 * writes one (no sign, no leading zeros), and its inverse.
 */
module Decimal {
  import opened Wrappers

  predicate IsDigit(c: char) {
    '0' <= c <= '9'
  }

  predicate AllDigits(s: string) {
    forall i :: 0 <= i < |s| ==> IsDigit(s[i])
  }

  /** Digit strings as they are written for a number: non-empty, no leading zero except "0" itself. */
  predicate IsCanonical(s: string) {
    |s| >= 1 && AllDigits(s) && (s[0] == '0' ==> |s| == 1)
  }

  function DigitValue(c: char): (d: nat)
    requires IsDigit(c)
    ensures d < 10
  {
    c as int - '0' as int
  }

  function DigitChar(d: nat): (c: char)
    requires d < 10
    ensures IsDigit(c) && DigitValue(c) == d
  {
    ('0' as int + d) as char
  }

  /** The text `operator<<` writes for n: its decimal digits, most significant first. */
  function NatText(n: nat): (s: string)
    ensures IsCanonical(s)
    ensures s[0] == '0' <==> n == 0
    decreases n
  {
    if n < 10 then [DigitChar(n)] else NatText(n / 10) + [DigitChar(n % 10)]
  }

  /** The number a digit string denotes, most significant digit first. */
  function DigitsValue(s: string): nat
    requires AllDigits(s)
  {
    if s == [] then 0 else 10 * DigitsValue(s[..|s| - 1]) + DigitValue(s[|s| - 1])
  }

  /** Reads back a number written by NatText; anything else is refused. */
  function ParseNat(s: string): Option<nat> {
    if IsCanonical(s) then Some(DigitsValue(s)) else None
  }

  /** Reading back the text of n gives n. */
  lemma {:induction false} ParseNatText(n: nat)
    ensures ParseNat(NatText(n)) == Some(n)
    decreases n
  {
    var s := NatText(n);
    if n >= 10 {
      var t := NatText(n / 10);
      ParseNatText(n / 10);
      assert s[..|s| - 1] == t;
      assert DigitsValue(s) == 10 * (n / 10) + n % 10;
    }
  }

  /** Every canonical digit string is the text of the number it denotes. */
  lemma {:induction false} NatTextOfDigits(s: string)
    requires IsCanonical(s)
    ensures NatText(DigitsValue(s)) == s
    decreases |s|
  {
    var n := DigitsValue(s);
    if |s| == 1 {
      assert s[..|s| - 1] == [];
      assert DigitsValue(s[..|s| - 1]) == 0;
      assert n == DigitValue(s[0]);
      assert DigitChar(n) == s[0];
      assert s == [s[0]];
    } else {
      var t := s[..|s| - 1];
      assert t[0] == s[0];
      NatTextOfDigits(t);
      var m := DigitsValue(t);
      assert m != 0;
      assert n / 10 == m && n % 10 == DigitValue(s[|s| - 1]);
      assert s == t + [s[|s| - 1]];
    }
  }
}
