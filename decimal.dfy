/**
 * The verification code is an integer turned into text by JavaScript's
 * `Number.prototype.toString()` (base 10, no sign, no leading zeros).
 * This module gives that conversion, its inverse, and the facts that make
 * every drawn code exactly six digits.
 */
module Decimal {

  predicate IsDigit(c: char) {
    '0' <= c <= '9'
  }

  predicate IsDigits(s: string) {
    forall i :: 0 <= i < |s| ==> IsDigit(s[i])
  }

  /** Exactly six decimal digits with a non-zero first digit. */
  predicate IsSixDigitCode(s: string) {
    |s| == 6 && IsDigits(s) && s[0] != '0'
  }

  function Pow10(k: nat): (p: nat)
    ensures p >= 1
  {
    if k == 0 then 1 else 10 * Pow10(k - 1)
  }

  function DigitChar(d: nat): (c: char)
    requires d < 10
    ensures IsDigit(c) && DigitValue(c) == d
  {
    (d + '0' as int) as char
  }

  function DigitValue(c: char): int {
    c as int - '0' as int
  }

  /** Decimal text of `n`, most significant digit first. */
  function DecimalText(n: nat): (s: string)
    ensures |s| >= 1 && IsDigits(s)
  {
    if n < 10 then [DigitChar(n)] else DecimalText(n / 10) + [DigitChar(n % 10)]
  }

  /** Value of a string of decimal digits; the empty string reads as 0. */
  function ParseDecimal(s: string): nat
    requires IsDigits(s)
  {
    if s == [] then 0 else 10 * ParseDecimal(s[..|s| - 1]) + DigitValue(s[|s| - 1])
  }

  /** Parsing undoes printing. */
  lemma {:induction false} ParseDecimalText(n: nat)
    ensures ParseDecimal(DecimalText(n)) == n
  {
    var s := DecimalText(n);
    if n < 10 {
      assert s[..|s| - 1] == [];
    } else {
      assert s[..|s| - 1] == DecimalText(n / 10);
      ParseDecimalText(n / 10);
    }
  }

  /** A number with k + 1 digits prints as k + 1 characters. */
  lemma {:induction false} DecimalTextLength(n: nat, k: nat)
    requires Pow10(k) <= n < Pow10(k + 1)
    ensures |DecimalText(n)| == k + 1
  {
    if k == 0 {
      assert n < 10;
    } else {
      assert Pow10(k) == 10 * Pow10(k - 1);
      assert Pow10(k - 1) <= n / 10 < Pow10(k);
      DecimalTextLength(n / 10, k - 1);
    }
  }

  /** A positive number never prints with a leading zero. */
  lemma {:induction false} DecimalTextLeadingDigit(n: nat)
    requires n >= 1
    ensures DecimalText(n)[0] != '0'
  {
    if n >= 10 {
      DecimalTextLeadingDigit(n / 10);
      assert DecimalText(n)[0] == DecimalText(n / 10)[0];
    }
  }

  /** A digit string with a non-zero first digit reads as a number of exactly |s| digits. */
  lemma {:induction false} ParseDecimalBounds(s: string)
    requires IsDigits(s) && |s| >= 1 && s[0] != '0'
    ensures Pow10(|s| - 1) <= ParseDecimal(s) < Pow10(|s|)
  {
    var p := s[..|s| - 1];
    if |s| == 1 {
      assert p == [];
    } else {
      assert p[0] == s[0];
      ParseDecimalBounds(p);
      assert Pow10(|s|) == 10 * Pow10(|p|);
    }
  }

  /** Printing undoes parsing for canonical digit strings (no leading zero). */
  lemma {:induction false} DecimalTextOfParse(s: string)
    requires IsDigits(s) && |s| >= 1 && s[0] != '0'
    ensures DecimalText(ParseDecimal(s)) == s
  {
    var p := s[..|s| - 1];
    var d := DigitValue(s[|s| - 1]);
    if |s| == 1 {
      assert p == [];
      assert DigitChar(d) == s[0];
    } else {
      assert p[0] == s[0];
      ParseDecimalBounds(p);
      DecimalTextOfParse(p);
      var n := ParseDecimal(s);
      assert n == 10 * ParseDecimal(p) + d;
      assert n / 10 == ParseDecimal(p) && n % 10 == d;
      assert DigitChar(d) == s[|s| - 1];
      assert s == p + [s[|s| - 1]];
    }
  }

  /** The drawn codes are exactly the six-digit strings: each draw in
      [100000, 999999] prints as one, and each one is the text of such a draw. */
  lemma SixDigitCodes(s: string)
    ensures IsSixDigitCode(s) <==> exists n :: 100000 <= n <= 999999 && DecimalText(n) == s
  {
    if IsSixDigitCode(s) {
      ParseDecimalBounds(s);
      DecimalTextOfParse(s);
      assert Pow10(5) == 100000 && Pow10(6) == 1000000;
      var n := ParseDecimal(s);
      assert 100000 <= n <= 999999 && DecimalText(n) == s;
    }
    if n :| 100000 <= n <= 999999 && DecimalText(n) == s {
      DrawnCodeIsSixDigits(n);
    }
  }

  /** The code text of one draw: six digits that parse back to the draw. */
  lemma DrawnCodeIsSixDigits(n: nat)
    requires 100000 <= n <= 999999
    ensures IsSixDigitCode(DecimalText(n))
    ensures ParseDecimal(DecimalText(n)) == n
  {
    assert Pow10(5) == 100000 && Pow10(6) == 1000000;
    DecimalTextLength(n, 5);
    DecimalTextLeadingDigit(n);
    ParseDecimalText(n);
  }
}
