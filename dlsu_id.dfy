/**
  The structural check on student ID numbers: an ID is accepted when its
  decimal text has exactly eight characters and the digits, weighted
  8, 7, ..., 1 from left to right, sum to a multiple of 11.

  `IsDlsuId` follows the program's own steps (decimal text, length test,
  weighted sum over the characters), `CheckDlsuId` is its loop, and
  `ChecksumHolds` is an independent arithmetic statement of the same rule
  in terms of the number's digits.
 */
module DlsuId {

  predicate IsDigit(c: char) {
    '0' <= c <= '9'
  }

  /** The character of a decimal digit. */
  function DigitChar(d: nat): (c: char)
    requires d < 10
    ensures IsDigit(c)
  {
    (('0' as int) + d) as char
  }

  /** The value of a digit character, as the program's int() gives it. */
  function DigitValue(c: char): (d: nat)
    requires IsDigit(c)
    ensures d < 10
  {
    (c as int) - ('0' as int)
  }

  /** The decimal text of a non-negative number, as the program's str() gives it:
      no sign, no leading zeros, "0" for zero. The interpreter's limit on the
      number of digits str() will produce is not modelled. */
  function DecimalString(n: nat): (s: string)
    ensures |s| >= 1
    ensures forall i :: 0 <= i < |s| ==> IsDigit(s[i])
    decreases n
  {
    if n < 10 then [DigitChar(n)] else DecimalString(n / 10) + [DigitChar(n % 10)]
  }

  /** The number a string of digit characters denotes. */
  function DecimalValue(s: string): (n: nat)
    requires forall i :: 0 <= i < |s| ==> IsDigit(s[i])
  {
    if s == [] then 0 else DecimalValue(s[..|s| - 1]) * 10 + DigitValue(s[|s| - 1])
  }

  /** The sum of the first k characters' digit values, the character at
      position i weighted by 8 - i. */
  function WeightedSum(s: string, k: nat): (total: int)
    requires k <= |s|
    requires forall i :: 0 <= i < |s| ==> IsDigit(s[i])
  {
    if k == 0 then 0 else WeightedSum(s, k - 1) + DigitValue(s[k - 1]) * (8 - (k - 1))
  }

  /** The identifier check, as the program states it on the decimal text. */
  function IsDlsuId(id: nat): (valid: bool) {
    var text := DecimalString(id);
    |text| == 8 && WeightedSum(text, 8) % 11 == 0
  }

  /** The identifier check by its accumulating loop over the eight characters. */
  method CheckDlsuId(id: nat) returns (valid: bool)
    ensures valid == IsDlsuId(id)
    ensures valid <==> ChecksumHolds(id)
  {
    IsDlsuIdIffChecksum(id);
    var text := DecimalString(id);
    if |text| != 8 {
      return false;
    }
    var total := 0;
    for i := 0 to 8
      invariant total == WeightedSum(text, i)
    {
      total := total + DigitValue(text[i]) * (8 - i);
    }
    return total % 11 == 0;
  }

  // ---------------------------------------------------------------------
  // The arithmetic reading of the rule

  function Pow10(k: nat): (p: nat)
    ensures p >= 1
  {
    if k == 0 then 1 else 10 * Pow10(k - 1)
  }

  /** The j-th decimal digit of n, counting from the right and starting at 0. */
  function Digit(n: nat, j: nat): (d: nat)
    ensures d < 10
  {
    if j == 0 then n % 10 else Digit(n / 10, j - 1)
  }

  /** An eight-digit number whose digits d0 .. d7 (left to right) satisfy
      (8*d0 + 7*d1 + ... + 1*d7) mod 11 == 0. */
  predicate ChecksumHolds(n: nat) {
    && 10000000 <= n <= 99999999
    && (8 * Digit(n, 7) + 7 * Digit(n, 6) + 6 * Digit(n, 5) + 5 * Digit(n, 4)
        + 4 * Digit(n, 3) + 3 * Digit(n, 2) + 2 * Digit(n, 1) + Digit(n, 0)) % 11 == 0
  }

  /** Reading the decimal text back gives the number. */
  lemma {:induction false} DecimalRoundTrip(n: nat)
    ensures DecimalValue(DecimalString(n)) == n
    decreases n
  {
    var s := DecimalString(n);
    if n >= 10 {
      DecimalRoundTrip(n / 10);
      assert s[..|s| - 1] == DecimalString(n / 10);
    } else {
      assert s[..|s| - 1] == [];
    }
  }

  /** The decimal text has at most k characters exactly when n < 10^k. */
  lemma {:induction false} DecimalLength(n: nat, k: nat)
    requires k >= 1
    ensures |DecimalString(n)| <= k <==> n < Pow10(k)
    decreases n
  {
    if n >= 10 && k >= 2 {
      DecimalLength(n / 10, k - 1);
    }
  }

  /** The text has length eight exactly for the numbers 10000000 .. 99999999. */
  lemma EightCharacters(n: nat)
    ensures |DecimalString(n)| == 8 <==> 10000000 <= n <= 99999999
  {
    DecimalLength(n, 8);
    DecimalLength(n, 7);
    assert Pow10(7) == 10000000;
    assert Pow10(8) == 100000000;
  }

  /** A number whose decimal text is not eight characters long is rejected. */
  lemma WrongLengthRejected(n: nat)
    requires n < 10000000 || n > 99999999
    ensures !IsDlsuId(n)
  {
    EightCharacters(n);
  }

  /** The character at position i of the text is the digit of n at place
      |text| - 1 - i from the right. */
  lemma {:induction false} DecimalStringDigit(n: nat, i: nat)
    requires i < |DecimalString(n)|
    ensures DigitValue(DecimalString(n)[i]) == Digit(n, |DecimalString(n)| - 1 - i)
    decreases n
  {
    if n >= 10 {
      var prefix := DecimalString(n / 10);
      if i < |prefix| {
        DecimalStringDigit(n / 10, i);
      }
    }
  }

  /** The weighted sum over eight characters written out term by term. */
  lemma WeightedSumOfEight(s: string)
    requires |s| == 8
    requires forall i :: 0 <= i < |s| ==> IsDigit(s[i])
    ensures WeightedSum(s, 8)
         == 8 * DigitValue(s[0]) + 7 * DigitValue(s[1]) + 6 * DigitValue(s[2])
          + 5 * DigitValue(s[3]) + 4 * DigitValue(s[4]) + 3 * DigitValue(s[5])
          + 2 * DigitValue(s[6]) + DigitValue(s[7])
  {
    assert WeightedSum(s, 1) == 8 * DigitValue(s[0]);
    assert WeightedSum(s, 2) == WeightedSum(s, 1) + 7 * DigitValue(s[1]);
    assert WeightedSum(s, 3) == WeightedSum(s, 2) + 6 * DigitValue(s[2]);
    assert WeightedSum(s, 4) == WeightedSum(s, 3) + 5 * DigitValue(s[3]);
    assert WeightedSum(s, 5) == WeightedSum(s, 4) + 4 * DigitValue(s[4]);
    assert WeightedSum(s, 6) == WeightedSum(s, 5) + 3 * DigitValue(s[5]);
    assert WeightedSum(s, 7) == WeightedSum(s, 6) + 2 * DigitValue(s[6]);
  }

  /** The program's check agrees with the arithmetic rule on every input. */
  lemma IsDlsuIdIffChecksum(n: nat)
    ensures IsDlsuId(n) <==> ChecksumHolds(n)
  {
    EightCharacters(n);
    var s := DecimalString(n);
    if |s| == 8 {
      WeightedSumOfEight(s);
      DecimalStringDigit(n, 0);
      DecimalStringDigit(n, 1);
      DecimalStringDigit(n, 2);
      DecimalStringDigit(n, 3);
      DecimalStringDigit(n, 4);
      DecimalStringDigit(n, 5);
      DecimalStringDigit(n, 6);
      DecimalStringDigit(n, 7);
    }
  }

  /** 12345678 has weighted sum 120, which leaves 10 modulo 11: rejected. */
  lemma RejectsSample()
    ensures WeightedSum(DecimalString(12345678), 8) == 120
    ensures !IsDlsuId(12345678)
  {
    var s := DecimalString(12345678);
    SampleText();
    WeightedSumOfEight(s);
  }

  /** 12345679 has weighted sum 121 = 11 * 11: accepted. */
  lemma AcceptsSample()
    ensures WeightedSum(DecimalString(12345679), 8) == 121
    ensures IsDlsuId(12345679)
  {
    var s := DecimalString(12345679);
    SampleText();
    WeightedSumOfEight(s);
  }

  /** The decimal text of the two sample numbers, built digit by digit. */
  lemma SampleText()
    ensures DecimalString(12345678) == "12345678"
    ensures DecimalString(12345679) == "12345679"
  {
    assert DecimalString(1) == "1";
    assert DecimalString(12) == "12";
    assert DecimalString(123) == "123";
    assert DecimalString(1234) == "1234";
    assert DecimalString(12345) == "12345";
    assert DecimalString(123456) == "123456";
    assert DecimalString(1234567) == "1234567";
  }
}
