/**
 * Decimal text of integers, as Go's fmt and time packages print it:
 * digits without leading zeros, optional zero padding to a minimum width,
 * and a leading '-' for negative values. The inverse direction (Value)
 * is the reference used by the round-trip lemmas.
 */
module DecimalText {

  predicate IsDigit(c: char) { '0' <= c <= '9' }

  predicate AllDigits(s: seq<char>) { forall i :: 0 <= i < |s| ==> IsDigit(s[i]) }

  function DigitValue(c: char): (d: int)
    requires IsDigit(c)
    ensures 0 <= d < 10
  {
    (c as int) - ('0' as int)
  }

  function DigitChar(d: int): (c: char)
    requires 0 <= d < 10
    ensures IsDigit(c) && DigitValue(c) == d
  {
    (('0' as int) + d) as char
  }

  function Pow10(k: nat): (p: nat)
    ensures p >= 1
  {
    if k == 0 then 1 else 10 * Pow10(k - 1)
  }

  /** The number a string of decimal digits denotes (most significant digit first). */
  function Value(s: seq<char>): nat
    requires AllDigits(s)
    decreases |s|
  {
    if s == [] then 0 else Value(s[..|s| - 1]) * 10 + DigitValue(s[|s| - 1])
  }

  /** The shortest decimal text of n: "0" for zero, otherwise no leading zero. */
  function Digits(n: nat): (s: seq<char>)
    ensures 1 <= |s| && AllDigits(s)
    decreases n
  {
    if n < 10 then [DigitChar(n)] else Digits(n / 10) + [DigitChar(n % 10)]
  }

  function Zeros(k: nat): (s: seq<char>)
    ensures |s| == k && AllDigits(s)
  {
    if k == 0 then [] else Zeros(k - 1) + ['0']
  }

  /** s left-padded with '0' to at least width characters. */
  function Pad(s: seq<char>, width: nat): (r: seq<char>)
    ensures |r| == if |s| < width then width else |s|
    ensures AllDigits(s) ==> AllDigits(r)
  {
    if |s| < width then Zeros(width - |s|) + s else s
  }

  /** "-" for negative numbers, nothing otherwise. */
  function SignText(x: int): string
  {
    if x < 0 then "-" else ""
  }

  /** The magnitude of x in decimal, zero-padded to at least width digits. */
  function Magnitude(x: int, width: nat): seq<char>
  {
    Pad(Digits(if x < 0 then -x else x), width)
  }

  /**
   * Go's time.appendInt: the decimal form of x, its magnitude zero-padded
   * to at least width digits, preceded by '-' when x is negative.
   */
  function FormatInt(x: int, width: nat): string
  {
    SignText(x) + Magnitude(x, width)
  }

  lemma {:induction false} ValueOfDigits(n: nat)
    ensures Value(Digits(n)) == n
    decreases n
  {
    if n >= 10 {
      ValueOfDigits(n / 10);
      var s := Digits(n);
      assert s[..|s| - 1] == Digits(n / 10);
    }
  }

  lemma {:induction false} ValueOfZeros(k: nat)
    ensures Value(Zeros(k)) == 0
  {
    if k > 0 {
      assert Zeros(k)[..k - 1] == Zeros(k - 1);
      ValueOfZeros(k - 1);
    }
  }

  /** Leading zeros do not change the value of a digit string. */
  lemma {:induction false} ValueIgnoresLeadingZeros(k: nat, s: seq<char>)
    requires AllDigits(s)
    ensures AllDigits(Zeros(k) + s) && Value(Zeros(k) + s) == Value(s)
    decreases |s|
  {
    var t := Zeros(k) + s;
    assert AllDigits(t) by {
      forall i | 0 <= i < |t| ensures IsDigit(t[i]) {
        if i < k { assert t[i] == Zeros(k)[i]; } else { assert t[i] == s[i - k]; }
      }
    }
    if s == [] {
      assert t == Zeros(k);
      ValueOfZeros(k);
    } else {
      var s' := s[..|s| - 1];
      assert t[..|t| - 1] == Zeros(k) + s';
      ValueIgnoresLeadingZeros(k, s');
    }
  }

  lemma {:induction false} ValueOfPad(s: seq<char>, width: nat)
    requires AllDigits(s)
    ensures Value(Pad(s, width)) == Value(s)
  {
    if |s| < width { ValueIgnoresLeadingZeros(width - |s|, s); }
  }

  /** A number below 10^k has at most k digits. */
  lemma {:induction false} DigitsLength(n: nat, k: nat)
    requires 1 <= k && n < Pow10(k)
    ensures |Digits(n)| <= k
    decreases n
  {
    if n >= 10 {
      assert n / 10 < Pow10(k - 1);
      DigitsLength(n / 10, k - 1);
    }
  }

  /** The magnitude part has at least width digits and reads back as |x|. */
  lemma {:induction false} MagnitudeValue(x: int, width: nat)
    ensures |Magnitude(x, width)| >= width && AllDigits(Magnitude(x, width))
    ensures Value(Magnitude(x, width)) == if x < 0 then -x else x
  {
    var m := if x < 0 then -x else x;
    ValueOfPad(Digits(m), width);
    ValueOfDigits(m);
  }

  /** A value in [0, 10^width) prints as exactly width digits and reads back as itself. */
  lemma {:induction false} FormatIntFixedWidth(x: int, width: nat)
    requires 1 <= width && 0 <= x < Pow10(width)
    ensures FormatInt(x, width) == Magnitude(x, width)
    ensures |FormatInt(x, width)| == width && AllDigits(FormatInt(x, width))
    ensures Value(FormatInt(x, width)) == x
  {
    DigitsLength(x, width);
    MagnitudeValue(x, width);
    assert FormatInt(x, width) == Magnitude(x, width);
  }
}
