/**
 * Decimal text of non-negative integers, as the game writes and reads it:
 * JavaScript's `String(n)` for a non-negative integer `n`, the value of a digit
 * string (`Number(s)`), the storage pattern `[1-9]\d*|0`, and `padStart`.
 */
module Decimal {

  predicate IsDigit(c: char)
  {
    '0' <= c <= '9'
  }

  predicate AllDigits(s: string)
  {
    forall i :: 0 <= i < |s| ==> IsDigit(s[i])
  }

  function DigitChar(d: nat): (c: char)
    requires d < 10
  {
    (('0' as int) + d) as char
  }

  function DigitValue(c: char): (d: nat)
    requires IsDigit(c)
  {
    (c as int) - ('0' as int)
  }

  function Pow10(k: nat): (p: nat)
    ensures p >= 1
  {
    if k == 0 then 1 else 10 * Pow10(k - 1)
  }

  /** `String(n)` for a non-negative integer: its digits, most significant first. */
  function DecimalString(n: nat): (s: string)
    ensures 1 <= |s| && AllDigits(s)
  {
    if n < 10 then [DigitChar(n)] else DecimalString(n / 10) + [DigitChar(n % 10)]
  }

  /** `Number(s)` for a string of decimal digits, leading zeros allowed. */
  function DecimalValue(s: string): nat
    requires AllDigits(s)
  {
    if s == [] then 0 else DecimalValue(s[..|s| - 1]) * 10 + DigitValue(s[|s| - 1])
  }

  /** The pattern `[1-9]\d*|0`: digits only, and no leading zero unless the string is "0". */
  predicate IsCanonicalDecimal(s: string)
  {
    1 <= |s| && AllDigits(s) && (s[0] == '0' ==> |s| == 1)
  }

  /** `String(n)` is canonical and reads back as `n`. */
  lemma {:induction false} DecimalStringRoundTrip(n: nat)
    ensures IsCanonicalDecimal(DecimalString(n))
    ensures DecimalValue(DecimalString(n)) == n
    decreases n
  {
    var s := DecimalString(n);
    if n >= 10 {
      var front := DecimalString(n / 10);
      DecimalStringRoundTrip(n / 10);
      assert s[..|s| - 1] == front;
    }
  }

  /** A digit string that does not start with '0' has a positive value. */
  lemma {:induction false} LeadingDigitPositive(s: string)
    requires AllDigits(s) && 1 <= |s| && s[0] != '0'
    ensures DecimalValue(s) > 0
    decreases |s|
  {
    if |s| > 1 {
      LeadingDigitPositive(s[..|s| - 1]);
    }
  }

  /** A canonical decimal is the `String` of its value: canonical text is unique. */
  lemma {:induction false} CanonicalDecimalRoundTrip(s: string)
    requires IsCanonicalDecimal(s)
    ensures DecimalString(DecimalValue(s)) == s
    decreases |s|
  {
    if |s| > 1 {
      var front := s[..|s| - 1];
      var d := DigitValue(s[|s| - 1]);
      LeadingDigitPositive(front);
      CanonicalDecimalRoundTrip(front);
      var v := DecimalValue(s);
      assert v == DecimalValue(front) * 10 + d;
      assert v / 10 == DecimalValue(front) && v % 10 == d;
      assert DigitChar(d) == s[|s| - 1];
    } else {
      assert DigitChar(DigitValue(s[0])) == s[0];
    }
  }

  /** `String(n)` has at most `k` digits exactly when `n < 10^k`. */
  lemma {:induction false} DecimalStringLength(n: nat, k: nat)
    requires 1 <= k
    ensures |DecimalString(n)| <= k <==> n < Pow10(k)
    decreases n
  {
    if n >= 10 {
      if k == 1 {
        assert |DecimalString(n)| >= 2;
      } else {
        DecimalStringLength(n / 10, k - 1);
        assert n / 10 < Pow10(k - 1) <==> n < Pow10(k);
      }
    } else {
      assert Pow10(k) == 10 * Pow10(k - 1);
    }
  }

  function Repeat(c: char, n: nat): (r: string)
    ensures |r| == n && forall i :: 0 <= i < n ==> r[i] == c
  {
    if n == 0 then [] else [c] + Repeat(c, n - 1)
  }

  /** `s.padStart(len, c)` with a one-character filler. */
  function PadStart(s: string, len: int, c: char): (r: string)
  {
    if len <= |s| then s else Repeat(c, len - |s|) + s
  }

  /** Padding with a filler keeps the text and makes it `len` long. */
  lemma PadStartShape(s: string, len: int, c: char)
    ensures |PadStart(s, len, c)| == if len <= |s| then |s| else len
    ensures PadStart(s, len, c)[|PadStart(s, len, c)| - |s|..] == s
    ensures forall i :: 0 <= i < |PadStart(s, len, c)| - |s| ==> PadStart(s, len, c)[i] == c
  {
  }

  /** Padding a digit string with zeros leaves a digit string at least `len` long. */
  lemma PadStartDigits(s: string, len: int)
    requires AllDigits(s)
    ensures |PadStart(s, len, '0')| >= len
    ensures AllDigits(PadStart(s, len, '0'))
  {
    if len > |s| {
      LeadingZerosValue(len - |s|, s);
    }
  }

  /** Leading zeros do not change the value of a digit string. */
  lemma {:induction false} LeadingZerosValue(z: nat, s: string)
    requires AllDigits(s)
    ensures AllDigits(Repeat('0', z) + s)
    ensures DecimalValue(Repeat('0', z) + s) == DecimalValue(s)
    decreases |s|
  {
    var t := Repeat('0', z) + s;
    if s == [] {
      assert t == Repeat('0', z);
      ZerosValue(z);
    } else {
      var front := s[..|s| - 1];
      LeadingZerosValue(z, front);
      assert t[..|t| - 1] == Repeat('0', z) + front;
    }
  }

  lemma {:induction false} ZerosValue(z: nat)
    ensures DecimalValue(Repeat('0', z)) == 0
  {
    if z > 0 {
      var t := Repeat('0', z);
      assert t[..|t| - 1] == Repeat('0', z - 1);
      ZerosValue(z - 1);
    }
  }
}
