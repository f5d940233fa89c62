/** Decimal digit strings, as JavaScript writes numbers into template literals
  * and as ISO dates spell their year, month and day fields. */
module DecimalText {

  predicate IsDigit(c: char) { '0' <= c <= '9' }

  predicate AllDigits(s: string) { forall i :: 0 <= i < |s| ==> IsDigit(s[i]) }

  function DigitValue(c: char): (d: int)
    requires IsDigit(c)
    ensures 0 <= d <= 9
  {
    c as int - '0' as int
  }

  function DigitChar(d: int): (c: char)
    requires 0 <= d <= 9
    ensures IsDigit(c) && DigitValue(c) == d
  {
    ('0' as int + d) as char
  }

  lemma DigitCharOfValue(c: char)
    requires IsDigit(c)
    ensures DigitChar(DigitValue(c)) == c
  {
  }

  function Pow10(k: nat): (p: nat)
    ensures p >= 1
  {
    if k == 0 then 1 else 10 * Pow10(k - 1)
  }

  /** The number a string of decimal digits denotes, most significant digit first. */
  function DigitsValue(s: string): (n: nat)
    requires AllDigits(s)
    ensures n < Pow10(|s|)
  {
    if |s| == 0 then 0 else DigitsValue(s[..|s| - 1]) * 10 + DigitValue(s[|s| - 1])
  }

  /** `n` written with exactly `width` digits, zero-padded on the left
    * (`String(n).padStart(width, '0')` for a number that fits). */
  function PadDigits(n: nat, width: nat): (s: string)
    requires n < Pow10(width)
    ensures |s| == width && AllDigits(s)
  {
    if width == 0 then "" else PadDigits(n / 10, width - 1) + [DigitChar(n % 10)]
  }

  /** The padded digits read back as the number. */
  lemma {:induction false} PadDigitsValue(n: nat, width: nat)
    requires n < Pow10(width)
    ensures DigitsValue(PadDigits(n, width)) == n
  {
    if width > 0 {
      var s := PadDigits(n, width);
      PadDigitsValue(n / 10, width - 1);
      assert s[..|s| - 1] == PadDigits(n / 10, width - 1);
    }
  }

  lemma ShiftDigit(a: nat, d: int)
    requires 0 <= d <= 9
    ensures (a * 10 + d) / 10 == a && (a * 10 + d) % 10 == d
  {
  }

  /** The value of a digit string: ten times its prefix's value plus its last digit. */
  lemma DigitsValueLast(s: string)
    requires AllDigits(s) && |s| > 0
    ensures AllDigits(s[..|s| - 1])
    ensures DigitsValue(s) == DigitsValue(s[..|s| - 1]) * 10 + DigitValue(s[|s| - 1])
  {
  }

  /** One step of the padding: the last digit of `n` after the padding of `n / 10`. */
  lemma PadDigitsStep(n: nat, width: nat)
    requires 0 < width && n < Pow10(width)
    ensures n / 10 < Pow10(width - 1)
    ensures PadDigits(n, width) == PadDigits(n / 10, width - 1) + [DigitChar(n % 10)]
  {
  }

  /** Padding `n = 10 a + d` appends digit `d` to the padding of `a`. */
  lemma PadDigitsAppend(n: nat, a: nat, d: int, width: nat)
    requires 0 <= d <= 9 && n == a * 10 + d && 0 < width && n < Pow10(width)
    ensures a < Pow10(width - 1)
    ensures PadDigits(n, width) == PadDigits(a, width - 1) + [DigitChar(d)]
  {
    ShiftDigit(a, d);
    PadDigitsStep(n, width);
  }

  /** Padding a digit string's value ends with its last digit, after the
    * padding of its prefix's value. */
  lemma PadDigitsLast(s: string)
    requires AllDigits(s) && |s| > 0
    ensures AllDigits(s[..|s| - 1])
    ensures PadDigits(DigitsValue(s), |s|) == PadDigits(DigitsValue(s[..|s| - 1]), |s| - 1) + [s[|s| - 1]]
  {
    DigitsValueLast(s);
    var c := s[|s| - 1];
    PadDigitsAppend(DigitsValue(s), DigitsValue(s[..|s| - 1]), DigitValue(c), |s|);
    DigitCharOfValue(c);
  }

  /** Reading a digit string and padding it back to its own width gives it back. */
  lemma {:induction false} PadDigitsOfValue(s: string)
    requires AllDigits(s)
    ensures PadDigits(DigitsValue(s), |s|) == s
  {
    if |s| > 0 {
      var prefix := s[..|s| - 1];
      PadDigitsLast(s);
      PadDigitsOfValue(prefix);
      assert s == prefix + [s[|s| - 1]];
    }
  }

  /** `String(n)` for a non-negative integer. */
  function NatToString(n: nat): (s: string)
    ensures |s| >= 1
  {
    if n < 10 then [DigitChar(n)] else NatToString(n / 10) + [DigitChar(n % 10)]
  }

  /** `String(n)` writes the decimal digits of `n`, with no leading zero except
    * for 0 itself. */
  lemma {:induction false} NatToStringDigits(n: nat)
    ensures var s := NatToString(n);
      AllDigits(s) && DigitsValue(s) == n && (|s| > 1 ==> s[0] != '0')
  {
    if n >= 10 {
      NatToStringDigits(n / 10);
      var s := NatToString(n);
      assert s[..|s| - 1] == NatToString(n / 10);
      assert s[0] == NatToString(n / 10)[0];
    }
  }

  /** `String(n)` for an integer: a minus sign before the digits of a negative one. */
  function IntToString(n: int): (s: string)
    ensures |s| >= 1
  {
    if n < 0 then "-" + NatToString(-n) else NatToString(n)
  }

  /** A minus sign exactly for negative numbers, then the digits of the magnitude. */
  lemma IntToStringDigits(n: int)
    ensures var s := IntToString(n);
      (n < 0 <==> s[0] == '-') &&
      (n >= 0 ==> AllDigits(s) && DigitsValue(s) == n) &&
      (n < 0 ==> AllDigits(s[1..]) && DigitsValue(s[1..]) == -n)
  {
    if n < 0 {
      NatToStringDigits(-n);
      assert IntToString(n)[1..] == NatToString(-n);
    } else {
      NatToStringDigits(n);
      assert IsDigit(IntToString(n)[0]);
    }
  }

  /** Different integers are written differently. */
  lemma IntToStringInjective(a: int, b: int)
    requires IntToString(a) == IntToString(b)
    ensures a == b
  {
    IntToStringDigits(a);
    IntToStringDigits(b);
    var s := IntToString(a);
    if a < 0 {
      assert s[1..] == IntToString(b)[1..];
    }
  }
}
