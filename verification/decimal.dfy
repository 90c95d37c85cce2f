/** Decimal text of natural numbers: Python's `str(n)`, `int(s)` and the
    zero-padded formats `{n:06d}`, `%Y`, `%m` and `%d`. */
module Decimal {
  import opened Common

  predicate IsDigit(c: char)
  {
    '0' <= c <= '9'
  }

  predicate AllDigits(s: string)
  {
    forall i :: 0 <= i < |s| ==> IsDigit(s[i])
  }

  function DigitValue(c: char): (d: nat)
    requires IsDigit(c)
    ensures d < 10
  {
    (c as int - '0' as int) as nat
  }

  function DigitChar(d: nat): (c: char)
    requires d < 10
    ensures IsDigit(c) && DigitValue(c) == d
  {
    ('0' as int + d) as char
  }

  function Pow10(n: nat): (p: nat)
    ensures p >= 1
  {
    if n == 0 then 1 else 10 * Pow10(n - 1)
  }

  /** `str(n)` for a non-negative integer: no leading zeros. */
  function DecimalString(n: nat): (s: string)
    ensures 1 <= |s| && AllDigits(s)
    ensures |s| > 1 ==> s[0] != '0'
  {
    if n < 10 then [DigitChar(n)] else DecimalString(n / 10) + [DigitChar(n % 10)]
  }

  /** `int(s)` for a string of ASCII digits. */
  function ParseDecimal(s: string): (n: nat)
    requires AllDigits(s)
    ensures n < Pow10(|s|)
  {
    if s == [] then 0 else ParseDecimal(s[..|s| - 1]) * 10 + DigitValue(s[|s| - 1])
  }

  function Zeros(k: nat): (s: string)
    ensures |s| == k && AllDigits(s)
  {
    if k == 0 then [] else Zeros(k - 1) + ['0']
  }

  /** Python's `format(n, '0<width>d')`: `str(n)` left-padded with zeros to at
      least `width` characters; a longer number is never truncated. */
  function ZeroPad(n: nat, width: nat): (s: string)
    ensures |s| == Max(width, |DecimalString(n)|)
    ensures AllDigits(s)
  {
    var d := DecimalString(n);
    if |d| < width then Zeros(width - |d|) + d else d
  }

  lemma {:induction false} ParseConcat(a: string, b: string)
    requires AllDigits(a) && AllDigits(b)
    ensures AllDigits(a + b)
    ensures ParseDecimal(a + b) == ParseDecimal(a) * Pow10(|b|) + ParseDecimal(b)
    decreases |b|
  {
    var ab := a + b;
    assert AllDigits(ab);
    if b == [] {
      assert ab == a;
    } else {
      var b' := b[..|b| - 1];
      var d := DigitValue(b[|b| - 1]);
      assert ab[..|ab| - 1] == a + b';
      assert ab[|ab| - 1] == b[|b| - 1];
      ParseConcat(a, b');
      assert ParseDecimal(ab) == ParseDecimal(a + b') * 10 + d;
      assert ParseDecimal(b) == ParseDecimal(b') * 10 + d;
      ShiftIdentity(ParseDecimal(a), ParseDecimal(b'), Pow10(|b'|), d);
    }
  }

  lemma ShiftIdentity(x: int, y: int, p: int, d: int)
    ensures (x * p + y) * 10 + d == x * (10 * p) + (y * 10 + d)
  {
  }

  /** `int(str(n)) == n`. */
  lemma {:induction false} ParseDecimalString(n: nat)
    ensures ParseDecimal(DecimalString(n)) == n
    decreases n
  {
    if n >= 10 {
      ParseDecimalString(n / 10);
      var s := DecimalString(n);
      assert s[..|s| - 1] == DecimalString(n / 10);
    }
  }

  lemma {:induction false} ParseZeros(k: nat, s: string)
    requires AllDigits(s)
    ensures AllDigits(Zeros(k) + s) && ParseDecimal(Zeros(k) + s) == ParseDecimal(s)
  {
    ParseConcat(Zeros(k), s);
    ParseAllZeros(k);
  }

  lemma {:induction false} ParseAllZeros(k: nat)
    ensures ParseDecimal(Zeros(k)) == 0
  {
    if k > 0 {
      ParseAllZeros(k - 1);
      assert Zeros(k)[..k - 1] == Zeros(k - 1);
    }
  }

  /** Zero padding never changes the number the digits denote. */
  lemma ParseZeroPad(n: nat, width: nat)
    ensures ParseDecimal(ZeroPad(n, width)) == n
  {
    ParseDecimalString(n);
    var d := DecimalString(n);
    if |d| < width {
      ParseZeros(width - |d|, d);
    }
  }

  /** Two numbers with the same padded text are equal. */
  lemma ZeroPadInjective(n: nat, m: nat, width: nat)
    requires ZeroPad(n, width) == ZeroPad(m, width)
    ensures n == m
  {
    ParseZeroPad(n, width);
    ParseZeroPad(m, width);
  }

  lemma {:induction false} Pow10Monotone(a: nat, b: nat)
    requires a <= b
    ensures Pow10(a) <= Pow10(b)
    decreases b
  {
    if a < b {
      Pow10Monotone(a, b - 1);
    }
  }

  /** `str(n)` has at least as many digits as the magnitude of `n` demands. */
  lemma {:induction false} DecimalStringLower(n: nat)
    ensures |DecimalString(n)| == 1 || Pow10(|DecimalString(n)| - 1) <= n
    decreases n
  {
    if n >= 10 {
      DecimalStringLower(n / 10);
    }
  }

  /** `str(n)` fits in `width` characters exactly when `n < 10^width`. */
  lemma DecimalStringFits(n: nat, width: nat)
    requires width >= 1
    ensures |DecimalString(n)| <= width <==> n < Pow10(width)
  {
    var k := |DecimalString(n)|;
    ParseDecimalString(n);
    DecimalStringLower(n);
    if k <= width {
      Pow10Monotone(k, width);
    } else {
      Pow10Monotone(width, k - 1);
    }
  }
}
