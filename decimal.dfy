/**
 * The two JavaScript number conversions the market page relies on, over
 * exact reals: `Number.prototype.toFixed(2)`, which prints a number with two
 * fraction digits, and the unary `+`, which reads such a string back.
 * Amounts read back are whole cents.
 */
module Decimal {
  import opened Wrappers

  predicate IsDigit(c: char)
  {
    '0' <= c <= '9'
  }

  predicate AllDigits(s: string)
  {
    forall c <- s :: IsDigit(c)
  }

  function Digit(d: nat): (c: char)
    requires d < 10
    ensures IsDigit(c)
  {
    "0123456789"[d]
  }

  function DigitValue(c: char): (d: nat)
    requires IsDigit(c)
    ensures d < 10
  {
    (c as int) - ('0' as int)
  }

  lemma DigitValueOfDigit(d: nat)
    requires d < 10
    ensures DigitValue(Digit(d)) == d
  {
  }

  /** The decimal numeral of `n`, without leading zeros. */
  function NatText(n: nat): (s: string)
    ensures |s| > 0 && AllDigits(s)
    ensures s[0] == '0' ==> n == 0 && s == "0"
  {
    if n < 10 then [Digit(n)] else NatText(n / 10) + [Digit(n % 10)]
  }

  /** The value of a string of decimal digits. */
  function DigitsValue(s: string): nat
    requires AllDigits(s)
  {
    if s == [] then 0 else DigitsValue(s[..|s| - 1]) * 10 + DigitValue(s[|s| - 1])
  }

  lemma {:induction false} NatTextRoundTrip(n: nat)
    ensures DigitsValue(NatText(n)) == n
  {
    if n >= 10 {
      var s := NatText(n / 10) + [Digit(n % 10)];
      assert s[..|s| - 1] == NatText(n / 10);
      NatTextRoundTrip(n / 10);
      DigitValueOfDigit(n % 10);
    } else {
      DigitValueOfDigit(n);
    }
  }

  /** Template-literal interpolation `${v}` of a whole number. */
  function IntText(v: int): (s: string)
    ensures |s| > 0
  {
    if v < 0 then "-" + NatText(-v) else NatText(v)
  }

  /** A whole number of cents `c` as `d.dd`. */
  function CentsText(c: nat): (s: string)
    ensures |s| >= 4 && s[|s| - 3] == '.'
  {
    NatText(c / 100) + "." + [Digit(c / 10 % 10), Digit(c % 10)]
  }

  /**
   * `d.toFixed(2)` for a number below 10^21: the cents nearest to `|d|`,
   * halves rounded up, printed after a "-" when `d` is negative.
   */
  function ToFixed2(d: real): string
  {
    if d < 0.0 then "-" + CentsText(((-d) * 100.0 + 0.5).Floor)
    else CentsText((d * 100.0 + 0.5).Floor)
  }

  /** The cents that `ToFixed2(d)` denotes: `d` rounded to cents, halves away from zero. */
  function RoundToCents(d: real): int
  {
    if d < 0.0 then -((-d) * 100.0 + 0.5).Floor else (d * 100.0 + 0.5).Floor
  }

  /**
   * Unary `+` on a string of the form `[-]digits.dd`, in cents; other
   * strings are outside this model (None).
   */
  function ParseCents(s: string): Option<int>
  {
    if |s| > 0 && s[0] == '-' then
      match ParseUnsignedCents(s[1..])
      case Some(c) => Some(-(c as int))
      case None => None
    else ParseUnsignedCents(s)
  }

  function ParseUnsignedCents(s: string): Option<nat>
  {
    if |s| >= 4 && s[|s| - 3] == '.' && AllDigits(s[..|s| - 3]) && IsDigit(s[|s| - 2]) && IsDigit(s[|s| - 1])
    then Some(DigitsValue(s[..|s| - 3]) * 100 + DigitValue(s[|s| - 2]) * 10 + DigitValue(s[|s| - 1]))
    else None
  }

  lemma CentsTextRoundTrip(c: nat)
    ensures ParseUnsignedCents(CentsText(c)) == Some(c)
    ensures CentsText(c)[0] != '-'
  {
    var s := CentsText(c);
    var whole := NatText(c / 100);
    assert s == whole + "." + [Digit(c / 10 % 10), Digit(c % 10)];
    assert s[..|s| - 3] == whole;
    assert s[|s| - 2] == Digit(c / 10 % 10) && s[|s| - 1] == Digit(c % 10);
    NatTextRoundTrip(c / 100);
    DigitValueOfDigit(c / 10 % 10);
    DigitValueOfDigit(c % 10);
    CentsSplit(c);
    assert s[0] == whole[0] && whole[0] in whole;
  }

  /** A whole number of cents is its whole units, tens digit and ones digit. */
  lemma CentsSplit(c: nat)
    ensures c == (c / 100) * 100 + (c / 10 % 10) * 10 + c % 10
  {
    assert c / 10 == (c / 100) * 10 + c / 10 % 10;
  }

  /** Reading back a printed amount, with or without a leading "-", gives its signed cents. */
  lemma SignedCentsRoundTrip(c: nat)
    ensures ParseCents(CentsText(c)) == Some(c as int)
    ensures ParseCents("-" + CentsText(c)) == Some(-(c as int))
  {
    CentsTextRoundTrip(c);
    assert ("-" + CentsText(c))[1..] == CentsText(c);
  }

  /** Reading back what `toFixed(2)` printed gives `d` rounded to whole cents. */
  lemma ToFixed2RoundTrip(d: real)
    ensures ParseCents(ToFixed2(d)) == Some(RoundToCents(d))
  {
    var c := if d < 0.0 then ((-d) * 100.0 + 0.5).Floor else (d * 100.0 + 0.5).Floor;
    SignedCentsRoundTrip(c);
  }

  /** An amount that is already whole cents prints exactly. */
  lemma WholeCentsExact(c: int)
    ensures RoundToCents(c as real / 100.0) == c
  {
  }

  /** For a whole number of cents, `toFixed(2)` reads back as exactly those cents. */
  lemma WholeCentsReadBack(c: int)
    ensures ParseCents(ToFixed2(c as real / 100.0)) == Some(c)
  {
    ToFixed2RoundTrip(c as real / 100.0);
    WholeCentsExact(c);
  }

  /**
   * For a whole number of cents `c`, `toFixed(2)` prints exactly those cents:
   * the `d.dd` text of `n = |c|`, after a "-" when `c` is negative.
   */
  lemma WholeCentsText(c: int, n: nat)
    requires n == if c < 0 then -c else c
    ensures c >= 0 ==> ToFixed2(c as real / 100.0) == CentsText(n)
    ensures c < 0 ==> ToFixed2(c as real / 100.0) == "-" + CentsText(n)
  {
    var d := c as real / 100.0;
    if c < 0 {
      assert (-d) * 100.0 + 0.5 == n as real + 0.5;
      assert ((-d) * 100.0 + 0.5).Floor == n;
    } else {
      assert d * 100.0 + 0.5 == n as real + 0.5;
      assert (d * 100.0 + 0.5).Floor == n;
    }
  }
}
