/**
 * Decimal numerals over a run of ten consecutive digit characters.
 *
 * The repository writes numbers in two alphabets: `strconv.Itoa` in the
 * names' fallback text uses ASCII '0'..'9', and the formatter's `appendInt`
 * and `formatNano` use the Persian digits U+06F0..U+06F9, computed as the
 * zero digit plus the digit's value. Both are the same numeral with a
 * different zero.
 */
module Decimal {

  const AsciiZero: char := '0'
  const PersianZero: char := '\U{06F0}'

  /** The zero characters in use; the nine characters after each are its digits. */
  predicate IsZeroDigit(zero: char) {
    zero == AsciiZero || zero == PersianZero
  }

  predicate IsDigitOf(c: char, zero: char) {
    zero as int <= c as int <= zero as int + 9
  }

  /** The character of digit `d`: the zero plus `d`, as `'0' + d` and `'۰' + d` in Go. */
  function DigitChar(d: int, zero: char): (c: char)
    requires 0 <= d < 10 && IsZeroDigit(zero)
    ensures IsDigitOf(c, zero) && c as int - zero as int == d
  {
    (zero as int + d) as char
  }

  /** The decimal digits of `n`, most significant first, with no leading zero. */
  function Digits(n: nat, zero: char): (s: string)
    requires IsZeroDigit(zero)
    ensures 1 <= |s|
    decreases n
  {
    if n < 10 then [DigitChar(n, zero)] else Digits(n / 10, zero) + [DigitChar(n % 10, zero)]
  }

  /** The value of a numeral, read most significant digit first. */
  function ValueOf(s: string, zero: char): int
    decreases |s|
  {
    if |s| == 0 then 0 else ValueOf(s[..|s| - 1], zero) * 10 + (s[|s| - 1] as int - zero as int)
  }

  predicate AllDigits(s: string, zero: char) {
    forall i :: 0 <= i < |s| ==> IsDigitOf(s[i], zero)
  }

  /**
   * `Digits` writes `n` exactly: reading it back gives `n`, every character
   * is a digit, and only the numeral of zero starts with the zero digit.
   */
  lemma {:induction false} DigitsRoundTrip(n: nat, zero: char)
    requires IsZeroDigit(zero)
    ensures ValueOf(Digits(n, zero), zero) == n
    ensures AllDigits(Digits(n, zero), zero)
    ensures Digits(n, zero)[0] == zero <==> n == 0
    decreases n
  {
    var s := Digits(n, zero);
    if 10 <= n {
      DigitsRoundTrip(n / 10, zero);
      assert s[..|s| - 1] == Digits(n / 10, zero);
      assert s[0] == Digits(n / 10, zero)[0];
    }
  }

  /** A numeral of `k` digits stays below `10^k`; one with no leading zero reaches `10^(k-1)`. */
  function Pow10(k: nat): (p: nat)
    ensures 1 <= p
  {
    if k == 0 then 1 else 10 * Pow10(k - 1)
  }

  lemma {:induction false} DigitsLength(n: nat, zero: char)
    requires IsZeroDigit(zero)
    ensures n < Pow10(|Digits(n, zero)|)
    ensures 10 <= n ==> Pow10(|Digits(n, zero)| - 1) <= n
    decreases n
  {
    if 10 <= n {
      DigitsLength(n / 10, zero);
    }
  }

  /** Reading a numeral in two parts: the digits of `t` are the low `|t|` places. */
  lemma {:induction false} ValueOfConcat(s: string, t: string, zero: char)
    ensures ValueOf(s + t, zero) == ValueOf(s, zero) * Pow10(|t|) + ValueOf(t, zero)
    decreases |t|
  {
    if |t| > 0 {
      var t' := t[..|t| - 1];
      assert (s + t)[..|s + t| - 1] == s + t';
      ValueOfConcat(s, t', zero);
      var d := t[|t| - 1] as int - zero as int;
      assert ValueOf(s + t, zero) == ValueOf(s + t', zero) * 10 + d;
      assert ValueOf(t, zero) == ValueOf(t', zero) * 10 + d;
      ShiftPlace(ValueOf(s, zero), Pow10(|t'|), ValueOf(t', zero));
    } else {
      assert s + t == s;
    }
  }

  /** One more low digit multiplies the high part's weight by ten. */
  lemma ShiftPlace(a: int, p: int, v: int)
    ensures (a * p + v) * 10 == a * (10 * p) + v * 10
  {
  }

  /** `ValueOfConcat` at a cut point of one numeral. */
  lemma ValueOfSplit(s: string, m: nat, zero: char)
    requires m <= |s|
    ensures ValueOf(s, zero) == ValueOf(s[..m], zero) * Pow10(|s| - m) + ValueOf(s[m..], zero)
  {
    assert s[..m] + s[m..] == s;
    ValueOfConcat(s[..m], s[m..], zero);
  }

  /** A numeral of `k` digits is below `10^k`. */
  lemma {:induction false} ValueOfBound(s: string, zero: char)
    requires AllDigits(s, zero)
    ensures 0 <= ValueOf(s, zero) < Pow10(|s|)
    decreases |s|
  {
    if |s| > 0 {
      ValueOfBound(s[..|s| - 1], zero);
    }
  }

  /** Leading zeros do not change a numeral's value. */
  lemma {:induction false} LeadingZeros(n: nat, t: string, zero: char)
    ensures ValueOf(Repeat(zero, n) + t, zero) == ValueOf(t, zero)
    ensures AllDigits(t, zero) ==> AllDigits(Repeat(zero, n) + t, zero)
  {
    ValueOfConcat(Repeat(zero, n), t, zero);
    ZerosValue(n, zero);
  }

  lemma {:induction false} ZerosValue(n: nat, zero: char)
    ensures ValueOf(Repeat(zero, n), zero) == 0
  {
    if n > 0 {
      assert Repeat(zero, n)[..n - 1] == Repeat(zero, n - 1);
      ZerosValue(n - 1, zero);
    }
  }

  /** `n` copies of the character `c`. */
  function Repeat(c: char, n: nat): (s: string)
    ensures |s| == n && forall i :: 0 <= i < n ==> s[i] == c
  {
    if n == 0 then [] else Repeat(c, n - 1) + [c]
  }

  /**
   * `strconv.Itoa`: the decimal form of `n` in ASCII digits. The text starts
   * with '-' exactly when `n` is negative, the rest is digits, and `Atoi`
   * reads it back as `n`.
   */
  function Itoa(n: int): (s: string)
    ensures 0 < |s| && (s[0] == '-' <==> n < 0)
    ensures AllDigits(s[(if n < 0 then 1 else 0)..], AsciiZero)
    ensures Atoi(s) == n
  {
    if n < 0 then
      var d := Digits(-n, AsciiZero);
      DigitsRoundTrip(-n, AsciiZero);
      assert ("-" + d)[1..] == d;
      "-" + d
    else
      DigitsRoundTrip(n, AsciiZero);
      Digits(n, AsciiZero)
  }

  /** Reading a numeral written by `Itoa` back: an optional '-' and then digits. */
  function Atoi(s: string): int {
    if 0 < |s| && s[0] == '-' then -ValueOf(s[1..], AsciiZero) else ValueOf(s, AsciiZero)
  }

  /** `Itoa` loses nothing: `Atoi` reads every integer back, so distinct integers get distinct text. */
  lemma ItoaRoundTrip(n: int)
    ensures Atoi(Itoa(n)) == n
    ensures AllDigits(Itoa(n)[(if n < 0 then 1 else 0)..], AsciiZero)
  {
  }

  lemma ItoaInjective(a: int, b: int)
    requires Itoa(a) == Itoa(b)
    ensures a == b
  {
    ItoaRoundTrip(a);
    ItoaRoundTrip(b);
  }
}
