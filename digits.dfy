/** Decimal digit strings: reading them (as `str::parse` and chrono's
    scanner do) and writing them zero-padded (as `TO_CHAR` and
    `to_string` do). */
module Digits {

  predicate IsDigit(c: char) {
    '0' <= c <= '9'
  }

  predicate AllDigits(s: string) {
    forall i :: 0 <= i < |s| ==> IsDigit(s[i])
  }

  function DigitValue(c: char): (n: nat)
    requires IsDigit(c)
    ensures n < 10
  {
    c as int - '0' as int
  }

  function DigitChar(n: nat): (c: char)
    requires n < 10
    ensures IsDigit(c) && DigitValue(c) == n
  {
    ('0' as int + n) as char
  }

  function Pow10(k: nat): (p: nat)
    ensures p >= 1
  {
    if k == 0 then 1 else 10 * Pow10(k - 1)
  }

  /** The number a string of decimal digits denotes, most significant first. */
  function Value(s: string): nat
    requires AllDigits(s)
  {
    if s == [] then 0 else Value(s[..|s| - 1]) * 10 + DigitValue(s[|s| - 1])
  }

  /** `n` in decimal, left-padded with zeros to at least `width` characters
      (a number too wide for `width` is written in full). */
  function Decimal(n: nat, width: nat): (r: string)
    ensures AllDigits(r) && |r| >= 1 && |r| >= width
    decreases n + width
  {
    if n < 10 && width <= 1 then [DigitChar(n)]
    else Decimal(n / 10, if width == 0 then 0 else width - 1) + [DigitChar(n % 10)]
  }

  lemma ValueOfSnoc(s: string, c: char)
    requires AllDigits(s) && IsDigit(c)
    ensures AllDigits(s + [c]) && Value(s + [c]) == Value(s) * 10 + DigitValue(c)
  {
    assert (s + [c])[..|s|] == s;
  }

  lemma SplitLastDigit(n: nat)
    ensures n / 10 * 10 + n % 10 == n
  {
  }

  /** Reading back what `Decimal` writes gives the number again. */
  lemma {:induction false} ValueOfDecimal(n: nat, width: nat)
    ensures Value(Decimal(n, width)) == n
    decreases n + width
  {
    if n < 10 && width <= 1 {
      assert Decimal(n, width) == [] + [DigitChar(n)];
      ValueOfSnoc([], DigitChar(n));
    } else {
      var w := if width == 0 then 0 else width - 1;
      var front := Decimal(n / 10, w);
      assert Decimal(n, width) == front + [DigitChar(n % 10)];
      ValueOfDecimal(n / 10, w);
      ValueOfSnoc(front, DigitChar(n % 10));
      SplitLastDigit(n);
    }
  }

  /** `Decimal` fills exactly `width` characters when the number fits in them,
      and more when it does not. */
  lemma {:induction false} DecimalLength(n: nat, width: nat)
    requires width >= 1
    ensures n < Pow10(width) ==> |Decimal(n, width)| == width
    ensures n >= Pow10(width) ==> |Decimal(n, width)| > width
    decreases width
  {
    if n < 10 && width <= 1 {
    } else if width >= 2 {
      DecimalLength(n / 10, width - 1);
    }
  }
}
