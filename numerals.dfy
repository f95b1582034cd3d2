/**
 Decimal numerals: how an integer header value (`1000`, `0`, `40`) is written
 as text and read back. Reading never fails loudly: anything that is not a
 non-empty run of ASCII digits reads as `None`.
 */
module Numerals {
  import opened Wrappers

  predicate IsDigit(c: char) {
    '0' <= c <= '9'
  }

  predicate AllDigits(s: string) {
    forall i :: 0 <= i < |s| ==> IsDigit(s[i])
  }

  function Pow10(k: nat): (p: nat)
    ensures p >= 1
  {
    if k == 0 then 1 else 10 * Pow10(k - 1)
  }

  function DigitValue(c: char): (d: nat)
    requires IsDigit(c)
    ensures d < 10
  {
    (c as int) - ('0' as int)
  }

  function DigitChar(d: nat): (c: char)
    requires d < 10
    ensures IsDigit(c) && DigitValue(c) == d
  {
    (('0' as int) + d) as char
  }

  lemma DigitCharOfValue(c: char)
    requires IsDigit(c)
    ensures DigitChar(DigitValue(c)) == c
  {
  }

  /** The number a string of digits denotes, most significant digit first. */
  function ValueOf(s: string): (n: nat)
    requires AllDigits(s)
    ensures n < Pow10(|s|)
    decreases |s|
  {
    if |s| == 0 then 0 else 10 * ValueOf(s[..|s| - 1]) + DigitValue(s[|s| - 1])
  }

  /** `n` written with exactly `width` digits, padded with leading zeros. */
  function Fixed(n: nat, width: nat): (s: string)
    ensures |s| == width && AllDigits(s)
  {
    if width == 0 then [] else Fixed(n / 10, width - 1) + [DigitChar(n % 10)]
  }

  /** `n` written in decimal without leading zeros (the way PHP prints an int). */
  function Decimal(n: nat): (s: string)
    ensures |s| > 0 && AllDigits(s)
    ensures |s| == 1 || s[0] != '0'
  {
    if n < 10 then [DigitChar(n)] else Decimal(n / 10) + [DigitChar(n % 10)]
  }

  /** Reads a header value as a non-negative integer; `None` unless it is all digits. */
  function ParseNat(s: string): (r: Option<nat>)
    ensures r.Some? <==> |s| > 0 && AllDigits(s)
    ensures r.Some? ==> r.value < Pow10(|s|)
  {
    if |s| > 0 && AllDigits(s) then Some(ValueOf(s)) else None
  }

  lemma {:induction false} ValueOfFixed(n: nat, width: nat)
    requires n < Pow10(width)
    ensures ValueOf(Fixed(n, width)) == n
  {
    if width > 0 {
      var s := Fixed(n, width);
      assert s[..|s| - 1] == Fixed(n / 10, width - 1);
      ValueOfFixed(n / 10, width - 1);
    }
  }

  lemma {:induction false} FixedOfValue(s: string)
    requires AllDigits(s)
    ensures Fixed(ValueOf(s), |s|) == s
  {
    if |s| > 0 {
      var init, last := s[..|s| - 1], s[|s| - 1];
      var n := ValueOf(s);
      assert n == 10 * ValueOf(init) + DigitValue(last);
      assert n / 10 == ValueOf(init) && n % 10 == DigitValue(last);
      FixedOfValue(init);
      DigitCharOfValue(last);
      assert Fixed(n, |s|) == Fixed(n / 10, |s| - 1) + [DigitChar(n % 10)];
      assert s == init + [last];
    }
  }

  lemma {:induction false} ValueOfDecimal(n: nat)
    ensures ValueOf(Decimal(n)) == n
  {
    if n >= 10 {
      var s := Decimal(n);
      assert s[..|s| - 1] == Decimal(n / 10);
      ValueOfDecimal(n / 10);
    }
  }

  /** A value written by `Decimal` reads back as itself. */
  lemma ParseDecimal(n: nat)
    ensures ParseNat(Decimal(n)) == Some(n)
  {
    ValueOfDecimal(n);
  }

  /** A numeral without leading zeros is at least 10^(length - 1). */
  lemma {:induction false} ValueOfLowerBound(s: string)
    requires |s| > 0 && AllDigits(s) && s[0] != '0'
    ensures ValueOf(s) >= Pow10(|s| - 1)
  {
    if |s| > 1 {
      ValueOfLowerBound(s[..|s| - 1]);
    }
  }

  /** Conversely, a numeral without leading zeros is exactly how `Decimal` writes its value. */
  lemma {:induction false} DecimalOfParse(s: string)
    requires ParseNat(s).Some?
    requires |s| == 1 || s[0] != '0'
    ensures Decimal(ParseNat(s).value) == s
  {
    var n := ValueOf(s);
    if |s| == 1 {
      DigitCharOfValue(s[0]);
      assert s == [s[0]];
    } else {
      var init := s[..|s| - 1];
      ValueOfLowerBound(s);
      assert Pow10(|s| - 1) >= 10 by {
        assert Pow10(1) == 10;
        Pow10Monotone(1, |s| - 1);
      }
      assert n / 10 == ValueOf(init);
      DecimalOfParse(init);
      DigitCharOfValue(s[|s| - 1]);
      assert s == init + [s[|s| - 1]];
    }
  }

  lemma {:induction false} Pow10Monotone(i: nat, j: nat)
    requires i <= j
    ensures Pow10(i) <= Pow10(j)
  {
    if i < j {
      Pow10Monotone(i, j - 1);
    }
  }
}
