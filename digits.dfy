/**
 * Decimal text of natural numbers: the fixed-width, zero-padded fields that
 * `strftime` writes (`%Y`, `%m`, `%d`), the shortest form Python's `str`
 * gives an integer, and the value a string of digits denotes.
 */
module Digits {

  predicate IsDigit(c: char) {
    '0' <= c <= '9'
  }

  predicate AllDigits(s: string) {
    forall i :: 0 <= i < |s| ==> IsDigit(s[i])
  }

  function DigitValue(c: char): (d: nat)
    requires IsDigit(c)
    ensures d < 10
  {
    c as int - '0' as int
  }

  function DigitChar(d: nat): (c: char)
    requires d < 10
    ensures IsDigit(c) && DigitValue(c) == d
  {
    ('0' as int + d) as char
  }

  lemma DigitCharValue(c: char)
    requires IsDigit(c)
    ensures DigitChar(DigitValue(c)) == c
  {
  }

  function Pow10(w: nat): (p: nat)
    ensures p >= 1
  {
    if w == 0 then 1 else 10 * Pow10(w - 1)
  }

  /** The number a non-empty or empty string of digits denotes (0 for ""). */
  function Value(s: string): (n: nat)
    requires AllDigits(s)
    ensures n < Pow10(|s|)
  {
    if s == "" then 0 else 10 * Value(s[..|s| - 1]) + DigitValue(s[|s| - 1])
  }

  /** The low `w` decimal digits of `n`, zero-padded on the left. */
  function Padded(n: nat, w: nat): (s: string)
    ensures |s| == w && AllDigits(s)
  {
    if w == 0 then "" else Padded(n / 10, w - 1) + [DigitChar(n % 10)]
  }

  /** Python's `str(n)` for a non-negative integer: no leading zeros. */
  function Decimal(n: nat): (s: string)
    ensures |s| >= 1 && AllDigits(s)
  {
    if n < 10 then [DigitChar(n)] else Decimal(n / 10) + [DigitChar(n % 10)]
  }

  /** A zero-padded field denotes the number it was written from, when that fits. */
  lemma {:induction false} ValuePadded(n: nat, w: nat)
    requires n < Pow10(w)
    ensures Value(Padded(n, w)) == n
  {
    if w > 0 {
      var s := Padded(n, w);
      assert s[..w - 1] == Padded(n / 10, w - 1);
      ValuePadded(n / 10, w - 1);
    }
  }

  /** Reading a field of digits and writing it back at the same width gives it back. */
  lemma {:induction false} PaddedValue(s: string)
    requires AllDigits(s)
    ensures Padded(Value(s), |s|) == s
  {
    if s != "" {
      var init, c := s[..|s| - 1], s[|s| - 1];
      PaddedValue(init);
      var n := Value(s);
      SplitLastDigit(Value(init), DigitValue(c));
      DigitCharValue(c);
      assert Padded(n, |s|) == Padded(Value(init), |init|) + [DigitChar(DigitValue(c))];
      assert s == init + [c];
    }
  }

  lemma SplitLastDigit(v: nat, d: nat)
    requires d < 10
    ensures (10 * v + d) / 10 == v && (10 * v + d) % 10 == d
  {
  }

  /** The shortest decimal form denotes the number it was written from. */
  lemma {:induction false} ValueDecimal(n: nat)
    ensures Value(Decimal(n)) == n
  {
    if n >= 10 {
      var s := Decimal(n);
      assert s[..|s| - 1] == Decimal(n / 10);
      ValueDecimal(n / 10);
    }
  }

  /** A two-digit field spelled out: tens digit, then units digit. */
  lemma PaddedTwo(m: nat)
    requires m < 100
    ensures Padded(m, 2) == [DigitChar(m / 10), DigitChar(m % 10)]
  {
    var tens := m / 10;
    assert Padded(m, 2) == Padded(tens, 1) + [DigitChar(m % 10)];
    assert tens % 10 == tens && tens / 10 == 0;
    assert Padded(tens, 1) == Padded(0, 0) + [DigitChar(tens)];
  }
}
