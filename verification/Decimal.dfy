/** Decimal numerals: what Python's `str(n)` prints and what `int(text)` reads back. */
module Decimal {

  predicate IsDigit(c: char) { '0' <= c <= '9' }

  predicate AllDigits(s: string) { forall i | 0 <= i < |s| :: IsDigit(s[i]) }

  function DigitValue(c: char): int { c as int - '0' as int }

  function DigitChar(d: int): (c: char)
    requires 0 <= d < 10
    ensures IsDigit(c) && DigitValue(c) == d
  {
    (d + '0' as int) as char
  }

  /** Reads a string of digits from the left, starting from the value already read. */
  function Horner(s: string, acc: int): int {
    if s == "" then acc else Horner(s[1..], acc * 10 + DigitValue(s[0]))
  }

  function Pow10(k: nat): (p: int)
    ensures p > 0
  {
    if k == 0 then 1 else 10 * Pow10(k - 1)
  }

  /** The numeral of a natural number, without leading zeros. */
  function Numeral(n: nat): (s: string)
    ensures s != "" && AllDigits(s)
    ensures s[0] == '0' <==> n == 0
    ensures n == 0 ==> s == "0"
  {
    if n < 10 then [DigitChar(n)] else Numeral(n / 10) + [DigitChar(n % 10)]
  }

  lemma {:induction false} HornerConcat(s: string, t: string, acc: int)
    ensures Horner(s + t, acc) == Horner(t, Horner(s, acc))
  {
    if s == "" {
      assert s + t == t;
    } else {
      assert (s + t)[1..] == s[1..] + t;
      HornerConcat(s[1..], t, acc * 10 + DigitValue(s[0]));
    }
  }

  /** The value already read is shifted by the number of digits that follow. */
  lemma {:induction false} HornerShift(s: string, acc: int)
    ensures Horner(s, acc) == acc * Pow10(|s|) + Horner(s, 0)
  {
    if s != "" {
      var d := DigitValue(s[0]);
      HornerShift(s[1..], acc * 10 + d);
      HornerShift(s[1..], d);
      var p := Pow10(|s| - 1);
      assert (acc * 10 + d) * p == acc * (10 * p) + d * p;
    }
  }

  lemma {:induction false} Pow10Adds(a: nat, b: nat)
    ensures Pow10(a + b) == Pow10(a) * Pow10(b)
  {
    if a != 0 {
      Pow10Adds(a - 1, b);
      assert Pow10(a + b) == 10 * Pow10(a - 1 + b);
    }
  }

  /** A digit's value is its place among the ten digits. */
  lemma DigitsExactly(c: char)
    requires IsDigit(c)
    ensures 0 <= DigitValue(c) < 10 && "0123456789"[DigitValue(c)] == c && DigitChar(DigitValue(c)) == c
  {
  }

  /** Each digit read counts one, and what was read before it ten times as much. */
  lemma {:induction false} HornerIsDecimal(s: string, c: char)
    requires IsDigit(c)
    ensures Horner("", 0) == 0 && Horner(s + [c], 0) == 10 * Horner(s, 0) + DigitValue(c)
  {
    HornerConcat(s, [c], 0);
    assert [c][1..] == "";
    assert Horner([c], Horner(s, 0)) == Horner("", Horner(s, 0) * 10 + DigitValue(c));
  }

  /** Reading a printed number gives the number back. */
  lemma {:induction false} NumeralReadsBack(n: nat)
    ensures Horner(Numeral(n), 0) == n
  {
    if n >= 10 {
      NumeralReadsBack(n / 10);
      var d := [DigitChar(n % 10)];
      HornerConcat(Numeral(n / 10), d, 0);
      assert d[1..] == "";
      assert Horner(d, n / 10) == n / 10 * 10 + n % 10;
    } else {
      var d := [DigitChar(n)];
      assert d[1..] == "";
    }
  }
}
