/** IBAN check digits: MOD 97-10 of ISO/IEC 7064 as ISO 13616-1 applies it. */
module Iban {
  import opened Prelude
  import opened Decimal

  predicate IsLetter(c: char) { 'A' <= c <= 'Z' }

  predicate IsAlphanumeric(c: char) { IsDigit(c) || IsLetter(c) }

  predicate Alphanumeric(s: string) { forall i | 0 <= i < |s| :: IsAlphanumeric(s[i]) }

  /** A letter's number: A is 10, Z is 35. A digit's number is its own value. */
  function CharValue(c: char): (v: int)
    requires IsAlphanumeric(c)
    ensures if IsDigit(c) then 0 <= v < 10 else 10 <= v < 36
  {
    if IsDigit(c) then DigitValue(c) else 10 + (c as int - 'A' as int)
  }

  /** The number of a character is its place among the digits and the letters. */
  lemma CharValueExactly(c: char)
    requires IsAlphanumeric(c)
    ensures 0 <= CharValue(c) < 36 && "0123456789ABCDEFGHIJKLMNOPQRSTUVWXYZ"[CharValue(c)] == c
  {
  }

  function Expand(c: char): string
    requires IsAlphanumeric(c)
  {
    if IsDigit(c) then [c] else Numeral(CharValue(c))
  }

  lemma ExpandOne(c: char)
    requires IsAlphanumeric(c)
    ensures |Expand(c)| == (if IsDigit(c) then 1 else 2)
    ensures Horner(Expand(c), 0) == CharValue(c)
    ensures ExpandAll([c]) == Expand(c) && Value([c]) == CharValue(c)
  {
    assert [c][1..] == "";
    NumeralReadsBack(CharValue(c));
  }

  /** A digit stands for itself, a letter for the two digits of its number. */
  lemma ExpandExactly(c: char)
    requires IsAlphanumeric(c)
    ensures IsDigit(c) ==> Expand(c) == [c]
    ensures IsLetter(c) ==>
      && |Expand(c)| == 2
      && Expand(c)[0] == "0123456789"[CharValue(c) / 10] && Expand(c)[1] == "0123456789"[CharValue(c) % 10]
  {
    if IsLetter(c) {
      var n := CharValue(c);
      DigitsExactly(DigitChar(n / 10));
      DigitsExactly(DigitChar(n % 10));
      assert Numeral(n) == Numeral(n / 10) + [DigitChar(n % 10)] && Numeral(n / 10) == [DigitChar(n / 10)];
    }
  }

  function ExpandAll(s: string): string
    requires Alphanumeric(s)
  {
    if s == "" then "" else Expand(s[0]) + ExpandAll(s[1..])
  }

  /** The number an arranged IBAN stands for. */
  function Value(s: string): int
    requires Alphanumeric(s)
  {
    Horner(ExpandAll(s), 0)
  }

  // ----- The code -----

  /** Spells every character in digits; other characters raise an error. */
  method NumericValue(iban: string) returns (r: Option<string>)
    ensures r.Some? <==> Alphanumeric(iban)
    ensures r.Some? ==> r.value == ExpandAll(iban)
  {
    var result := "";
    for i := 0 to |iban|
      invariant Alphanumeric(iban[..i])
      invariant result == ExpandAll(iban[..i])
    {
      if !IsAlphanumeric(iban[i]) { return None; }
      assert iban[..i + 1] == iban[..i] + [iban[i]];
      ExpandAllConcat(iban[..i], [iban[i]]);
      ExpandOne(iban[i]);
      result := result + Expand(iban[i]);
    }
    assert iban[..|iban|] == iban;
    r := Some(result);
  }

  function TwoDigits(n: int): (s: string)
    requires 0 <= n < 100
    ensures |s| == 2 && AllDigits(s)
  {
    [DigitChar(n / 10), DigitChar(n % 10)]
  }

  function CheckNumber(country: string, bban: string): (n: int)
    requires Alphanumeric(bban + country)
    ensures 2 <= n <= 98
  {
    98 - Value(bban + country + "00") % 97
  }

  /** The check characters, as a function of the country code and the BBAN. */
  function CheckDigits(country: string, bban: string): (s: string)
    requires Alphanumeric(bban + country)
    ensures |s| == 2 && AllDigits(s)
  {
    TwoDigits(CheckNumber(country, bban))
  }

  method ComputeCheckDigits(country: string, bban: string) returns (r: Option<string>)
    ensures r.Some? <==> Alphanumeric(bban + country)
    ensures r.Some? ==> r.value == CheckDigits(country, bban)
  {
    var rearranged := bban + country + "00";
    assert Alphanumeric(rearranged) <==> Alphanumeric(bban + country) by {
      assert forall i | 0 <= i < |bban + country| :: rearranged[i] == (bban + country)[i];
      assert forall i | |bban + country| <= i < |rearranged| :: rearranged[i] == '0';
    }
    var numeric := NumericValue(rearranged);
    if numeric.None? { return None; }
    var remainder := Horner(numeric.value, 0) % 97;
    r := Some(TwoDigits(98 - remainder));
  }

  /** An IBAN is its country code, its two check characters and its BBAN. It is valid when the
      number of BBAN, country code and check characters, in this order, is 1 modulo 97. */
  predicate ValidIban(country: string, check: string, bban: string)
    requires Alphanumeric(country) && Alphanumeric(check) && Alphanumeric(bban)
  {
    Value(bban + country + check) % 97 == 1
  }

  /** A fresh Pakistani IBAN; the sixteen random digits are the parameter. */
  method NewIban(accountNo: string) returns (iban: string)
    requires |accountNo| == 16 && AllDigits(accountNo)
    ensures |iban| == 24 && Alphanumeric(iban)
    ensures iban[..2] == "PK" && iban[4..8] == "SCBL" && iban[8..] == accountNo
    ensures ValidIban(iban[..2], iban[2..4], iban[4..]) && Issued(iban) && Valid(iban)
  {
    var bban := "SCBL" + accountNo;
    var check := ComputeCheckDigits("PK", bban);
    ValidCheckDigits("PK", bban);
    iban := "PK" + check.value + bban;
    assert iban[2..4] == check.value && iban[4..] == bban && iban[..2] == "PK";
    assert iban[4..8] == "SCBL" && iban[8..] == accountNo;
    assert iban[2] == check.value[0] && iban[3] == check.value[1];
    assert Rearranged(iban) == bban + "PK" + check.value;
  }

  // ----- Positional arithmetic -----

  lemma AlphanumericConcat(s: string, t: string)
    requires Alphanumeric(s) && Alphanumeric(t)
    ensures Alphanumeric(s + t)
  {
  }

  lemma {:induction false} ExpandAllConcat(s: string, t: string)
    requires Alphanumeric(s) && Alphanumeric(t)
    ensures Alphanumeric(s + t) && ExpandAll(s + t) == ExpandAll(s) + ExpandAll(t)
  {
    AlphanumericConcat(s, t);
    if s == "" {
      assert s + t == t;
    } else {
      var u := s[1..] + t;
      assert (s + t)[0] == s[0] && (s + t)[1..] == u;
      ExpandAllConcat(s[1..], t);
      assert ExpandAll(s + t) == Expand(s[0]) + ExpandAll(u);
      Associative(Expand(s[0]), ExpandAll(s[1..]), ExpandAll(t));
    }
  }

  lemma Associative(a: string, b: string, c: string)
    ensures a + (b + c) == a + b + c
  {
  }

  /** The text handed to `int` is a numeral. */
  lemma {:induction false} ExpandsToDigits(s: string)
    requires Alphanumeric(s)
    ensures AllDigits(ExpandAll(s))
    ensures s != "" ==> ExpandAll(s) != ""
  {
    if s != "" {
      ExpandsToDigits(s[1..]);
    }
  }

  function Digits(s: string): nat
    requires Alphanumeric(s)
  {
    |ExpandAll(s)|
  }

  /** The number of a concatenation. */
  lemma ValueConcat(s: string, t: string)
    requires Alphanumeric(s) && Alphanumeric(t)
    ensures Alphanumeric(s + t)
    ensures Value(s + t) == Value(s) * Pow10(Digits(t)) + Value(t)
    ensures Digits(s + t) == Digits(s) + Digits(t)
  {
    ExpandAllConcat(s, t);
    HornerConcat(ExpandAll(s), ExpandAll(t), 0);
    HornerShift(ExpandAll(t), Value(s));
  }

  lemma {:induction false} AllDigitsValue(s: string)
    requires AllDigits(s)
    ensures Alphanumeric(s) && ExpandAll(s) == s
  {
    if s != "" {
      AllDigitsValue(s[1..]);
      assert s == [s[0]] + s[1..];
    }
  }

  lemma TwoDigitsValue(n: int)
    requires 0 <= n < 100
    ensures Alphanumeric(TwoDigits(n)) && Value(TwoDigits(n)) == n && Digits(TwoDigits(n)) == 2
  {
    var s := TwoDigits(n);
    AllDigitsValue(s);
    assert s[1..][1..] == "";
    assert Horner(s, 0) == Horner(s[1..], n / 10) == n / 10 * 10 + n % 10;
  }

  // ----- Check digits -----

  /** The computed check number is between 2 and 98, it makes the IBAN valid, and it is the only
      number in that range that does. */
  lemma CheckNumberUnique(country: string, bban: string, n: int)
    requires Alphanumeric(country) && Alphanumeric(bban) && 2 <= n <= 98
    ensures Alphanumeric(bban + country)
    ensures ValidIban(country, TwoDigits(n), bban) <==> TwoDigits(n) == CheckDigits(country, bban)
  {
    ValueConcat(bban, country);
    var base := bban + country;
    var m := CheckNumber(country, bban);
    AppendTwoDigits(base, n);
    AppendTwoDigits(base, 0);
    assert TwoDigits(0) == "00";
    CongruentToOne(100 * Value(base), n);
    TwoDigitsValue(n);
    TwoDigitsValue(m);
  }

  lemma AppendTwoDigits(base: string, n: int)
    requires Alphanumeric(base) && 0 <= n < 100
    ensures Alphanumeric(base + TwoDigits(n)) && Value(base + TwoDigits(n)) == 100 * Value(base) + n
  {
    TwoDigitsValue(n);
    ValueConcat(base, TwoDigits(n));
    assert Pow10(2) == 100;
  }

  lemma CongruentToOne(x: int, n: int)
    requires 2 <= n <= 98
    ensures (x + n) % 97 == 1 <==> n == 98 - x % 97
  {
  }

  lemma ValidCheckDigits(country: string, bban: string)
    requires Alphanumeric(country) && Alphanumeric(bban)
    ensures Alphanumeric(bban + country)
    ensures ValidIban(country, CheckDigits(country, bban), bban)
  {
    ValueConcat(bban, country);
    CheckNumberUnique(country, bban, CheckNumber(country, bban));
  }

  // ----- Error detection -----

  predicate Congruent(a: int, b: int) { (a - b) % 97 == 0 }

  lemma SameRemainder(a: int, b: int)
    ensures Congruent(a, b) <==> a % 97 == b % 97
  {
  }

  /** A factor with an inverse modulo 97 can be cancelled. */
  lemma Cancel(c: int, inverse: int, x: int)
    requires c * inverse % 97 == 1
    ensures c * x % 97 == 0 <==> x % 97 == 0
  {
    var e := c * inverse / 97;
    assert c * inverse == 97 * e + 1;
    if c * x % 97 == 0 {
      var k := c * x / 97;
      assert inverse * (c * x) == x * (c * inverse);
      assert x == 97 * (inverse * k - e * x);
    }
    if x % 97 == 0 {
      var k := x / 97;
      assert c * x == 97 * (c * k);
    }
  }

  /** Ten has an inverse modulo 97, so shifting by digits loses no remainder. */
  lemma {:induction false} ShiftKeepsRemainder(d: int, k: nat)
    ensures (d * Pow10(k)) % 97 == 0 <==> d % 97 == 0
  {
    if k != 0 {
      ShiftKeepsRemainder(d, k - 1);
      var x := d * Pow10(k - 1);
      assert d * Pow10(k) == 10 * x;
      Cancel(10, 68, x);
    } else {
      assert d * Pow10(0) == d;
    }
  }

  /** Exchanging a middle part for one with as many digits is noticed modulo 97 exactly when the
      numbers of the two parts differ modulo 97, wherever the part stands. */
  lemma MiddleDecides(p: string, a: string, b: string, q: string)
    requires Alphanumeric(p) && Alphanumeric(a) && Alphanumeric(b) && Alphanumeric(q)
    requires Digits(a) == Digits(b)
    ensures Alphanumeric(p + a + q) && Alphanumeric(p + b + q)
    ensures Value(p + a + q) % 97 == Value(p + b + q) % 97 <==> Congruent(Value(a), Value(b))
  {
    ValueConcat(p, a); ValueConcat(p + a, q);
    ValueConcat(p, b); ValueConcat(p + b, q);
    var d := Value(a) - Value(b);
    assert Value(p + a) - Value(p + b) == d;
    assert Value(p + a + q) - Value(p + b + q) == (Value(p + a) - Value(p + b)) * Pow10(Digits(q));
    ShiftKeepsRemainder(d, Digits(q));
    SameRemainder(Value(p + a + q), Value(p + b + q));
  }

  predicate SameKind(a: char, b: char) { (IsDigit(a) && IsDigit(b)) || (IsLetter(a) && IsLetter(b)) }

  /** One wrong character of the right kind is always noticed. */
  lemma SubstitutionDetected(p: string, a: char, b: char, q: string)
    requires Alphanumeric(p) && Alphanumeric(q) && SameKind(a, b) && a != b
    ensures Alphanumeric(p + [a] + q) && Alphanumeric(p + [b] + q)
    ensures Value(p + [a] + q) % 97 != Value(p + [b] + q) % 97
  {
    ExpandOne(a);
    ExpandOne(b);
    MiddleDecides(p, [a], [b], q);
    assert CharValue(a) != CharValue(b);
  }

  lemma PairValue(a: char, b: char)
    requires IsAlphanumeric(a) && IsAlphanumeric(b)
    ensures Alphanumeric([a, b])
    ensures Value([a, b]) == CharValue(a) * (if IsDigit(b) then 10 else 100) + CharValue(b)
    ensures Digits([a, b]) == |Expand(a)| + |Expand(b)|
  {
    ExpandOne(a);
    ExpandOne(b);
    ValueConcat([a], [b]);
    assert [a] + [b] == [a, b];
    assert Pow10(1) == 10 && Pow10(2) == 100;
  }

  /** Swapping two neighbours goes unnoticed exactly when they are equal or are one of the pairs
      1B, 2M and 3X in either order: a digit next to the letter whose number is eleven times it. */
  lemma NeighbourSwap(p: string, a: char, b: char, q: string)
    requires Alphanumeric(p) && Alphanumeric(q) && IsAlphanumeric(a) && IsAlphanumeric(b)
    ensures Alphanumeric(p + [a, b] + q) && Alphanumeric(p + [b, a] + q)
    ensures Value(p + [a, b] + q) % 97 == Value(p + [b, a] + q) % 97 <==>
      a == b || [a, b] in {"1B", "2M", "3X", "B1", "M2", "X3"}
  {
    PairValue(a, b);
    PairValue(b, a);
    MiddleDecides(p, [a, b], [b, a], q);
    SwapArithmetic(a, b);
    assert [a, b] == "1B" <==> a == '1' && b == 'B';
    assert [a, b] == "2M" <==> a == '2' && b == 'M';
    assert [a, b] == "3X" <==> a == '3' && b == 'X';
    assert [a, b] == "B1" <==> a == 'B' && b == '1';
    assert [a, b] == "M2" <==> a == 'M' && b == '2';
    assert [a, b] == "X3" <==> a == 'X' && b == '3';
  }

  predicate ElevenTimes(d: char, l: char) { (d == '1' && l == 'B') || (d == '2' && l == 'M') || (d == '3' && l == 'X') }

  lemma SmallMultiple(c: int, inverse: int, x: int)
    requires c * inverse % 97 == 1 && -97 < x < 97
    ensures c * x % 97 == 0 <==> x == 0
  {
    Cancel(c, inverse, x);
  }

  lemma SwapSameKind(x: int, y: int)
    requires 0 <= x < 36 && 0 <= y < 36
    ensures Congruent(10 * x + y, 10 * y + x) <==> x == y
    ensures Congruent(100 * x + y, 100 * y + x) <==> x == y
  {
    assert 10 * x + y - (10 * y + x) == 9 * (x - y);
    SmallMultiple(9, 54, x - y);
    assert 100 * x + y - (100 * y + x) == 99 * (x - y);
    SmallMultiple(99, 49, x - y);
  }

  lemma SwapMixed(d: int, l: int)
    requires 0 <= d < 10 <= l < 36
    ensures Congruent(100 * d + l, 10 * l + d) <==> l == 11 * d
    ensures Congruent(10 * l + d, 100 * d + l) <==> l == 11 * d
  {
    assert 100 * d + l - (10 * l + d) == 9 * (11 * d - l);
    SmallMultiple(9, 54, 11 * d - l);
    assert 10 * l + d - (100 * d + l) == -9 * (11 * d - l);
    SmallMultiple(-9, 43, 11 * d - l);
  }

  lemma SwapArithmetic(a: char, b: char)
    requires IsAlphanumeric(a) && IsAlphanumeric(b)
    ensures var x, y := CharValue(a), CharValue(b);
      Congruent(x * (if IsDigit(b) then 10 else 100) + y, y * (if IsDigit(a) then 10 else 100) + x) <==>
      a == b || ElevenTimes(a, b) || ElevenTimes(b, a)
  {
    var x, y := CharValue(a), CharValue(b);
    SwapSameKind(x, y);
    if IsDigit(a) && IsLetter(b) { SwapMixed(x, y); }
    if IsLetter(a) && IsDigit(b) { SwapMixed(y, x); }
  }

  // ----- Whole IBANs, as they are written -----

  function Rearranged(s: string): string
    requires |s| >= 4
  {
    s[4..] + s[..4]
  }

  predicate Valid(s: string) {
    |s| >= 4 && Alphanumeric(Rearranged(s)) && Value(Rearranged(s)) % 97 == 1
  }

  /** How a change of one character looks in the rearranged IBAN. */
  lemma RearrangedChange(s: string, i: nat, b: char) returns (p: string, q: string)
    requires |s| >= 4 && i < |s|
    ensures Rearranged(s) == p + [s[i]] + q
    ensures Rearranged(s[i := b]) == p + [b] + q
  {
    if i >= 4 {
      p, q := s[4..i], s[i + 1..] + s[..4];
    } else {
      p, q := s[4..] + s[..i], s[i + 1..4];
    }
  }

  lemma AlphanumericSplit(p: string, m: string, q: string)
    requires Alphanumeric(p + m + q)
    ensures Alphanumeric(p) && Alphanumeric(m) && Alphanumeric(q)
  {
    var s := p + m + q;
    forall i | 0 <= i < |p| ensures IsAlphanumeric(p[i]) { assert s[i] == p[i]; }
    forall i | 0 <= i < |m| ensures IsAlphanumeric(m[i]) { assert s[|p| + i] == m[i]; }
    forall i | 0 <= i < |q| ensures IsAlphanumeric(q[i]) { assert s[|p| + |m| + i] == q[i]; }
  }

  /** A valid IBAN of any length becomes invalid when one digit or one letter is changed. */
  lemma WrongCharacterDetected(s: string, i: nat, b: char)
    requires Valid(s) && i < |s| && SameKind(s[i], b) && s[i] != b
    ensures !Valid(s[i := b])
  {
    var p, q := RearrangedChange(s, i, b);
    AlphanumericSplit(p, [s[i]], q);
    SubstitutionDetected(p, s[i], b, q);
  }

  function Swapped(s: string, i: nat): string
    requires i + 1 < |s|
  {
    s[i := s[i + 1]][i + 1 := s[i]]
  }

  /** How a swap of neighbours looks in the rearranged IBAN. */
  lemma RearrangedSwap(s: string, i: nat) returns (p: string, q: string)
    requires |s| >= 4 && i + 1 < |s| && i != 3
    ensures Rearranged(s) == p + [s[i], s[i + 1]] + q
    ensures Rearranged(Swapped(s, i)) == p + [s[i + 1], s[i]] + q
  {
    if i >= 4 {
      p, q := s[4..i], s[i + 2..] + s[..4];
    } else {
      p, q := s[4..] + s[..i], s[i + 2..4];
    }
  }

  /** A valid IBAN stays valid under a swap of neighbours in exactly the cases of `NeighbourSwap`,
      except between its fourth and fifth characters, which are not neighbours when rearranged. */
  lemma SwapDetected(s: string, i: nat)
    requires Valid(s) && i + 1 < |s| && i != 3
    ensures Valid(Swapped(s, i)) <==> s[i] == s[i + 1] || s[i..i + 2] in {"1B", "2M", "3X", "B1", "M2", "X3"}
  {
    var p, q := RearrangedSwap(s, i);
    AlphanumericSplit(p, [s[i], s[i + 1]], q);
    assert [s[i], s[i + 1]][0] == s[i] && [s[i], s[i + 1]][1] == s[i + 1];
    assert s[i..i + 2] == [s[i], s[i + 1]];
    NeighbourSwap(p, s[i], s[i + 1], q);
  }

  // ----- The swap across the boundary -----

  lemma TimesRemainders(x: int, y: int)
    ensures x * y % 97 == (x % 97) * (y % 97) % 97
  {
    var i, j := x / 97, y / 97;
    var r, t := x % 97, y % 97;
    assert x == 97 * i + r && y == 97 * j + t;
    assert x * y == 97 * (i * y + r * j) + r * t;
    AddMultiple(r * t, i * y + r * j);
  }

  lemma AddMultiple(a: int, k: int)
    ensures (97 * k + a) % 97 == a % 97
  {
  }

  lemma PowerSum(a: nat, r: int, b: nat, t: int)
    requires Pow10(a) % 97 == r && Pow10(b) % 97 == t
    ensures Pow10(a + b) % 97 == r * t % 97
  {
    Pow10Adds(a, b);
    TimesRemainders(Pow10(a), Pow10(b));
  }

  /** Some powers of ten modulo 97, by squaring. */
  lemma PowersFrom(n: nat)
    requires Pow10(n) % 97 == 62
    ensures Pow10(2 * n) % 97 == 61 && Pow10(3 * n) % 97 == 96 && Pow10(4 * n) % 97 == 35 && Pow10(6 * n) % 97 == 1
  {
    PowerSum(n, 62, n, 62);
    PowerSum(n, 62, 2 * n, 61);
    PowerSum(2 * n, 61, 2 * n, 61);
    PowerSum(3 * n, 96, 3 * n, 96);
  }

  lemma Sixteen()
    ensures Pow10(16) % 97 == 62
  {
    assert Pow10(4) == 10000;
    PowerSum(4, 9, 4, 9);
    PowerSum(8, 81, 8, 81);
  }

  lemma MinusPeriod(k: nat)
    requires k >= 96
    ensures (k - 96) % 96 == k % 96
  {
  }

  lemma PowerPlusPeriod(k: nat, n: nat)
    requires Pow10(n) % 97 == 62
    ensures Pow10(k + 6 * n) % 97 == Pow10(k) % 97
  {
    PowersFrom(n);
    PowerSum(k, Pow10(k) % 97, 6 * n, 1);
  }

  lemma {:induction false} PowerPeriod(k: nat)
    ensures Pow10(k) % 97 == Pow10(k % 96) % 97
  {
    if k >= 96 {
      PowerPeriod(k - 96);
      Sixteen();
      PowerPlusPeriod(k - 96, 16);
      MinusPeriod(k);
    }
  }

  lemma {:induction false} PowerOfOne(k: nat, m: nat)
    requires Pow10(k) % 97 == 1
    ensures Pow10(m * k) % 97 == 1
  {
    if m > 0 {
      PowerOfOne(k, m - 1);
      PowerSum((m - 1) * k, 1, k, 1);
      assert m * k == (m - 1) * k + k;
    }
  }

  /** A number below 96 that is not zero has a multiple that is 32, 48 or 64 modulo 96. */
  lemma {:induction false} ToProperDivisor(p: nat, q: nat) returns (m: nat)
    requires p == 1 || p == 2 || p == 4 || p == 8 || p == 16 || p == 32
    requires 0 < q && p * q < 96
    ensures m * (p * q) % 96 == 32 || m * (p * q) % 96 == 48 || m * (p * q) % 96 == 64
    decreases q
  {
    if p == 32 {
      m := 1;
    } else if q % 2 == 1 {
      m := 48 / p;
      OddMultiple(m, p, q);
    } else {
      m := ToProperDivisor(2 * p, q / 2);
      Halve(p, q / 2);
    }
  }

  lemma OddMultiple(m: nat, p: nat, q: nat)
    requires m * p == 48 && q % 2 == 1
    ensures m * (p * q) % 96 == 48
  {
    assert m * (p * q) == (m * p) * q;
    assert 48 * q == 48 + 96 * (q / 2);
  }

  lemma Halve(p: nat, h: nat)
    ensures 2 * p * h == p * (2 * h)
  {
  }

  lemma ProperPowers()
    ensures Pow10(32) % 97 != 1 && Pow10(48) % 97 != 1 && Pow10(64) % 97 != 1
  {
    Sixteen();
    PowersFrom(16);
  }

  /** The order of ten modulo 97 is 96. */
  lemma OrderOfTen(k: nat)
    ensures Pow10(k) % 97 == 1 <==> k % 96 == 0
  {
    PowerPeriod(k);
    var r := k % 96;
    if r != 0 && Pow10(r) % 97 == 1 {
      var m := ToProperDivisor(1, r);
      PowerOfOne(r, m);
      PowerPeriod(m * r);
      ProperPowers();
      assert false;
    }
  }

  /** Whether the swap across the boundary is missed: a last check character `a`, a BBAN opening with `b`,
      and `n` digits from one to the other. For characters of one kind this asks whether the places they
      trade count alike, for a digit and a letter whether the trade makes up for the changed length. */
  predicate BoundaryMissed(a: char, b: char, n: nat)
    requires IsAlphanumeric(a) && IsAlphanumeric(b)
  {
    var x, y, p := CharValue(a), CharValue(b), Pow10(n);
    if SameKind(a, b) then a == b || (n + |Expand(a)|) % 96 == 0
    else if IsDigit(a) then Congruent(100 * p * (x - y), 10 * x - y - 9)
    else Congruent(100 * p * (x - y), x - 10 * y + 9)
  }

  /** The one swap not between neighbours, for any two characters: the last check character and the one
      opening the BBAN. */
  lemma BoundarySwap(s: string)
    requires Valid(s) && |s| >= 5
    ensures Alphanumeric(s[5..] + s[..3]) && IsAlphanumeric(s[3]) && IsAlphanumeric(s[4])
    ensures Valid(Swapped(s, 3)) <==> BoundaryMissed(s[3], s[4], Digits(s[5..] + s[..3]))
  {
    var mid, a, b := s[5..] + s[..3], s[3], s[4];
    RearrangedEnds(s);
    AlphanumericSplit([b], mid, [a]);
    assert [a][0] == a && [b][0] == b;
    var n := Digits(mid);
    EndsValue(b, mid, a);
    EndsValue(a, mid, b);
    if SameKind(a, b) {
      EndsSameKind(a, b, Value(mid), n);
    } else if IsDigit(a) {
      EndsMixed(CharValue(a), CharValue(b), Value(mid), Pow10(n));
    } else {
      EndsMixedBack(CharValue(a), CharValue(b), Value(mid), Pow10(n));
    }
  }

  lemma RearrangedEnds(s: string)
    requires |s| >= 5
    ensures Rearranged(s) == [s[4]] + (s[5..] + s[..3]) + [s[3]]
    ensures Rearranged(Swapped(s, 3)) == [s[3]] + (s[5..] + s[..3]) + [s[4]]
  {
  }

  /** The weight of what stands before a character. */
  function Weight(c: char): int { if IsDigit(c) then 10 else 100 }

  function Ends(b: char, mid: int, n: nat, a: char): int
    requires IsAlphanumeric(a) && IsAlphanumeric(b)
  {
    Weight(a) * (CharValue(b) * Pow10(n)) + Weight(a) * mid + CharValue(a)
  }

  lemma EndsValue(b: char, mid: string, a: char)
    requires IsAlphanumeric(a) && IsAlphanumeric(b) && Alphanumeric(mid)
    ensures Alphanumeric([b] + mid + [a])
    ensures Value([b] + mid + [a]) == Ends(b, Value(mid), Digits(mid), a)
  {
    ExpandOne(a);
    ExpandOne(b);
    ValueConcat([b], mid);
    ValueConcat([b] + mid, [a]);
    assert Pow10(1) == 10 && Pow10(2) == 100;
    var head := CharValue(b) * Pow10(Digits(mid)) + Value(mid);
    assert head * Weight(a) == Weight(a) * (CharValue(b) * Pow10(Digits(mid))) + Weight(a) * Value(mid);
  }

  lemma EndsSameKind(a: char, b: char, m: int, n: nat)
    requires IsAlphanumeric(a) && IsAlphanumeric(b) && SameKind(a, b) && Ends(b, m, n, a) % 97 == 1
    ensures Ends(a, m, n, b) % 97 == 1 <==> a == b || (n + |Expand(a)|) % 96 == 0
  {
    var x, y, w, k := CharValue(a), CharValue(b), Weight(a), |Expand(a)|;
    ExpandOne(a);
    Pow10Adds(k, n);
    assert Pow10(1) == 10 && Pow10(2) == 100;
    assert Pow10(n + k) == w * Pow10(n);
    EndsSwap(x, y, w, m, Pow10(n));
    OrderOfTen(n + k);
  }

  lemma EndsSwap(x: int, y: int, w: int, m: int, p: int)
    requires -36 < y - x < 36
    ensures (w * (y * p) + w * m + x) % 97 == (w * (x * p) + w * m + y) % 97 <==> x == y || w * p % 97 == 1
  {
    var u, v := w * (y * p) + w * m + x, w * (x * p) + w * m + y;
    assert w * (y * p) - w * (x * p) == (y - x) * (w * p);
    assert u - v == (y - x) * (w * p - 1);
    SameRemainder(u, v);
    SameRemainder(w * p, 1);
    SmallTimes(y - x, w * p - 1);
  }

  lemma Spread(p: int, x: int, y: int)
    ensures 100 * p * (x - y) == 100 * (x * p) - 100 * (y * p)
  {
  }

  /** A last check digit and a BBAN opening with a letter. */
  lemma EndsMixed(x: int, y: int, m: int, p: int)
    requires (10 * (y * p) + 10 * m + x) % 97 == 1
    ensures (100 * (x * p) + 100 * m + y) % 97 == 1 <==> Congruent(100 * p * (x - y), 10 * x - y - 9)
  {
    Spread(p, x, y);
    MixedLinear(x, y, m, x * p, y * p);
  }

  lemma MixedLinear(x: int, y: int, m: int, xp: int, yp: int)
    requires (10 * yp + 10 * m + x) % 97 == 1
    ensures (100 * xp + 100 * m + y) % 97 == 1 <==> Congruent(100 * xp - 100 * yp, 10 * x - y - 9)
  {
  }

  /** A last check letter and a BBAN opening with a digit. */
  lemma EndsMixedBack(x: int, y: int, m: int, p: int)
    requires (100 * (y * p) + 100 * m + x) % 97 == 1
    ensures (10 * (x * p) + 10 * m + y) % 97 == 1 <==> Congruent(100 * p * (x - y), x - 10 * y + 9)
  {
    Spread(p, x, y);
    MixedBackLinear(x, y, m, x * p, y * p);
  }

  lemma MixedBackLinear(x: int, y: int, m: int, xp: int, yp: int)
    requires (100 * yp + 100 * m + x) % 97 == 1
    ensures (10 * xp + 10 * m + y) % 97 == 1 <==> Congruent(100 * xp - 100 * yp, x - 10 * y + 9)
  {
    var u, v, d := 100 * yp + 100 * m + x, 10 * xp + 10 * m + y, 100 * xp - 100 * yp - (x - 10 * y + 9);
    assert 10 * (v - 1) == d + (u - 1);
    SameRemainder(u, 1);
    SameRemainder(v, 1);
    AddsNothing(d, 1, u - 1);
    Cancel(10, 68, v - 1);
  }

  lemma AddsNothing(x: int, c: int, d: int)
    requires d % 97 == 0
    ensures (x + c * d) % 97 == 0 <==> x % 97 == 0
  {
    var k := d / 97;
    assert c * d == 97 * (c * k);
    AddMultiple(x, c * k);
  }

  lemma DigitInverse(d: int) returns (r: int)
    requires 0 < d < 12
    ensures d * r % 97 == 1
  {
    r := [1, 49, 65, 73, 39, 81, 14, 85, 54, 68, 53][d - 1];
  }

  lemma LetterInverse(d: int) returns (r: int)
    requires 12 <= d < 24
    ensures d * r % 97 == 1
  {
    r := [89, 15, 7, 13, 91, 40, 27, 46, 34, 37, 75, 38][d - 12];
  }

  lemma LargeInverse(d: int) returns (r: int)
    requires 24 <= d < 36
    ensures d * r % 97 == 1
  {
    r := [93, 66, 56, 18, 52, 87, 55, 72, 94, 50, 20, 61][d - 24];
  }

  lemma SmallTimesPositive(d: int, x: int)
    requires 0 < d < 36
    ensures d * x % 97 == 0 <==> x % 97 == 0
  {
    var r: int;
    if d < 12 { r := DigitInverse(d); } else if d < 24 { r := LetterInverse(d); } else { r := LargeInverse(d); }
    Cancel(d, r, x);
  }

  /** 97 is prime: a product with a small non-zero factor vanishes only with the other factor. */
  lemma SmallTimes(d: int, x: int)
    requires -36 < d < 36
    ensures d * x % 97 == 0 <==> d == 0 || x % 97 == 0
  {
    if d > 0 {
      SmallTimesPositive(d, x);
    } else if d < 0 {
      SmallTimesPositive(-d, x);
      Negated(d, x);
    }
  }

  lemma Negated(d: int, x: int)
    ensures -d * x % 97 == 0 <==> d * x % 97 == 0
  {
  }

  /** Within the length ISO 13616-1 allows, that swap is always noticed between characters of one kind. */
  lemma BoundarySwapDetected(s: string)
    requires Valid(s) && 5 <= |s| <= 34 && SameKind(s[3], s[4]) && s[3] != s[4]
    ensures !Valid(Swapped(s, 3))
  {
    BoundarySwap(s);
    ExpandOne(s[3]);
    AtMostTwoDigitsEach(s[5..] + s[..3]);
  }

  lemma {:induction false} AtMostTwoDigitsEach(s: string)
    requires Alphanumeric(s)
    ensures Digits(s) <= 2 * |s|
  {
    if s != "" {
      ExpandOne(s[0]);
      AtMostTwoDigitsEach(s[1..]);
    }
  }

  lemma AppendValue(s: string, c: char)
    requires Alphanumeric(s) && IsAlphanumeric(c)
    ensures Alphanumeric(s + [c]) && Value(s + [c]) == Value(s) * Weight(c) + CharValue(c)
  {
    ExpandOne(c);
    ValueConcat(s, [c]);
    assert Pow10(1) == 10 && Pow10(2) == 100;
  }

  /** Digits and two letters in this order: two characters of a BBAN, a country and two check characters. */
  lemma SixValue(a: char, b: char, c: char, d: char, e: char, f: char)
    requires IsDigit(b) && IsLetter(c) && IsLetter(d) && IsDigit(e) && IsAlphanumeric(a) && IsAlphanumeric(f)
    ensures Alphanumeric([a, b, c, d, e, f])
    ensures Value([a, b, c, d, e, f]) == Weight(f) * (1000000 * CharValue(a) + 100000 * CharValue(b)
      + 1000 * CharValue(c) + 10 * CharValue(d) + CharValue(e)) + CharValue(f)
  {
    ExpandOne(a);
    AppendValue([a], b);
    AppendValue([a, b], c);
    AppendValue([a, b, c], d);
    AppendValue([a, b, c, d], e);
    AppendValue([a, b, c, d, e], f);
    assert [a] + [b] == [a, b] && [a, b] + [c] == [a, b, c] && [a, b, c] + [d] == [a, b, c, d];
    assert [a, b, c, d] + [e] == [a, b, c, d, e] && [a, b, c, d, e] + [f] == [a, b, c, d, e, f];
  }

  lemma ValidByValue(s: string, n: int)
    requires |s| >= 4 && Alphanumeric(Rearranged(s)) && Value(Rearranged(s)) == n && n % 97 == 1
    ensures Valid(s)
  {
  }

  /** Between a digit and a letter that swap can go unnoticed. */
  lemma MixedSwapMissed()
    ensures Swapped("PK37X3", 3) == "PK3X73" && Valid("PK37X3") && Valid("PK3X73")
  {
    SixValue('X', '3', 'P', 'K', '3', '7');
    assert Rearranged("PK37X3") == ['X', '3', 'P', 'K', '3', '7'];
    ValidByValue("PK37X3", 333252037);
    SixValue('7', '3', 'P', 'K', '3', 'X');
    assert Rearranged("PK3X73") == ['7', '3', 'P', 'K', '3', 'X'];
    ValidByValue("PK3X73", 732520333);
  }

  // ----- The IBANs this bank issues -----

  /** The form `NewIban` gives: PK, two check digits, SCBL and sixteen digits. */
  predicate Issued(s: string) {
    |s| == 24 && s[..2] == "PK" && IsDigit(s[2]) && IsDigit(s[3]) && s[4..8] == "SCBL" && AllDigits(s[8..])
  }

  lemma PowerTwentySeven()
    ensures Pow10(27) % 97 == 19
  {
    Sixteen();
    assert Pow10(3) == 1000 && Pow10(4) == 10000;
    PowerSum(4, 9, 4, 9);
    PowerSum(16, 62, 8, 81);
    PowerSum(24, 75, 3, 30);
  }

  lemma IssuedBoundaryDigits(s: string)
    requires Issued(s)
    ensures Alphanumeric(s[5..] + s[..3]) && Digits(s[5..] + s[..3]) == 27
  {
    var digits, check := s[8..], [s[2]];
    assert s[5..8] == s[4..8][1..] == "CBL" && s[..2] == "PK";
    assert s[5..] + s[..3] == "CBL" + digits + "PK" + check;
    AllDigitsValue(digits);
    AllDigitsValue(check);
    LettersDigits("CBL");
    LettersDigits("PK");
    ValueConcat("CBL", digits);
    ValueConcat("CBL" + digits, "PK");
    ValueConcat("CBL" + digits + "PK", check);
  }

  lemma {:induction false} LettersDigits(s: string)
    requires forall i | 0 <= i < |s| :: IsLetter(s[i])
    ensures Alphanumeric(s) && Digits(s) == 2 * |s|
  {
    if s != "" {
      ExpandOne(s[0]);
      LettersDigits(s[1..]);
    }
  }

  /** The power of ten across the boundary leaves no digit that could be traded for the S. */
  lemma NoDigitForS(x: int, p: int)
    requires 0 <= x < 10 && p % 97 == 19
    ensures !Congruent(100 * p * (x - 28), 10 * x - 28 - 9)
  {
  }

  /** In an IBAN of this bank every swap of two different adjacent characters is noticed, across the check
      digits and the BBAN as well. */
  lemma IssuedSwapsDetected(s: string, i: nat)
    requires Issued(s) && Valid(s) && i + 1 < |s| && s[i] != s[i + 1]
    ensures !Valid(Swapped(s, i))
  {
    if i == 3 {
      BoundarySwap(s);
      IssuedBoundaryDigits(s);
      assert s[4] == s[4..8][0] == 'S';
      PowerTwentySeven();
      NoDigitForS(CharValue(s[3]), Pow10(27));
    } else {
      SwapDetected(s, i);
      IssuedNeighbours(s, i);
    }
  }

  lemma IssuedNeighbours(s: string, i: nat)
    requires Issued(s) && i + 1 < |s| && i != 3
    ensures s[i..i + 2] !in {"1B", "2M", "3X", "B1", "M2", "X3"}
  {
    assert s[0] == s[..2][0] == 'P' && s[1] == s[..2][1] == 'K';
    assert s[4] == s[4..8][0] && s[5] == s[4..8][1] == 'C' && s[6] == s[4..8][2] == 'B' && s[7] == s[4..8][3] == 'L';
    assert forall j | 8 <= j < 24 :: s[j] == s[8..][j - 8];
    var pair := s[i..i + 2];
    assert pair[0] == s[i] && pair[1] == s[i + 1];
    assert "1B"[0] == '1' && "1B"[1] == 'B' && "2M"[1] == 'M' && "3X"[1] == 'X';
    assert "B1"[0] == 'B' && "B1"[1] == '1' && "M2"[0] == 'M' && "X3"[0] == 'X';
  }
}
