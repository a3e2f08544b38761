/** Python `str` values, and the JSON string literals that `json.dumps` writes for them. */
module Text {
  import opened Decimal

  // A Python str is a sequence of code points; lone surrogates are allowed in it.
  type CodePoint = c: int | 0 <= c < 0x110000
  type Text = seq<CodePoint>

  datatype Parsed<+T> = Fail | Done(value: T, rest: string)

  // ----- Order -----

  /** Python's order on str: lexicographic by code point. */
  predicate Less(a: Text, b: Text) {
    if a == [] then b != []
    else if b == [] then false
    else if a[0] != b[0] then a[0] < b[0]
    else Less(a[1..], b[1..])
  }

  /** Below means: a proper beginning, or a smaller code point at the first difference. */
  ghost predicate Precedes(a: Text, b: Text, k: nat) {
    && k <= |a| && k <= |b| && a[..k] == b[..k]
    && (k == |a| < |b| || (k < |a| && k < |b| && a[k] < b[k]))
  }

  lemma {:induction false} LessExactly(a: Text, b: Text)
    ensures Less(a, b) <==> exists k: nat :: Precedes(a, b, k)
  {
    if a != [] && b != [] && a[0] == b[0] {
      LessExactly(a[1..], b[1..]);
      if Less(a, b) {
        var k: nat :| Precedes(a[1..], b[1..], k);
        assert a[..k + 1] == [a[0]] + a[1..][..k] && b[..k + 1] == [b[0]] + b[1..][..k];
        assert Precedes(a, b, k + 1);
      }
      if k: nat :| Precedes(a, b, k) {
        assert k > 0;
        assert a[1..][..k - 1] == a[..k][1..] && b[1..][..k - 1] == b[..k][1..];
        assert Precedes(a[1..], b[1..], k - 1);
      }
    } else if Less(a, b) {
      assert Precedes(a, b, 0);
    }
  }

  lemma {:induction false} LessTotal(a: Text, b: Text)
    ensures !(Less(a, b) && Less(b, a))
    ensures Less(a, b) || Less(b, a) || a == b
    ensures a == b ==> !Less(a, b)
  {
    if a != [] && b != [] && a[0] == b[0] {
      LessTotal(a[1..], b[1..]);
      assert a == [a[0]] + a[1..] && b == [b[0]] + b[1..];
    }
  }

  lemma {:induction false} LessTransitive(a: Text, b: Text, c: Text)
    requires Less(a, b) && Less(b, c)
    ensures Less(a, c)
  {
    if a != [] && b != [] && c != [] && a[0] == b[0] == c[0] {
      LessTransitive(a[1..], b[1..], c[1..]);
    }
  }

  predicate IsLeast(k: Text, ks: set<Text>) {
    k in ks && forall j | j in ks && j != k :: Less(k, j)
  }

  lemma {:induction false} LeastExists(ks: set<Text>)
    requires ks != {}
    ensures exists k :: IsLeast(k, ks)
  {
    var x :| x in ks;
    var rest := ks - {x};
    if rest == {} {
      assert ks == {x};
      assert IsLeast(x, ks);
    } else {
      LeastExists(rest);
      var m :| IsLeast(m, rest);
      LessTotal(x, m);
      var k := if Less(x, m) then x else m;
      forall j | j in ks && j != k ensures Less(k, j) {
        if k == x && j != m { LessTransitive(x, m, j); }
      }
      assert IsLeast(k, ks);
    }
  }

  lemma LeastUnique(ks: set<Text>)
    ensures forall j, k | IsLeast(j, ks) && IsLeast(k, ks) :: j == k
  {
    forall j, k | IsLeast(j, ks) && IsLeast(k, ks) ensures j == k {
      LessTotal(j, k);
    }
  }

  function Least(ks: set<Text>): (k: Text)
    requires ks != {}
    ensures IsLeast(k, ks)
  {
    LeastExists(ks);
    LeastUnique(ks);
    var k :| k in ks && IsLeast(k, ks);
    k
  }

  ghost predicate Increasing(s: seq<Text>) {
    forall i, j | 0 <= i < j < |s| :: Less(s[i], s[j])
  }

  /** `sorted(d)`: the keys of a dictionary in increasing order, each once. */
  function SortedKeys(ks: set<Text>): (s: seq<Text>)
    ensures Increasing(s)
    ensures forall k :: k in s <==> k in ks
    ensures |s| == |ks|
  {
    if ks == {} then []
    else
      var k := Least(ks);
      [k] + SortedKeys(ks - {k})
  }

  /** A key set has only one increasing listing. */
  lemma {:induction false} IncreasingListingUnique(s: seq<Text>, t: seq<Text>)
    requires Increasing(s) && Increasing(t)
    requires forall k :: k in s <==> k in t
    ensures s == t
  {
    assert s != [] ==> s[0] in t;
    assert t != [] ==> t[0] in s;
    if s != [] {
      FirstIsLeast(s, t[0]);
      FirstIsLeast(t, s[0]);
      LessTotal(s[0], t[0]);
      forall k ensures k in s[1..] <==> k in t[1..] {
        TailMembers(s, k);
        TailMembers(t, k);
      }
      IncreasingListingUnique(s[1..], t[1..]);
      assert s == [s[0]] + s[1..] && t == [t[0]] + t[1..];
    }
  }

  lemma FirstIsLeast(s: seq<Text>, k: Text)
    requires Increasing(s) && k in s
    ensures k == s[0] || Less(s[0], k)
  {
  }

  lemma TailMembers(s: seq<Text>, k: Text)
    requires Increasing(s) && s != []
    ensures k in s[1..] <==> k in s && k != s[0]
  {
    if k in s[1..] {
      var i :| 0 <= i < |s[1..]| && s[1..][i] == k;
      assert Less(s[0], s[i + 1]);
      LessTotal(s[0], k);
    }
    if k in s && k != s[0] {
      var i :| 0 <= i < |s| && s[i] == k;
      assert s[1..][i - 1] == k;
    }
  }

  /** `SortedKeys` is specified by what `sorted` promises: any listing of the keys in increasing order is it. */
  lemma SortedKeysExactly(ks: set<Text>, s: seq<Text>)
    ensures s == SortedKeys(ks) <==> Increasing(s) && forall k :: k in s <==> k in ks
  {
    if Increasing(s) && forall k :: k in s <==> k in ks { IncreasingListingUnique(s, SortedKeys(ks)); }
  }

  // ----- Surrogates -----

  predicate High(c: CodePoint) { 0xD800 <= c <= 0xDBFF }

  predicate Low(c: CodePoint) { 0xDC00 <= c <= 0xDFFF }

  function HighHalf(c: CodePoint): (h: CodePoint)
    requires c >= 0x10000
    ensures High(h)
  {
    0xD800 + (c - 0x10000) / 0x400
  }

  function LowHalf(c: CodePoint): (l: CodePoint)
    requires c >= 0x10000
    ensures Low(l)
  {
    0xDC00 + (c - 0x10000) % 0x400
  }

  function Join(h: CodePoint, l: CodePoint): (c: CodePoint)
    requires High(h) && Low(l)
    ensures c >= 0x10000
  {
    0x10000 + (h - 0xD800) * 0x400 + (l - 0xDC00)
  }

  lemma JoinHalves(c: CodePoint)
    requires c >= 0x10000
    ensures Join(HighHalf(c), LowHalf(c)) == c
  {
  }

  lemma HalvesJoin(h: CodePoint, l: CodePoint)
    requires High(h) && Low(l)
    ensures HighHalf(Join(h, l)) == h && LowHalf(Join(h, l)) == l
  {
  }

  predicate SplitPairAt(t: Text, i: int) { 0 <= i && i + 1 < |t| && High(t[i]) && Low(t[i + 1]) }

  /** No code point above U+FFFF is spelled as two surrogates. */
  ghost predicate Clean(t: Text) { forall i :: !SplitPairAt(t, i) }

  /** Every split pair replaced by the code point it spells. */
  function Combine(t: Text): Text {
    if t == [] then []
    else if SplitPairAt(t, 0) then [Join(t[0], t[1])] + Combine(t[2..])
    else [t[0]] + Combine(t[1..])
  }

  lemma {:induction false} CombineIsClean(t: Text)
    ensures Clean(Combine(t))
    ensures t != [] && !SplitPairAt(t, 0) ==> Combine(t) != [] && Combine(t)[0] == t[0]
    ensures SplitPairAt(t, 0) ==> Combine(t) != [] && Combine(t)[0] >= 0x10000
    ensures t == [] <==> Combine(t) == []
  {
    if t != [] {
      var tail := if SplitPairAt(t, 0) then t[2..] else t[1..];
      CombineIsClean(tail);
      forall i ensures !SplitPairAt(Combine(t), i) {
        if i > 0 {
          assert !SplitPairAt(Combine(tail), i - 1);
        }
      }
    }
  }

  lemma {:induction false} CombineFixesClean(t: Text)
    ensures Clean(t) <==> Combine(t) == t
  {
    if Clean(t) && t != [] {
      assert !SplitPairAt(t, 0);
      forall i ensures !SplitPairAt(t[1..], i) {
        assert !SplitPairAt(t, i + 1);
      }
      CombineFixesClean(t[1..]);
    }
    if Combine(t) == t {
      CombineIsClean(t);
    }
  }

  lemma AsciiTextIsClean(t: Text)
    requires forall i | 0 <= i < |t| :: t[i] < 0x80
    ensures Clean(t) && Combine(t) == t
  {
  }

  /** A text with only one spelling: no code point above U+FFFF, neither as itself nor as two surrogates. */
  ghost predicate Plain(t: Text) { Clean(t) && forall i | 0 <= i < |t| :: t[i] < 0x10000 }

  /** The first code point above U+FFFF replaced by its surrogates. */
  function Split(t: Text): Text {
    if t == [] then []
    else if t[0] >= 0x10000 then [HighHalf(t[0]), LowHalf(t[0])] + t[1..]
    else [t[0]] + Split(t[1..])
  }

  /** Another spelling of a text that has one. */
  ghost function Respelled(t: Text): Text { if Clean(t) then Split(t) else Combine(t) }

  lemma CleanTail(t: Text)
    requires Clean(t) && t != []
    ensures Clean(t[1..]) && !SplitPairAt(t, 0)
  {
    forall i ensures !SplitPairAt(t[1..], i) { assert !SplitPairAt(t, i + 1); }
  }

  lemma SplitFirst(t: Text)
    requires Clean(t) && t != [] && t[0] >= 0x10000
    ensures Combine(Split(t)) == t
  {
    var s := Split(t);
    assert s == [HighHalf(t[0]), LowHalf(t[0])] + t[1..];
    assert s[2..] == t[1..];
    assert Combine(s) == [t[0]] + Combine(t[1..]) by {
      assert SplitPairAt(s, 0);
      JoinHalves(t[0]);
    }
    CleanTail(t);
    CombineFixesClean(t[1..]);
    assert t == [t[0]] + t[1..];
  }

  lemma {:induction false} SplitCombines(t: Text)
    requires Clean(t)
    ensures Combine(Split(t)) == t
  {
    if t != [] {
      if t[0] >= 0x10000 {
        SplitFirst(t);
      } else {
        CleanTail(t);
        SplitCombines(t[1..]);
        assert Split(t)[1..] == Split(t[1..]) && !SplitPairAt(Split(t), 0);
        assert t == [t[0]] + t[1..];
      }
    }
  }

  lemma {:induction false} SplitIsLonger(t: Text, i: nat)
    requires i < |t| && t[i] >= 0x10000
    ensures |Split(t)| == |t| + 1
  {
    if t[0] < 0x10000 { SplitIsLonger(t[1..], i - 1); }
  }

  lemma {:induction false} PlainComesFromItself(u: Text)
    requires Plain(Combine(u))
    ensures Combine(u) == u
  {
    if u != [] {
      var t := Combine(u);
      CombineIsClean(u);
      assert !SplitPairAt(u, 0);
      assert t[1..] == Combine(u[1..]);
      CleanTail(t);
      PlainComesFromItself(u[1..]);
    }
  }

  lemma PlainHasNoOther(t: Text, u: Text)
    requires Plain(t) && Combine(u) == Combine(t)
    ensures u == t
  {
    CombineFixesClean(t);
    PlainComesFromItself(u);
  }

  /** Plain texts are exactly those with no other spelling; `Respelled` is one of any other text. */
  lemma PlainExactly(t: Text)
    ensures Plain(t) <==> forall u: Text :: Combine(u) == Combine(t) ==> u == t
    ensures !Plain(t) ==> Combine(Respelled(t)) == Combine(t) && Respelled(t) != t
  {
    CombineFixesClean(t);
    if Plain(t) {
      forall u: Text | Combine(u) == Combine(t) ensures u == t { PlainHasNoOther(t, u); }
    } else if Clean(t) {
      var i: nat :| i < |t| && t[i] >= 0x10000;
      SplitCombines(t);
      SplitIsLonger(t, i);
    } else {
      CombineIsClean(t);
      CombineFixesClean(Combine(t));
    }
  }

  // ----- Writing -----

  function HexDigit(n: int): (c: char)
    requires 0 <= n < 16
    ensures HexValue(c) == n && ' ' <= c <= '~'
  {
    if n < 10 then DigitChar(n) else (n - 10 + 'a' as int) as char
  }

  function HexValue(c: char): (n: int)
    ensures -1 <= n < 16
  {
    if '0' <= c <= '9' then c as int - '0' as int
    else if 'a' <= c <= 'f' then c as int - 'a' as int + 10
    else if 'A' <= c <= 'F' then c as int - 'A' as int + 10
    else -1
  }

  function Hex4(n: int): (s: string)
    requires 0 <= n < 0x10000
    ensures |s| == 4 && Hex4Value(s) == n
  {
    var a := n / 16;
    var b := a / 16;
    [HexDigit(b / 16), HexDigit(b % 16), HexDigit(a % 16), HexDigit(n % 16)]
  }

  /** The value of the first four characters as hex digits, or -1. */
  function Hex4Value(s: string): (n: int)
    ensures -1 <= n < 0x10000
  {
    if |s| < 4 || HexValue(s[0]) < 0 || HexValue(s[1]) < 0 || HexValue(s[2]) < 0 || HexValue(s[3]) < 0 then -1
    else ((HexValue(s[0]) * 16 + HexValue(s[1])) * 16 + HexValue(s[2])) * 16 + HexValue(s[3])
  }

  function UnicodeEscape(n: int): string
    requires 0 <= n < 0x10000
  {
    ['\\', 'u'] + Hex4(n)
  }

  /** The code point a one-letter escape stands for, or -1. */
  function SimpleEscape(c: char): (n: int)
    ensures -1 <= n < 0x80
  {
    if c == '\"' then 0x22
    else if c == '\\' then 0x5C
    else if c == '/' then 0x2F
    else if c == 'b' then 0x08
    else if c == 'f' then 0x0C
    else if c == 'n' then 0x0A
    else if c == 'r' then 0x0D
    else if c == 't' then 0x09
    else -1
  }

  const NO_LETTER: char := ' '

  /** The letter of the one-letter escape that is written for a code point, if there is one. */
  function EscapeLetter(c: CodePoint): (l: char)
    ensures l != NO_LETTER ==> SimpleEscape(l) == c && l != 'u' && ' ' <= l <= '~'
    ensures l != NO_LETTER <==> c in {0x22, 0x5C, 0x0A, 0x0D, 0x09, 0x0C, 0x08}
  {
    if c == 0x22 then '\"'
    else if c == 0x5C then '\\'
    else if c == 0x0A then 'n'
    else if c == 0x0D then 'r'
    else if c == 0x09 then 't'
    else if c == 0x0C then 'f'
    else if c == 0x08 then 'b'
    else NO_LETTER
  }

  /** One code point as `ensure_ascii` writes it. */
  function EscapeChar(c: CodePoint): string {
    if EscapeLetter(c) != NO_LETTER then ['\\', EscapeLetter(c)]
    else if 0x20 <= c <= 0x7E then [c as char]
    else if c < 0x10000 then UnicodeEscape(c)
    else UnicodeEscape(HighHalf(c)) + UnicodeEscape(LowHalf(c))
  }

  function EscapeText(t: Text): string {
    if t == [] then "" else EscapeChar(t[0]) + EscapeText(t[1..])
  }

  function Quote(t: Text): string { ['\"'] + EscapeText(t) + ['\"'] }

  // ----- What is written, apart from reading it -----

  const HEX := "0123456789abcdef"

  /** An ASCII text as a Python str. */
  function FromAscii(s: string): (t: Text)
    requires forall i | 0 <= i < |s| :: s[i] < 0x80 as char
    ensures |t| == |s| && forall i | 0 <= i < |s| :: t[i] == s[i] as int
  {
    seq(|s|, i requires 0 <= i < |s| => s[i] as int)
  }

  lemma HexDigitExactly(n: int)
    requires 0 <= n < 16
    ensures HexDigit(n) == HEX[n]
  {
  }

  /** Four lower-case hex digits, the most significant first. */
  function FourHex(n: int): string
    requires 0 <= n < 0x10000
  {
    [HEX[n / 4096], HEX[n / 256 % 16], HEX[n / 16 % 16], HEX[n % 16]]
  }

  lemma UnicodeEscapeExactly(n: int)
    requires 0 <= n < 0x10000
    ensures UnicodeEscape(n) == ['\\', 'u'] + FourHex(n)
  {
    assert n / 16 / 16 == n / 256 && n / 16 / 16 / 16 == n / 4096;
    HexDigitExactly(n / 4096);
    HexDigitExactly(n / 256 % 16);
    HexDigitExactly(n / 16 % 16);
    HexDigitExactly(n % 16);
  }

  /** The seven code points written by a backslash and a letter. */
  lemma ShortEscapesExactly()
    ensures EscapeChar(0x22) == ['\\', '\"'] && EscapeChar(0x5C) == ['\\', '\\']
    ensures EscapeChar(0x08) == ['\\', 'b'] && EscapeChar(0x09) == ['\\', 't'] && EscapeChar(0x0A) == ['\\', 'n']
    ensures EscapeChar(0x0C) == ['\\', 'f'] && EscapeChar(0x0D) == ['\\', 'r']
  {
  }

  /** All others: printable ASCII as it is, code points up to U+FFFF by four lower-case hex digits, and those
      above by the digits of their two surrogates. */
  lemma EscapeExactly(c: CodePoint)
    requires c !in {0x22, 0x5C, 0x08, 0x09, 0x0A, 0x0C, 0x0D}
    ensures ' ' as int <= c <= '~' as int ==> EscapeChar(c) == [c as char]
    ensures c < 0x10000 && !(' ' as int <= c <= '~' as int) ==> EscapeChar(c) == ['\\', 'u'] + FourHex(c)
    ensures c >= 0x10000 ==>
      var high, low := 0xD800 + (c - 0x10000) / 0x400, 0xDC00 + (c - 0x10000) % 0x400;
      EscapeChar(c) == ['\\', 'u'] + FourHex(high) + (['\\', 'u'] + FourHex(low))
  {
    assert EscapeLetter(c) == NO_LETTER;
    if c < 0x10000 {
      UnicodeEscapeExactly(c);
    } else {
      UnicodeEscapeExactly(0xD800 + (c - 0x10000) / 0x400);
      UnicodeEscapeExactly(0xDC00 + (c - 0x10000) % 0x400);
    }
  }

  /** A literal is its quotes around the escapes of the code points, in order. */
  lemma {:induction false} QuoteExactly(t: Text)
    ensures Quote(t) == "\"" + Flat(seq(|t|, i requires 0 <= i < |t| => EscapeChar(t[i]))) + "\""
  {
    EscapeIsFlat(t);
  }

  function Flat(parts: seq<string>): string {
    if parts == [] then "" else Flat(parts[..|parts| - 1]) + parts[|parts| - 1]
  }

  lemma {:induction false} FlatCons(part: string, parts: seq<string>)
    ensures Flat([part] + parts) == part + Flat(parts)
    decreases |parts|
  {
    var all := [part] + parts;
    if parts == [] {
      assert all == [part] && all[..0] == [];
    } else {
      var n := |parts| - 1;
      FlatCons(part, parts[..n]);
      assert all[..|all| - 1] == [part] + parts[..n];
    }
  }

  lemma {:induction false} EscapeIsFlat(t: Text)
    ensures EscapeText(t) == Flat(seq(|t|, i requires 0 <= i < |t| => EscapeChar(t[i])))
  {
    var parts := seq(|t|, i requires 0 <= i < |t| => EscapeChar(t[i]));
    if t != [] {
      var u := t[1..];
      var rest := seq(|u|, i requires 0 <= i < |u| => EscapeChar(u[i]));
      EscapeIsFlat(u);
      assert parts == [EscapeChar(t[0])] + rest;
      FlatCons(EscapeChar(t[0]), rest);
    }
  }

  // ----- Reading -----

  function Prepend(c: CodePoint, p: Parsed<Text>): Parsed<Text> {
    if p.Done? then Done([c] + p.value, p.rest) else Fail
  }

  /** Reads a string literal after its opening quote. A high surrogate escape takes the
      low surrogate escape right after it along; control characters are refused. */
  function ParseChars(s: string): (p: Parsed<Text>)
    ensures p.Done? ==> |p.rest| < |s|
  {
    if s == "" then Fail
    else if s[0] == '\"' then Done([], s[1..])
    else if s[0] == '\\' then
      if |s| < 2 then Fail
      else if s[1] == 'u' then
        var n := Hex4Value(s[2..]);
        if n < 0 then Fail
        else if High(n) && |s| >= 8 && s[6] == '\\' && s[7] == 'u' then
          var m := Hex4Value(s[8..]);
          if m < 0 then Fail
          else if Low(m) then Prepend(Join(n, m), ParseChars(s[12..]))
          else Prepend(n, ParseChars(s[6..]))
        else Prepend(n, ParseChars(s[6..]))
      else if SimpleEscape(s[1]) < 0 then Fail
      else Prepend(SimpleEscape(s[1]), ParseChars(s[2..]))
    else if s[0] < ' ' then Fail
    else Prepend(s[0] as int, ParseChars(s[1..]))
  }

  /** The text left to read starts with an escaped low surrogate. */
  predicate LowEscapeAhead(s: string) {
    |s| >= 6 && s[0] == '\\' && s[1] == 'u' && Hex4Value(s[2..]) >= 0 && Low(Hex4Value(s[2..]))
  }

  predicate EscapeAhead(s: string) { |s| >= 2 && s[0] == '\\' && s[1] == 'u' }

  /** The reader only builds clean texts: split pairs never come out of it. */
  lemma {:induction false} ParseCharsClean(s: string)
    requires ParseChars(s).Done?
    ensures Clean(ParseChars(s).value)
    ensures var t := ParseChars(s).value; t != [] && Low(t[0]) ==> LowEscapeAhead(s)
  {
    var t := ParseChars(s).value;
    if s[0] != '\"' {
      var next :=
        if s[0] != '\\' then s[1..]
        else if s[1] != 'u' then s[2..]
        else if High(Hex4Value(s[2..])) && |s| >= 8 && s[6] == '\\' && s[7] == 'u'
            && Low(Hex4Value(s[8..])) then s[12..]
        else s[6..];
      ParseCharsClean(next);
      var u := ParseChars(next).value;
      assert t == [t[0]] + u;
      assert |s| >= 8 ==> s[6..][2..] == s[8..];
      forall i ensures !SplitPairAt(t, i) {
        assert i > 0 ==> !SplitPairAt(u, i - 1);
      }
    }
  }

  // ----- Round trip -----

  lemma ParseUnicodeEscape(n: int, w: string)
    requires 0 <= n < 0x10000
    requires !High(n) || !EscapeAhead(w) || Hex4Value(w[2..]) >= 0
    ensures ParseChars(UnicodeEscape(n) + w) ==
      if High(n) && LowEscapeAhead(w) then Prepend(Join(n, Hex4Value(w[2..])), ParseChars(w[6..]))
      else Prepend(n, ParseChars(w))
  {
    var s := UnicodeEscape(n) + w;
    assert s[2..][..4] == Hex4(n);
    assert Hex4Value(s[2..]) == Hex4Value(Hex4(n));
    assert s[6..] == w;
    if |s| >= 8 {
      assert s[8..] == w[2..];
      if |s| >= 12 { assert s[12..] == w[6..]; }
    }
  }

  lemma EscapeHead(c: CodePoint, w: string)
    ensures var s := EscapeChar(c) + w;
      && (EscapeAhead(s) ==> Hex4Value(s[2..]) >= 0)
      && (LowEscapeAhead(s) <==> Low(c))
      && (Low(c) ==> Hex4Value(s[2..]) == c && s[6..] == w)
  {
    var s := EscapeChar(c) + w;
    if EscapeAhead(s) {
      var n := if c < 0x10000 then c else HighHalf(c);
      assert EscapeChar(c)[..6] == UnicodeEscape(n);
      assert s[2..][..4] == Hex4(n);
      assert Hex4Value(s[2..]) == Hex4Value(Hex4(n));
      if Low(c) { assert s[6..] == w; }
    }
  }

  lemma TextHead(t: Text, rest: string)
    ensures var s := EscapeText(t) + ['\"'] + rest;
      && (EscapeAhead(s) ==> Hex4Value(s[2..]) >= 0)
      && (LowEscapeAhead(s) <==> t != [] && Low(t[0]))
      && (t != [] && Low(t[0]) ==> Hex4Value(s[2..]) == t[0] && s[6..] == EscapeText(t[1..]) + ['\"'] + rest)
  {
    var s := EscapeText(t) + ['\"'] + rest;
    if t == [] {
      assert s == ['\"'] + rest;
    } else {
      assert s == EscapeChar(t[0]) + (EscapeText(t[1..]) + ['\"'] + rest);
      EscapeHead(t[0], EscapeText(t[1..]) + ['\"'] + rest);
    }
  }

  lemma UnicodeEscapeAhead(n: int, w: string)
    requires 0 <= n < 0x10000
    ensures var v := UnicodeEscape(n) + w; EscapeAhead(v) && |v| >= 6 && Hex4Value(v[2..]) == n && v[6..] == w
  {
    var v := UnicodeEscape(n) + w;
    assert v[2..][..4] == Hex4(n);
    assert Hex4Value(v[2..]) == Hex4Value(Hex4(n));
  }

  lemma ParseEscapedPair(c: CodePoint, w: string)
    requires c >= 0x10000
    ensures ParseChars(EscapeChar(c) + w) == Prepend(c, ParseChars(w))
  {
    var h, l := HighHalf(c), LowHalf(c);
    var v := UnicodeEscape(l) + w;
    UnicodeEscapeAhead(l, w);
    assert LowEscapeAhead(v);
    ParseUnicodeEscape(h, v);
    JoinHalves(c);
    assert EscapeChar(c) + w == UnicodeEscape(h) + v;
  }

  lemma ParseEscapedChar(c: CodePoint, w: string)
    requires !High(c) || !EscapeAhead(w) || (Hex4Value(w[2..]) >= 0 && !LowEscapeAhead(w))
    ensures ParseChars(EscapeChar(c) + w) == Prepend(c, ParseChars(w))
  {
    var s := EscapeChar(c) + w;
    if EscapeLetter(c) != NO_LETTER {
      assert s[2..] == w;
    } else if 0x20 <= c <= 0x7E {
      assert s[1..] == w;
    } else if c < 0x10000 {
      ParseUnicodeEscape(c, w);
    } else {
      ParseEscapedPair(c, w);
    }
  }

  /** Reading a written string gives its combined form, whatever follows the literal. */
  lemma {:induction false} TextRoundTrip(t: Text, rest: string)
    ensures ParseChars(EscapeText(t) + ['\"'] + rest) == Done(Combine(t), rest)
  {
    var s := EscapeText(t) + ['\"'] + rest;
    if t == [] {
      assert s == ['\"'] + rest;
      assert s[1..] == rest;
    } else {
      var w := EscapeText(t[1..]) + ['\"'] + rest;
      assert s == EscapeChar(t[0]) + w;
      TextHead(t[1..], rest);
      if SplitPairAt(t, 0) {
        assert t[1..][1..] == t[2..];
        TextRoundTrip(t[2..], rest);
        ParseUnicodeEscape(t[0], w);
      } else {
        TextRoundTrip(t[1..], rest);
        ParseEscapedChar(t[0], w);
      }
    }
  }

  /** A split pair and the code point it spells are written alike. */
  lemma {:induction false} CombineWritesAlike(t: Text)
    ensures EscapeText(Combine(t)) == EscapeText(t)
  {
    if t != [] {
      if SplitPairAt(t, 0) {
        CombineWritesAlike(t[2..]);
        HalvesJoin(t[0], t[1]);
        assert Combine(t)[1..] == Combine(t[2..]);
        assert t[1..][1..] == t[2..];
      } else {
        CombineWritesAlike(t[1..]);
        assert Combine(t)[1..] == Combine(t[1..]);
      }
    }
  }

  predicate Ascii(s: string) { forall i | 0 <= i < |s| :: ' ' <= s[i] <= '~' }

  lemma EscapeCharIsAscii(c: CodePoint)
    ensures Ascii(EscapeChar(c))
  {
    if c >= 0x10000 {
      assert EscapeChar(c) == UnicodeEscape(HighHalf(c)) + UnicodeEscape(LowHalf(c));
    }
  }

  /** The literal is printable ASCII, so encoding it to bytes loses nothing. */
  lemma {:induction false} EscapeTextIsAscii(t: Text)
    ensures Ascii(EscapeText(t))
  {
    if t != [] {
      EscapeCharIsAscii(t[0]);
      EscapeTextIsAscii(t[1..]);
    }
  }
}
