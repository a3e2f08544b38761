/** The JSON texts of RFC 8259, apart from fractions and exponents, and that the reader reads exactly these. */
module Grammar {
  import opened Decimal
  import opened Text
  import opened Json

  // ----- The grammar (sections 2 to 7), and what each text stands for -----

  predicate AllSpace(s: string) {
    forall i | 0 <= i < |s| :: s[i] == ' ' || s[i] == '\t' || s[i] == '\n' || s[i] == '\r'
  }

  predicate IsNat(s: string, n: int) {
    s != "" && AllDigits(s) && (s[0] == '0' ==> |s| == 1) && Horner(s, 0) == n
  }

  predicate IsNumeral(s: string, n: int) { IsNat(s, n) || (s != "" && s[0] == '-' && IsNat(s[1..], -n)) }

  /** The code units that the characters between two quotes stand for. */
  predicate Chars(s: string, units: Text) {
    if s == "" then units == []
    else if units == [] then false
    else if s[0] == '\\' then
      || (|s| >= 6 && s[1] == 'u' && Hex4Value(s[2..]) == units[0] && Chars(s[6..], units[1..]))
      || (|s| >= 2 && SimpleEscape(s[1]) == units[0] && Chars(s[2..], units[1..]))
    else s[0] >= ' ' && s[0] != '\"' && s[0] as int == units[0] && Chars(s[1..], units[1..])
  }

  // A JSON text with its parts: what stands for a value, white space included. A literal carries the units
  // its characters stand for; two units that are a surrogate pair are one code point.
  datatype Tree =
    | NullWord
    | BoolWord(b: bool)
    | Number(digits: string, n: int)
    | Literal(chars: string, units: Text)
    | Array(space: string, items: seq<Item>)
    | Object(space: string, members: seq<Member>)

  datatype Item = Item(before: string, value: Tree, after: string)

  datatype Member = Member(before: string, chars: string, units: Text, middle: string, item: Item)

  /** The text of a tree; the inner space of an array or object is written when it has no members. */
  function Yield(t: Tree): string
    decreases t, 0
  {
    match t
    case NullWord => "null"
    case BoolWord(b) => if b then "true" else "false"
    case Number(digits, _) => digits
    case Literal(chars, _) => ['\"'] + chars + ['\"']
    case Array(space, items) => if items == [] then "[" + space + "]" else "[" + YieldItems(items) + "]"
    case Object(space, members) => if members == [] then "{" + space + "}" else "{" + YieldMembers(members) + "}"
  }

  function YieldItem(i: Item): string { i.before + Yield(i.value) + i.after }

  function YieldItems(items: seq<Item>): string
    requires items != []
  {
    if |items| == 1 then YieldItem(items[0]) else YieldItem(items[0]) + "," + YieldItems(items[1..])
  }

  function YieldMember(m: Member): string {
    m.before + (['\"'] + m.chars + ['\"']) + m.middle + ":" + YieldItem(m.item)
  }

  function YieldMembers(members: seq<Member>): string
    requires members != []
  {
    if |members| == 1 then YieldMember(members[0]) else YieldMember(members[0]) + "," + YieldMembers(members[1..])
  }

  predicate IsJson(t: Tree) {
    match t
    case NullWord => true
    case BoolWord(_) => true
    case Number(digits, n) => IsNumeral(digits, n)
    case Literal(chars, units) => Chars(chars, units)
    case Array(space, items) => AllSpace(space) && forall i | 0 <= i < |items| :: IsItem(items[i])
    case Object(space, members) => AllSpace(space) && forall i | 0 <= i < |members| :: IsMember(members[i])
  }

  predicate IsItem(i: Item) { AllSpace(i.before) && IsJson(i.value) && AllSpace(i.after) }

  predicate IsMember(m: Member) {
    AllSpace(m.before) && Chars(m.chars, m.units) && AllSpace(m.middle) && IsItem(m.item)
  }

  function Means(t: Tree): Value {
    match t
    case NullWord => Null
    case BoolWord(b) => Bool(b)
    case Number(_, n) => Int(n)
    case Literal(_, units) => Str(Combine(units))
    case Array(_, items) => Arr(MeanAll(items))
    case Object(_, members) => Obj(Collected(members))
  }

  function MeanAll(items: seq<Item>): seq<Value> {
    if items == [] then [] else [Means(items[0].value)] + MeanAll(items[1..])
  }

  /** The members of an object as a dictionary: of equal names the last one counts. */
  function Collected(members: seq<Member>): map<Text, Value> {
    if members == [] then map[]
    else map[Combine(members[0].units) := Means(members[0].item.value)] + Collected(members[1..])
  }

  // ----- White space and numerals -----

  lemma {:induction false} SkipSpaceExactly(s: string)
    ensures SkipSpace(s) == s[|s| - |SkipSpace(s)|..] && AllSpace(s[..|s| - |SkipSpace(s)|])
    ensures NoSpaceAhead(SkipSpace(s))
  {
    var n := |s| - |SkipSpace(s)|;
    if s != "" && IsSpace(s[0]) {
      SkipSpaceExactly(s[1..]);
      var w := s[1..][..n - 1];
      assert AllSpace([s[0]] + w) by { assert forall i | 0 <= i < |w| :: ([s[0]] + w)[i + 1] == w[i]; }
      assert s[..n] == [s[0]] + w && s[1..][n - 1..] == s[n..];
    } else {
      assert n == 0 && s[..0] == "";
    }
  }

  lemma {:induction false} SkipSpaceOver(w: string, s: string)
    requires AllSpace(w) && NoSpaceAhead(s)
    ensures SkipSpace(w + s) == s
  {
    if w == "" {
      assert w + s == s;
    } else {
      assert (w + s)[1..] == w[1..] + s;
      SkipSpaceOver(w[1..], s);
    }
  }

  lemma {:induction false} DigitsConsumed(s: string, acc: int)
    ensures var n := |s| - |ParseDigits(s, acc).rest|;
      && AllDigits(s[..n]) && ParseDigits(s, acc) == Done(Horner(s[..n], acc), s[n..])
  {
    if s != "" && IsDigit(s[0]) {
      DigitsConsumed(s[1..], acc * 10 + DigitValue(s[0]));
      var n := |s| - |ParseDigits(s, acc).rest|;
      var d := s[..n];
      assert d[0] == s[0] && d[1..] == s[1..][..n - 1] && s[n..] == s[1..][n - 1..];
      assert AllDigits(d) by { assert forall i | 0 < i < n :: d[i] == d[1..][i - 1]; }
      assert Horner(d, acc) == Horner(d[1..], acc * 10 + DigitValue(d[0]));
    } else {
      assert |ParseDigits(s, acc).rest| == |s| && s[..0] == "";
    }
  }

  lemma NatSound(s: string)
    requires ParseNat(s).Done?
    ensures var n := |s| - |ParseNat(s).rest|; IsNat(s[..n], ParseNat(s).value) && ParseNat(s).rest == s[n..]
  {
    var p := ParseNat(s);
    var n := |s| - |p.rest|;
    if s[0] == '0' {
      assert s[..1][1..] == "";
    } else {
      DigitsConsumed(s[1..], DigitValue(s[0]));
      assert s[..n][1..] == s[1..][..n - 1];
      assert s[1..][n - 1..] == s[n..];
    }
  }

  lemma NumeralSound(s: string)
    requires ParseInt(s).Done?
    ensures var n := |s| - |ParseInt(s).rest|; IsNumeral(s[..n], ParseInt(s).value) && ParseInt(s).rest == s[n..]
  {
    if Starts(s, '-') {
      NatSound(s[1..]);
      var n := |s| - |ParseInt(s).rest|;
      assert s[..n][1..] == s[1..][..n - 1];
      assert s[1..][n - 1..] == s[n..];
    } else {
      NatSound(s);
    }
  }

  lemma NatComplete(d: string, n: int, rest: string)
    requires IsNat(d, n) && Ends(rest)
    ensures ParseNat(d + rest) == Done(n, rest)
  {
    assert (d + rest)[0] == d[0] && (d + rest)[1..] == d[1..] + rest;
    assert Horner(d, 0) == Horner(d[1..], DigitValue(d[0]));
    if d[0] == '0' {
      assert d[1..] == "";
      assert (d + rest)[1..] == rest;
    } else {
      DigitsRoundTrip(d[1..], rest, DigitValue(d[0]));
    }
  }

  lemma NumeralComplete(s: string, n: int, rest: string)
    requires IsNumeral(s, n) && Ends(rest)
    ensures ParseInt(s + rest) == Done(n, rest)
  {
    if IsNat(s, n) {
      assert (s + rest)[0] == s[0];
      NatComplete(s, n, rest);
    } else {
      assert (s + rest)[0] == '-' && (s + rest)[1..] == s[1..] + rest;
      NatComplete(s[1..], -n, rest);
    }
  }

  // ----- String literals -----

  /** A piece of a literal stands for one unit; what follows starts right after it. */
  lemma CharsCons(s: string, n: nat, unit: CodePoint, units: Text)
    requires 0 < n <= |s| && Chars(s[n..], units)
    requires
      || (n == 6 && s[0] == '\\' && s[1] == 'u' && Hex4Value(s[2..]) == unit)
      || (n == 2 && s[0] == '\\' && SimpleEscape(s[1]) == unit)
      || (n == 1 && s[0] >= ' ' && s[0] != '\"' && s[0] != '\\' && s[0] as int == unit)
    ensures Chars(s, [unit] + units)
  {
    assert ([unit] + units)[1..] == units;
  }

  /** Joining as the reader goes is joining the units afterwards. */
  lemma CombineCons(unit: CodePoint, units: Text)
    requires !High(unit) || units == [] || !Low(units[0])
    ensures Combine([unit] + units) == [unit] + Combine(units)
  {
    assert ([unit] + units)[1..] == units;
  }

  lemma CombinePair(high: CodePoint, low: CodePoint, units: Text)
    requires High(high) && Low(low)
    ensures Combine([high] + ([low] + units)) == [Join(high, low)] + Combine(units)
  {
    var all := [high] + ([low] + units);
    assert all[2..] == units && SplitPairAt(all, 0);
  }

  /** The units of the literal whose opening quote was read, and the place of its closing quote. */
  ghost predicate ReadsChars(s: string, units: Text, n: nat) {
    n < |s| && s[n] == '\"' && Chars(s[..n], units)
  }

  lemma Shift(s: string, n: nat, k: nat)
    requires k <= n < |s|
    ensures s[k..][..n - k] == s[..n][k..] && s[k..][n - k] == s[n] && s[k..][n - k + 1..] == s[n + 1..]
  {
  }

  lemma HexPrefix(s: string, n: nat)
    requires 6 <= n <= |s|
    ensures Hex4Value(s[2..]) == Hex4Value(s[..n][2..])
  {
    assert s[..n][2..][..4] == s[2..][..4];
  }

  /** The first piece of what follows an opening quote: the unit it stands for, or -1, and its width. */
  function Unit(s: string): int
    requires s != ""
  {
    if s[0] != '\\' then s[0] as int
    else if |s| < 2 then -1
    else if s[1] == 'u' then Hex4Value(s[2..])
    else SimpleEscape(s[1])
  }

  function Width(s: string): nat
    requires s != ""
  {
    if s[0] != '\\' then 1 else if |s| >= 2 && s[1] == 'u' then 6 else 2
  }

  predicate JoinsNext(s: string) {
    s != "" && Width(s) == 6 && |s| >= 6 && 0 <= Unit(s) && High(Unit(s)) && LowEscapeAhead(s[6..])
  }

  /** The reader takes one piece at a time, except for a surrogate pair, of which it takes both. */
  lemma ReaderSteps(s: string)
    requires ParseChars(s).Done? && s[0] != '\"'
    ensures Width(s) <= |s| && 0 <= Unit(s) < 0x110000
    ensures !JoinsNext(s) ==> ParseChars(s) == Prepend(Unit(s), ParseChars(s[Width(s)..]))
    ensures JoinsNext(s) ==> |s| >= 12 && ParseChars(s) == Prepend(Join(Unit(s), Unit(s[6..])), ParseChars(s[12..]))
  {
    if Width(s) == 6 && |s| >= 8 { assert s[6..][2..] == s[8..]; }
  }

  lemma LowStep(s: string)
    requires LowEscapeAhead(s)
    ensures ParseChars(s) == Prepend(Unit(s), ParseChars(s[6..]))
  {
  }

  lemma PieceAllowed(s: string, n: nat)
    requires ParseChars(s).Done? && s[0] != '\"' && Width(s) <= n <= |s|
    ensures var t, unit := s[..n], Unit(s);
      || (Width(s) == 6 && t[0] == '\\' && t[1] == 'u' && Hex4Value(t[2..]) == unit)
      || (Width(s) == 2 && t[0] == '\\' && SimpleEscape(t[1]) == unit)
      || (Width(s) == 1 && t[0] >= ' ' && t[0] != '\"' && t[0] != '\\' && t[0] as int == unit)
  {
    if Width(s) == 6 { HexPrefix(s, n); }
  }

  /** One more piece in front. */
  lemma ReadsCons(s: string, rest: Text, m: nat)
    requires ParseChars(s).Done? && s[0] != '\"' && Width(s) <= |s| && 0 <= Unit(s) < 0x110000
    requires ReadsChars(s[Width(s)..], rest, m)
    ensures ReadsChars(s, [Unit(s)] + rest, m + Width(s))
    ensures s[Width(s)..][m + 1..] == s[m + Width(s) + 1..]
  {
    var n := m + Width(s);
    Shift(s, n, Width(s));
    PieceAllowed(s, n);
    CharsCons(s[..n], Width(s), Unit(s), rest);
  }

  /** What the reader makes of a pair is what it makes of the two halves, joined. */
  lemma PairCombines(s: string, rest: Text)
    requires ParseChars(s).Done? && s[0] != '\"' && JoinsNext(s)
    requires rest != [] && rest[0] == Unit(s[6..]) && ParseChars(s[6..]).Done?
    requires ParseChars(s[6..]).value == Combine(rest)
    ensures ParseChars(s) == Done(Combine([Unit(s)] + rest), ParseChars(s[6..]).rest)
  {
    ReaderSteps(s);
    LowStep(s[6..]);
    assert s[6..][6..] == s[12..];
    assert rest == [rest[0]] + rest[1..];
    CombineCons(rest[0], rest[1..]);
    assert ([rest[0]] + Combine(rest[1..]))[1..] == Combine(rest[1..]);
    CombinePair(Unit(s), rest[0], rest[1..]);
  }

  /** What the reader accepts is a literal, and means what the literal means. */
  lemma {:induction false} CharsSound(s: string) returns (units: Text, n: nat)
    requires ParseChars(s).Done?
    ensures ReadsChars(s, units, n) && ParseChars(s) == Done(Combine(units), s[n + 1..])
    ensures if s[0] == '\"' then units == [] else units != [] && units[0] == Unit(s)
    decreases |s|
  {
    if s[0] == '\"' {
      units, n := [], 0;
      assert s[..0] == "";
    } else {
      ReaderSteps(s);
      var k := Width(s);
      RestIsRead(s);
      var rest, m := CharsSound(s[k..]);
      units, n := [Unit(s)] + rest, m + k;
      ReadsCons(s, rest, m);
      if JoinsNext(s) {
        PairCombines(s, rest);
      } else {
        NotLowNext(s, rest);
        CombineCons(Unit(s), rest);
      }
    }
  }

  lemma RestIsRead(s: string)
    requires ParseChars(s).Done? && s[0] != '\"'
    ensures Width(s) <= |s| && ParseChars(s[Width(s)..]).Done?
  {
    ReaderSteps(s);
    if JoinsNext(s) {
      LowStep(s[6..]);
      assert s[6..][6..] == s[12..];
    }
  }

  lemma NotLowNext(s: string, rest: Text)
    requires s != "" && Width(s) <= |s| && !JoinsNext(s) && 0 <= Unit(s)
    requires ParseChars(s[Width(s)..]).Done?
    requires if s[Width(s)..][0] == '\"' then rest == [] else rest != [] && rest[0] == Unit(s[Width(s)..])
    ensures !High(Unit(s)) || rest == [] || !Low(rest[0])
  {
  }

  lemma StepForward(s: string)
    requires s != "" && s[0] != '\"' && Width(s) <= |s| && 0 <= Unit(s) && (s[0] != '\\' ==> s[0] >= ' ')
    requires Width(s) == 6 && EscapeAhead(s[6..]) ==> Hex4Value(s[6..][2..]) >= 0
    ensures !JoinsNext(s) ==> ParseChars(s) == Prepend(Unit(s), ParseChars(s[Width(s)..]))
    ensures JoinsNext(s) ==> |s| >= 12 && ParseChars(s) == Prepend(Join(Unit(s), Unit(s[6..])), ParseChars(s[12..]))
  {
    if Width(s) == 6 && |s| >= 8 { assert s[6..][2..] == s[8..]; }
  }

  /** The text between two quotes, the closing quote, and what follows. */
  function Closed(b: string, rest: string): string { b + ['\"'] + rest }

  lemma HexClosed(b: string, rest: string)
    requires |b| >= 6
    ensures Hex4Value(Closed(b, rest)[2..]) == Hex4Value(b[2..])
  {
    assert Closed(b, rest)[2..][..4] == b[2..][..4];
  }

  /** The first piece of a text that stands for units. */
  lemma PieceOf(b: string, units: Text)
    requires Chars(b, units) && b != ""
    ensures units != [] && Unit(b) == units[0] && Width(b) <= |b| && b[0] != '\"' && (b[0] != '\\' ==> b[0] >= ' ')
    ensures Chars(b[Width(b)..], units[1..])
  {
    assert SimpleEscape('u') == -1;
  }

  lemma ClosedPiece(b: string, rest: string)
    requires b != "" && Width(b) <= |b|
    ensures var s := Closed(b, rest);
      s[0] == b[0] && Unit(s) == Unit(b) && Width(s) == Width(b) && s[Width(b)..] == Closed(b[Width(b)..], rest)
  {
    var s := Closed(b, rest);
    assert s[0] == b[0] && (|b| >= 2 ==> s[1] == b[1]);
    if |b| >= 6 { HexClosed(b, rest); }
  }

  lemma FirstPiece(b: string, units: Text, rest: string)
    requires Chars(b, units) && b != ""
    ensures var s := Closed(b, rest);
      && units != [] && Unit(s) == units[0] && Width(s) <= |b| && s[0] != '\"' && (s[0] != '\\' ==> s[0] >= ' ')
      && s[Width(s)..] == Closed(b[Width(s)..], rest) && Chars(b[Width(s)..], units[1..])
  {
    PieceOf(b, units);
    ClosedPiece(b, rest);
  }

  /** A low surrogate among the units can only be an escape. */
  lemma LowIsEscaped(b: string, units: Text, rest: string)
    requires Chars(b, units)
    ensures var s := Closed(b, rest);
      && (LowEscapeAhead(s) <==> units != [] && Low(units[0]))
      && (EscapeAhead(s) ==> Hex4Value(s[2..]) >= 0)
      && (LowEscapeAhead(s) ==> Unit(s) == units[0])
  {
    if b != "" {
      FirstPiece(b, units, rest);
    }
  }

  /** Every literal is read, whatever follows it, and read as what it means. */
  lemma {:induction false} CharsComplete(b: string, units: Text, rest: string)
    requires Chars(b, units)
    ensures ParseChars(Closed(b, rest)) == Done(Combine(units), rest)
    decreases |b|
  {
    var s := Closed(b, rest);
    if b == "" {
      assert s == ['\"'] + rest && s[1..] == rest;
    } else {
      FirstPiece(b, units, rest);
      var k := Width(s);
      LowIsEscaped(b[k..], units[1..], rest);
      StepForward(s);
      assert units == [units[0]] + units[1..];
      if JoinsNext(s) {
        FirstPiece(b[6..], units[1..], rest);
        var low, tail := units[1], units[2..];
        assert units[1..] == [low] + tail && s[6..][6..] == s[12..] && b[6..][6..] == b[12..];
        CharsComplete(b[12..], tail, rest);
        CombinePair(units[0], low, tail);
      } else {
        CharsComplete(b[k..], units[1..], rest);
        CombineCons(units[0], units[1..]);
      }
    }
  }

  // ----- The reader accepts only JSON texts -----

  lemma SpaceSplit(s: string) returns (w: string)
    ensures s == w + SkipSpace(s) && AllSpace(w) && NoSpaceAhead(SkipSpace(s))
  {
    SkipSpaceExactly(s);
    w := s[..|s| - |SkipSpace(s)|];
  }

  lemma Uncons(s: string, c: char)
    requires Starts(s, c)
    ensures s == [c] + s[1..]
  {
  }

  /** A text is a value's and then the rest, and the value is what it means. */
  ghost predicate ReadAs(s: string, t: Tree, p: Parsed<Value>) {
    IsJson(t) && p.Done? && p.value == Means(t) && s == Yield(t) + p.rest
  }

  lemma {:induction false} ValueSound(s: string) returns (t: Tree)
    requires ParseValue(s).Done?
    ensures ReadAs(s, t, ParseValue(s))
    decreases |s|, 2
  {
    if Starts(s, '\"') {
      t := LiteralSound(s);
    } else if Starts(s, '{') {
      t := ObjectSound(s);
    } else if Starts(s, '[') {
      t := ArraySound(s);
    } else if "null" <= s {
      t := NullWord;
    } else if "true" <= s {
      t := BoolWord(true);
    } else if "false" <= s {
      t := BoolWord(false);
    } else {
      NumeralSound(s);
      t := Number(s[..|s| - |ParseInt(s).rest|], ParseInt(s).value);
    }
  }

  lemma LiteralSound(s: string) returns (t: Tree)
    requires Starts(s, '\"') && ParseChars(s[1..]).Done?
    ensures t.Literal? && IsJson(t) && ParseChars(s[1..]).value == Combine(t.units)
    ensures s == Yield(t) + ParseChars(s[1..]).rest
    ensures ReadAs(s, t, ParseValue(s))
  {
    var units, m := CharsSound(s[1..]);
    t := Literal(s[1..][..m], units);
    assert s[1..] == s[1..][..m] + ['\"'] + s[1..][m + 1..];
    Uncons(s, '\"');
  }

  lemma {:induction false} ArraySound(s: string) returns (t: Tree)
    requires Starts(s, '[') && ParseValue(s).Done?
    ensures ReadAs(s, t, ParseValue(s))
    decreases |s|, 1
  {
    var w := SpaceSplit(s[1..]);
    var r := SkipSpace(s[1..]);
    if Starts(r, ']') {
      t := Array(w, []);
      Framed(s, '[', w, "", r, ']', r[1..]);
    } else {
      var items := ItemsSound(r, []);
      t := MakeArray(s, w, r, items, ParseItems(r, []).rest);
    }
  }

  /** An array with members, from the text after its bracket. */
  lemma MakeArray(s: string, w: string, r: string, items: seq<Item>, rest: string) returns (t: Tree)
    requires items != [] && items[0].before == "" && forall i | 0 <= i < |items| :: IsItem(items[i])
    requires Starts(s, '[') && s[1..] == w + r && AllSpace(w) && r == YieldItems(items) + "]" + rest
    ensures IsJson(t) && s == Yield(t) + rest && Means(t) == Arr([] + MeanAll(items))
  {
    var more := Before(w, items);
    t := Array("", more);
    Framed(s, '[', w, YieldItems(items), r, ']', rest);
  }

  lemma MakeObject(s: string, w: string, r: string, members: seq<Member>, rest: string) returns (t: Tree)
    requires members != [] && members[0].before == "" && forall i | 0 <= i < |members| :: IsMember(members[i])
    requires Starts(s, '{') && s[1..] == w + r && AllSpace(w) && r == YieldMembers(members) + "}" + rest
    ensures IsJson(t) && s == Yield(t) + rest && Means(t) == Obj(map[] + Collected(members))
  {
    var more := BeforeMembers(w, members);
    t := Object("", more);
    Framed(s, '{', w, YieldMembers(members), r, '}', rest);
    assert map[] + Collected(members) == Collected(members);
  }

  /** A bracket, white space, some members, and the closing bracket. */
  lemma Framed(s: string, open: char, w: string, y: string, r: string, close: char, rest: string)
    requires Starts(s, open) && s[1..] == w + r && r == y + [close] + rest
    ensures s == [open] + (w + y) + [close] + rest
    ensures s == [open] + w + [close] + rest || y != ""
  {
    var u := [open] + (w + y) + [close] + rest;
    assert s == [open] + s[1..];
    assert u == [open] + (w + (y + [close] + rest));
    if y == "" { assert w + y == w; }
  }

  /** White space in front of the first item is part of the items. */
  lemma Before(w: string, items: seq<Item>) returns (more: seq<Item>)
    requires items != [] && AllSpace(w) && items[0].before == "" && forall i | 0 <= i < |items| :: IsItem(items[i])
    ensures more != [] && (forall i | 0 <= i < |more| :: IsItem(more[i])) && |more| == |items|
    ensures YieldItems(more) == w + YieldItems(items) && MeanAll(more) == MeanAll(items)
  {
    more := [items[0].(before := w)] + items[1..];
    assert more[1..] == items[1..];
    assert YieldItem(more[0]) == w + YieldItem(items[0]);
    if |items| > 1 { RegroupComma(w, YieldItem(items[0]), YieldItems(items[1..])); }
  }

  lemma RegroupComma(w: string, a: string, b: string)
    ensures (w + a) + "," + b == w + (a + "," + b)
  {
  }

  lemma OneItem(first: Item)
    requires IsItem(first)
    ensures YieldItems([first]) == YieldItem(first) && MeanAll([first]) == [Means(first.value)]
  {
    assert [first][1..] == [];
  }

  lemma {:induction false} MoreItems(first: Item, more: seq<Item>)
    requires IsItem(first) && more != [] && forall i | 0 <= i < |more| :: IsItem(more[i])
    ensures YieldItems([first] + more) == YieldItem(first) + "," + YieldItems(more)
    ensures MeanAll([first] + more) == [Means(first.value)] + MeanAll(more)
    ensures forall i | 0 <= i < |[first] + more| :: IsItem(([first] + more)[i])
  {
    var all := [first] + more;
    assert all[0] == first && all[1..] == more;
    assert YieldItems(all) == YieldItem(all[0]) + "," + YieldItems(all[1..]);
  }

  lemma {:induction false} ItemsSound(s: string, done: seq<Value>) returns (items: seq<Item>)
    requires ParseItems(s, done).Done?
    ensures items != [] && items[0].before == "" && forall i | 0 <= i < |items| :: IsItem(items[i])
    ensures ParseItems(s, done).value == Arr(done + MeanAll(items))
    ensures s == YieldItems(items) + "]" + ParseItems(s, done).rest
    decreases |s|, 3
  {
    var p := ParseValue(s);
    var t := ValueSound(s);
    var w := SpaceSplit(p.rest);
    var r := SkipSpace(p.rest);
    var first := Item("", t, w);
    assert s == YieldItem(first) + r by { RegroupItem(Yield(t), w, r); }
    if Starts(r, ']') {
      items := [first];
      OneItem(first);
      LastOne(s, YieldItem(first), r, ']');
    } else {
      var w2 := SpaceSplit(r[1..]);
      var q := SkipSpace(r[1..]);
      var more := ItemsSound(q, done + [p.value]);
      var padded := Before(w2, more);
      items := [first] + padded;
      MoreItems(first, padded);
      MoreMeans(done, p.value, MeanAll(padded));
      NextOnes(s, YieldItem(first), r, w2, q, YieldItems(more), ']', ParseItems(s, done).rest);
    }
  }

  lemma RegroupItem(y: string, w: string, r: string)
    ensures y + (w + r) == "" + y + w + r
  {
  }

  lemma MoreMeans(done: seq<Value>, v: Value, more: seq<Value>)
    ensures done + [v] + more == done + ([v] + more)
  {
  }

  lemma LastOne(s: string, y: string, r: string, close: char)
    requires s == y + r && Starts(r, close)
    ensures s == y + [close] + r[1..]
  {
    assert r == [close] + r[1..];
  }

  lemma NextOnes(s: string, y: string, r: string, w: string, q: string, more: string, close: char, rest: string)
    requires s == y + r && Starts(r, ',') && r[1..] == w + q && q == more + [close] + rest
    ensures s == y + "," + (w + more) + [close] + rest
  {
    assert r == "," + (w + (more + [close] + rest));
    assert y + ("," + (w + (more + [close] + rest))) == y + "," + (w + more) + [close] + rest;
  }

  // Members of objects, in the same way.

  lemma {:induction false} ObjectSound(s: string) returns (t: Tree)
    requires Starts(s, '{') && ParseValue(s).Done?
    ensures ReadAs(s, t, ParseValue(s))
    decreases |s|, 1
  {
    var w := SpaceSplit(s[1..]);
    var r := SkipSpace(s[1..]);
    if Starts(r, '}') {
      t := Object(w, []);
      Framed(s, '{', w, "", r, '}', r[1..]);
    } else {
      var members := FieldsSound(r, map[]);
      t := MakeObject(s, w, r, members, ParseFields(r, map[]).rest);
    }
  }

  lemma BeforeMembers(w: string, members: seq<Member>) returns (more: seq<Member>)
    requires members != [] && AllSpace(w) && members[0].before == ""
    requires forall i | 0 <= i < |members| :: IsMember(members[i])
    ensures more != [] && (forall i | 0 <= i < |more| :: IsMember(more[i])) && |more| == |members|
    ensures YieldMembers(more) == w + YieldMembers(members) && Collected(more) == Collected(members)
  {
    var m := members[0];
    more := [m.(before := w)] + members[1..];
    assert more[1..] == members[1..];
    RegroupMember(w, ['\"'] + m.chars + ['\"'], m.middle, YieldItem(m.item));
    if |members| > 1 { RegroupComma(w, YieldMember(m), YieldMembers(members[1..])); }
  }

  lemma RegroupMember(w: string, q: string, middle: string, item: string)
    ensures w + q + middle + ":" + item == w + ("" + q + middle + ":" + item)
  {
  }

  lemma OneMember(first: Member)
    requires IsMember(first)
    ensures YieldMembers([first]) == YieldMember(first)
    ensures Collected([first]) == map[Combine(first.units) := Means(first.item.value)]
  {
    assert [first][1..] == [];
  }

  lemma MoreMembers(first: Member, more: seq<Member>)
    requires IsMember(first) && more != [] && forall i | 0 <= i < |more| :: IsMember(more[i])
    ensures YieldMembers([first] + more) == YieldMember(first) + "," + YieldMembers(more)
    ensures Collected([first] + more) == map[Combine(first.units) := Means(first.item.value)] + Collected(more)
    ensures forall i | 0 <= i < |[first] + more| :: IsMember(([first] + more)[i])
  {
    assert ([first] + more)[1..] == more;
  }

  lemma Overridden(done: map<Text, Value>, k: Text, v: Value, more: map<Text, Value>)
    ensures done[k := v] + more == done + (map[k := v] + more) && done + map[k := v] == done[k := v]
  {
  }

  /** A member at the front: its name, the white space around the colon, its value and the space after. */
  lemma MemberSound(s: string) returns (m: Member, tail: string)
    requires Starts(s, '\"') && ParseChars(s[1..]).Done?
    requires var k := ParseChars(s[1..]);
      Starts(SkipSpace(k.rest), ':') && ParseValue(SkipSpace(SkipSpace(k.rest)[1..])).Done?
    ensures var k := ParseChars(s[1..]); var p := ParseValue(SkipSpace(SkipSpace(k.rest)[1..]));
      && IsMember(m) && m.before == "" && Combine(m.units) == k.value && Means(m.item.value) == p.value
      && tail == SkipSpace(p.rest) && s == YieldMember(m) + tail
    decreases |s|, 2
  {
    var name := LiteralSound(s);
    var k := ParseChars(s[1..]);
    var w1 := SpaceSplit(k.rest);
    var r := SkipSpace(k.rest);
    Uncons(r, ':');
    var w2 := SpaceSplit(r[1..]);
    var q := SkipSpace(r[1..]);
    var p := ParseValue(q);
    var t := ValueSound(q);
    var w3 := SpaceSplit(p.rest);
    tail := SkipSpace(p.rest);
    m := Member("", name.chars, name.units, w1, Item(w2, t, w3));
    RegroupParts(['\"'] + name.chars + ['\"'], w1, w2, Yield(t), w3, tail);
  }

  lemma RegroupParts(name: string, w1: string, w2: string, y: string, w3: string, tail: string)
    ensures name + (w1 + ([':'] + (w2 + (y + (w3 + tail))))) == "" + name + w1 + ":" + (w2 + y + w3) + tail
  {
  }

  lemma {:induction false} FieldsSound(s: string, done: map<Text, Value>) returns (members: seq<Member>)
    requires ParseFields(s, done).Done?
    ensures members != [] && members[0].before == "" && forall i | 0 <= i < |members| :: IsMember(members[i])
    ensures ParseFields(s, done).value == Obj(done + Collected(members))
    ensures s == YieldMembers(members) + "}" + ParseFields(s, done).rest
    decreases |s|, 3
  {
    var m, tail := MemberSound(s);
    var k, v := Combine(m.units), Means(m.item.value);
    if Starts(tail, '}') {
      members := [m];
      OneMember(m);
      Overridden(done, k, v, map[]);
      LastOne(s, YieldMember(m), tail, '}');
    } else {
      var w := SpaceSplit(tail[1..]);
      var more := FieldsSound(SkipSpace(tail[1..]), done[k := v]);
      var padded := BeforeMembers(w, more);
      members := [m] + padded;
      MoreMembers(m, padded);
      Overridden(done, k, v, Collected(more));
      NextOnes(s, YieldMember(m), tail, w, SkipSpace(tail[1..]), YieldMembers(more), '}', ParseFields(s, done).rest);
    }
  }

  // ----- The reader accepts every JSON text -----

  lemma YieldHead(t: Tree)
    requires IsJson(t)
    ensures Yield(t) != "" && ValueHead(Yield(t)[0])
    ensures !t.NullWord? && !t.BoolWord? && !t.Number? ==>
      Yield(t)[0] == if t.Literal? then '\"' else if t.Array? then '[' else '{'
  {
  }

  lemma HeadNoSpace(c: char)
    requires ValueHead(c)
    ensures !IsSpace(c) && c != ']' && c != '}' && c != ','
  {
  }

  /** Past white space, a text that starts with a value. */
  lemma SkipToValue(w: string, t: Tree, tail: string)
    requires AllSpace(w) && IsJson(t)
    ensures SkipSpace(w + (Yield(t) + tail)) == Yield(t) + tail
  {
    YieldHead(t);
    HeadNoSpace(Yield(t)[0]);
    assert (Yield(t) + tail)[0] == Yield(t)[0];
    SkipSpaceOver(w, Yield(t) + tail);
  }

  predicate Closing(tail: string) { tail != "" && (tail[0] == ',' || tail[0] == ']' || tail[0] == '}') }

  lemma SpaceThenClosing(w: string, tail: string)
    requires AllSpace(w) && Closing(tail)
    ensures Ends(w + tail) && SkipSpace(w + tail) == tail
  {
    SkipSpaceOver(w, tail);
    if w != "" { assert (w + tail)[0] == w[0]; } else { assert w + tail == tail; }
  }

  lemma {:induction false} ValueComplete(t: Tree, rest: string)
    requires IsJson(t) && Ends(rest)
    ensures ParseValue(Yield(t) + rest) == Done(Means(t), rest)
    decreases t, 2
  {
    match t
    case NullWord => LiteralRoundTrip(Null, rest);
    case BoolWord(b) => LiteralRoundTrip(Bool(b), rest);
    case Number(digits, n) => NumberComplete(digits, n, rest);
    case Literal(chars, units) => LiteralComplete(chars, units, rest);
    case Array(space, items) => ArrayComplete(space, items, rest);
    case Object(space, members) => ObjectComplete(space, members, rest);
  }

  lemma NumberComplete(digits: string, n: int, rest: string)
    requires IsNumeral(digits, n) && Ends(rest)
    ensures ParseValue(digits + rest) == Done(Int(n), rest)
  {
    NumeralComplete(digits, n, rest);
    assert (digits + rest)[0] == digits[0];
  }

  lemma LiteralComplete(chars: string, units: Text, rest: string)
    requires Chars(chars, units)
    ensures ParseValue(['\"'] + chars + ['\"'] + rest) == Done(Str(Combine(units)), rest)
  {
    CharsComplete(chars, units, rest);
    assert (['\"'] + chars + ['\"'] + rest)[1..] == Closed(chars, rest);
  }

  /** The value of an item, read where it stands. */
  lemma {:induction false} ItemComplete(i: Item, tail: string)
    requires IsItem(i) && Closing(tail)
    ensures var s := SkipSpace(YieldItem(i) + tail);
      && ParseValue(s) == Done(Means(i.value), i.after + tail) && SkipSpace(i.after + tail) == tail
      && s != "" && ValueHead(s[0])
    decreases i, 3
  {
    assert YieldItem(i) + tail == i.before + (Yield(i.value) + (i.after + tail));
    SkipToValue(i.before, i.value, i.after + tail);
    SpaceThenClosing(i.after, tail);
    ValueComplete(i.value, i.after + tail);
    YieldHead(i.value);
  }

  lemma {:induction false} ArrayComplete(space: string, items: seq<Item>, rest: string)
    requires IsJson(Array(space, items))
    ensures ParseValue(Yield(Array(space, items)) + rest) == Done(Arr(MeanAll(items)), rest)
    decreases items, 1
  {
    var s := Yield(Array(space, items)) + rest;
    if items == [] {
      assert s[0] == '[' && s[1..] == space + ("]" + rest);
      SpaceThenClosing(space, "]" + rest);
      assert ("]" + rest)[1..] == rest;
    } else {
      var inner := YieldItems(items) + "]" + rest;
      assert s[0] == '[' && s[1..] == inner;
      ItemsComplete(items, [], rest);
      assert [] + MeanAll(items) == MeanAll(items);
    }
  }

  lemma {:induction false} ItemsComplete(items: seq<Item>, done: seq<Value>, rest: string)
    requires items != [] && forall i | 0 <= i < |items| :: IsItem(items[i])
    ensures var s := SkipSpace(YieldItems(items) + "]" + rest);
      ParseItems(s, done) == Done(Arr(done + MeanAll(items)), rest) && !Starts(s, ']')
    decreases items, 0
  {
    var first, v := items[0], Means(items[0].value);
    if |items| == 1 {
      var tail := "]" + rest;
      assert YieldItems(items) + "]" + rest == YieldItem(first) + tail;
      ItemComplete(first, tail);
      assert tail[1..] == rest && MeanAll(items) == [v];
      HeadNoSpace(SkipSpace(YieldItem(first) + tail)[0]);
    } else {
      var more := items[1..];
      var tail := "," + (YieldItems(more) + "]" + rest);
      assert YieldItems(items) + "]" + rest == YieldItem(first) + tail;
      ItemComplete(first, tail);
      ItemsComplete(more, done + [v], rest);
      assert tail[1..] == YieldItems(more) + "]" + rest;
      MoreMeans(done, v, MeanAll(more));
      HeadNoSpace(SkipSpace(YieldItem(first) + tail)[0]);
    }
  }

  lemma {:induction false} ObjectComplete(space: string, members: seq<Member>, rest: string)
    requires IsJson(Object(space, members))
    ensures ParseValue(Yield(Object(space, members)) + rest) == Done(Obj(Collected(members)), rest)
    decreases members, 1
  {
    var s := Yield(Object(space, members)) + rest;
    if members == [] {
      assert s[0] == '{' && s[1..] == space + ("}" + rest);
      SpaceThenClosing(space, "}" + rest);
      assert ("}" + rest)[1..] == rest;
    } else {
      var inner := YieldMembers(members) + "}" + rest;
      assert s[0] == '{' && s[1..] == inner;
      MembersComplete(members, map[], rest);
      assert map[] + Collected(members) == Collected(members);
    }
  }

  /** The name of a member, its colon, its value and what follows, read where they stand. */
  ghost predicate ReadsMember(s: string, m: Member, tail: string) {
    && Starts(s, '\"') && ParseChars(s[1..]).Done?
    && var k := ParseChars(s[1..]);
    && k.value == Combine(m.units) && Starts(SkipSpace(k.rest), ':')
    && ParseValue(SkipSpace(SkipSpace(k.rest)[1..])) == Done(Means(m.item.value), m.item.after + tail)
    && SkipSpace(m.item.after + tail) == tail
  }

  lemma FieldsLast(s: string, m: Member, tail: string, done: map<Text, Value>)
    requires ReadsMember(s, m, tail) && Starts(tail, '}')
    ensures ParseFields(s, done) == Done(Obj(done[Combine(m.units) := Means(m.item.value)]), tail[1..])
  {
  }

  lemma FieldsNext(s: string, m: Member, tail: string, done: map<Text, Value>)
    requires ReadsMember(s, m, tail) && Starts(tail, ',')
    ensures ParseFields(s, done)
         == ParseFields(SkipSpace(tail[1..]), done[Combine(m.units) := Means(m.item.value)])
  {
  }

  lemma {:induction false} MemberComplete(m: Member, tail: string)
    requires IsMember(m) && Closing(tail)
    ensures ReadsMember(SkipSpace(YieldMember(m) + tail), m, tail)
    decreases m, 4
  {
    var name, after := ['\"'] + m.chars + ['\"'], m.middle + (":" + (YieldItem(m.item) + tail));
    assert YieldMember(m) + tail == m.before + (name + after) by {
      RegroupName(m.before, name, m.middle, YieldItem(m.item), tail);
    }
    assert (name + after)[0] == '\"';
    SkipSpaceOver(m.before, name + after);
    assert (name + after)[1..] == Closed(m.chars, after);
    CharsComplete(m.chars, m.units, after);
    SkipSpaceOver(m.middle, ":" + (YieldItem(m.item) + tail));
    assert (":" + (YieldItem(m.item) + tail))[1..] == YieldItem(m.item) + tail;
    ItemComplete(m.item, tail);
  }

  lemma RegroupName(w: string, name: string, middle: string, item: string, tail: string)
    ensures w + name + middle + ":" + item + tail == w + (name + (middle + (":" + (item + tail))))
  {
  }

  lemma {:induction false} MembersComplete(members: seq<Member>, done: map<Text, Value>, rest: string)
    requires members != [] && forall i | 0 <= i < |members| :: IsMember(members[i])
    ensures var s := SkipSpace(YieldMembers(members) + "}" + rest);
      ParseFields(s, done) == Done(Obj(done + Collected(members)), rest) && Starts(s, '\"')
    decreases members, 0
  {
    var first := members[0];
    var k, v := Combine(first.units), Means(first.item.value);
    if |members| == 1 {
      var tail := "}" + rest;
      assert YieldMembers(members) + "}" + rest == YieldMember(first) + tail;
      MemberComplete(first, tail);
      FieldsLast(SkipSpace(YieldMember(first) + tail), first, tail, done);
      assert members == [first] && tail[1..] == rest;
      OneMember(first);
      Overridden(done, k, v, map[]);
    } else {
      var more := members[1..];
      var tail := "," + (YieldMembers(more) + "}" + rest);
      assert YieldMembers(members) + "}" + rest == YieldMember(first) + tail;
      MemberComplete(first, tail);
      FieldsNext(SkipSpace(YieldMember(first) + tail), first, tail, done);
      assert tail[1..] == YieldMembers(more) + "}" + rest;
      MembersComplete(more, done[k := v], rest);
      Overridden(done, k, v, Collected(more));
    }
  }

  // ----- The reader reads exactly the JSON texts -----

  /** White space, a JSON text of a value, and white space. */
  ghost predicate IsDocument(s: string, v: Value) {
    exists before, t, after ::
      AllSpace(before) && IsJson(t) && AllSpace(after) && s == before + Yield(t) + after && Means(t) == v
  }

  lemma DocumentSound(s: string)
    requires Loads(s).Done?
    ensures IsDocument(s, Loads(s).value)
  {
    var before := SpaceSplit(s);
    var p := ParseValue(SkipSpace(s));
    var t := ValueSound(SkipSpace(s));
    var after := SpaceSplit(p.rest);
    assert p.rest == after;
    assert s == before + Yield(t) + after;
  }

  lemma DocumentComplete(before: string, t: Tree, after: string)
    requires AllSpace(before) && IsJson(t) && AllSpace(after)
    ensures Loads(before + Yield(t) + after) == Done(Means(t), "")
  {
    assert before + Yield(t) + after == before + (Yield(t) + after);
    SkipToValue(before, t, after);
    ValueComplete(t, after);
    SkipSpaceOver(after, "");
    assert after + "" == after;
  }

  /** Every text, whatever it is: it is read, and read as a value, if and only if it is a JSON text of that
      value by the grammar, with white space around it. */
  lemma LoadsExactly(s: string, v: Value)
    ensures Loads(s) == Done(v, "") <==> IsDocument(s, v)
  {
    if Loads(s) == Done(v, "") { DocumentSound(s); }
    if IsDocument(s, v) {
      var before, t, after :| AllSpace(before) && IsJson(t) && AllSpace(after)
        && s == before + Yield(t) + after && Means(t) == v;
      DocumentComplete(before, t, after);
    }
  }

  // ----- What the escapes of the grammar stand for -----

  const LOWER := "0123456789abcdef"
  const UPPER := "0123456789ABCDEF"

  lemma HexValueExactly(c: char, n: int)
    requires 0 <= n < 16
    ensures HexValue(c) == n <==> c == LOWER[n] || c == UPPER[n]
  {
  }

  /** The one-letter escapes: these eight and no others. */
  lemma SimpleEscapeExactly(c: char)
    ensures SimpleEscape('\"') == '\"' as int && SimpleEscape('\\') == '\\' as int && SimpleEscape('/') == '/' as int
    ensures SimpleEscape('b') == 8 && SimpleEscape('t') == 9 && SimpleEscape('n') == 10
    ensures SimpleEscape('f') == 12 && SimpleEscape('r') == 13
    ensures SimpleEscape(c) >= 0 <==> c in {'\"', '\\', '/', 'b', 't', 'n', 'f', 'r'}
  {
  }

  /** Four hex digits, in either case, and their number. */
  lemma Hex4Exactly(s: string)
    ensures Hex4Value(s) >= 0 <==>
      |s| >= 4 && HexValue(s[0]) >= 0 && HexValue(s[1]) >= 0 && HexValue(s[2]) >= 0 && HexValue(s[3]) >= 0
    ensures Hex4Value(s) >= 0 ==>
      Hex4Value(s) == 4096 * HexValue(s[0]) + 256 * HexValue(s[1]) + 16 * HexValue(s[2]) + HexValue(s[3])
  {
  }
}
