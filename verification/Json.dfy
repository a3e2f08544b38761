/** `json.dumps(.., sort_keys=True, separators=(",", ":"))` and `json.loads`. */
module Json {
  import opened Decimal
  import opened Text

  // A dict is a map: neither printing with sorted keys nor `==` sees insertion order.
  datatype Value =
    | Null
    | Bool(b: bool)
    | Int(n: int)
    | Str(t: Text)
    | Arr(items: seq<Value>)
    | Obj(fields: map<Text, Value>)

  // ----- Printer -----

  function PrintInt(n: int): string {
    if n < 0 then ['-'] + Numeral(-n) else Numeral(n)
  }

  function Print(v: Value): string
    decreases v, 0
  {
    match v
    case Null => "null"
    case Bool(b) => if b then "true" else "false"
    case Int(n) => PrintInt(n)
    case Str(t) => Quote(t)
    case Arr(items) => if items == [] then "[]" else "[" + PrintItems(items) + "]"
    case Obj(m) => if m == map[] then "{}" else "{" + PrintFields(v, SortedKeys(m.Keys)) + "}"
  }

  function PrintItems(items: seq<Value>): string
    requires items != []
    decreases items
  {
    if |items| == 1 then Print(items[0]) else Print(items[0]) + "," + PrintItems(items[1..])
  }

  /** The members of object `v` with the given keys, in that order. */
  function PrintFields(v: Value, keys: seq<Text>): string
    requires v.Obj? && keys != []
    requires forall k | k in keys :: k in v.fields
    decreases v, 0, |keys|
  {
    var first := Quote(keys[0]) + ":" + Print(v.fields[keys[0]]);
    if |keys| == 1 then first else first + "," + PrintFields(v, keys[1..])
  }

  // ----- Parser -----

  predicate IsSpace(c: char) { c == ' ' || c == '\t' || c == '\n' || c == '\r' }

  function SkipSpace(s: string): (r: string)
    ensures |r| <= |s|
  {
    if s != "" && IsSpace(s[0]) then SkipSpace(s[1..]) else s
  }

  predicate Starts(s: string, c: char) { s != "" && s[0] == c }

  function ParseDigits(s: string, acc: int): (p: Parsed<int>)
    ensures p.Done? && |p.rest| <= |s|
  {
    if s != "" && IsDigit(s[0]) then ParseDigits(s[1..], acc * 10 + DigitValue(s[0])) else Done(acc, s)
  }

  /** An unsigned integer: a zero, or digits that do not start with one. */
  function ParseNat(s: string): (p: Parsed<int>)
    ensures p.Done? ==> |p.rest| < |s|
  {
    if s == "" || !IsDigit(s[0]) then Fail
    else if s[0] == '0' then Done(0, s[1..])
    else ParseDigits(s[1..], DigitValue(s[0]))
  }

  function ParseInt(s: string): (p: Parsed<int>)
    ensures p.Done? ==> |p.rest| < |s|
  {
    if Starts(s, '-') then
      var p := ParseNat(s[1..]);
      if p.Done? then Done(-p.value, p.rest) else Fail
    else ParseNat(s)
  }

  function ParseValue(s: string): (p: Parsed<Value>)
    ensures p.Done? ==> |p.rest| < |s|
    decreases |s|, 0
  {
    if Starts(s, '\"') then
      var p := ParseChars(s[1..]);
      if p.Done? then Done(Str(p.value), p.rest) else Fail
    else if Starts(s, '{') then
      var r := SkipSpace(s[1..]);
      if Starts(r, '}') then Done(Obj(map[]), r[1..]) else ParseFields(r, map[])
    else if Starts(s, '[') then
      var r := SkipSpace(s[1..]);
      if Starts(r, ']') then Done(Arr([]), r[1..]) else ParseItems(r, [])
    else if "null" <= s then Done(Null, s[4..])
    else if "true" <= s then Done(Bool(true), s[4..])
    else if "false" <= s then Done(Bool(false), s[5..])
    else
      var p := ParseInt(s);
      if p.Done? then Done(Int(p.value), p.rest) else Fail
  }

  /** The rest of an array whose first elements are already read. */
  function ParseItems(s: string, items: seq<Value>): (p: Parsed<Value>)
    ensures p.Done? ==> |p.rest| < |s|
    decreases |s|, 1
  {
    var p := ParseValue(s);
    if p.Fail? then Fail
    else
      var r := SkipSpace(p.rest);
      if Starts(r, ']') then Done(Arr(items + [p.value]), r[1..])
      else if Starts(r, ',') then ParseItems(SkipSpace(r[1..]), items + [p.value])
      else Fail
  }

  /** The rest of an object whose first members are already read. */
  function ParseFields(s: string, m: map<Text, Value>): (p: Parsed<Value>)
    ensures p.Done? ==> |p.rest| < |s|
    decreases |s|, 1
  {
    if !Starts(s, '\"') then Fail
    else
      var k := ParseChars(s[1..]);
      if k.Fail? || !Starts(SkipSpace(k.rest), ':') then Fail
      else ParseMember(SkipSpace(SkipSpace(k.rest)[1..]), k.value, m)
  }

  /** The same after a key and its colon; a repeated key takes the last value. */
  function ParseMember(s: string, k: Text, m: map<Text, Value>): (p: Parsed<Value>)
    ensures p.Done? ==> |p.rest| < |s|
    decreases |s|, 1
  {
    var p := ParseValue(s);
    if p.Fail? then Fail
    else
      var r := SkipSpace(p.rest);
      if Starts(r, '}') then Done(Obj(m[k := p.value]), r[1..])
      else if Starts(r, ',') then ParseFields(SkipSpace(r[1..]), m[k := p.value])
      else Fail
  }

  /** `json.loads`: one value, with nothing but white space around it. */
  function Loads(s: string): Parsed<Value> {
    var p := ParseValue(SkipSpace(s));
    if p.Done? && SkipSpace(p.rest) == "" then Done(p.value, "") else Fail
  }

  // ----- What a round trip does to a value -----

  /** Every key, at every depth, is clean. */
  ghost predicate CleanKeys(v: Value) {
    match v
    case Arr(items) => forall i | 0 <= i < |items| :: CleanKeys(items[i])
    case Obj(m) => forall k | k in m :: Clean(k) && CleanKeys(m[k])
    case _ => true
  }

  /** Every string and every key, at every depth, is clean. */
  ghost predicate CleanValue(v: Value) {
    match v
    case Str(t) => Clean(t)
    case Arr(items) => forall i | 0 <= i < |items| :: CleanValue(items[i])
    case Obj(m) => forall k | k in m :: Clean(k) && CleanValue(m[k])
    case _ => true
  }

  /** The value as it is read back: every string and key combined. Of keys that combine to the same text
      the last one printed wins. */
  function Norm(v: Value): Value
    decreases v, 0
  {
    match v
    case Str(t) => Str(Combine(t))
    case Arr(items) => Arr(seq(|items|, i requires 0 <= i < |items| => Norm(items[i])))
    case Obj(m) => Obj(NormFields(v, SortedKeys(m.Keys), map[]))
    case _ => v
  }

  function NormFields(v: Value, keys: seq<Text>, done: map<Text, Value>): map<Text, Value>
    requires v.Obj? && forall k | k in keys :: k in v.fields
    decreases v, 0, |keys|
  {
    if keys == [] then done
    else NormFields(v, keys[1..], done[Combine(keys[0]) := Norm(v.fields[keys[0]])])
  }

  ghost function Kept(v: Value, keys: seq<Text>): map<Text, Value>
    requires v.Obj? && forall k | k in keys :: k in v.fields
  {
    map k | k in keys :: Norm(v.fields[k])
  }

  lemma KeptSplit(v: Value, keys: seq<Text>, done: map<Text, Value>)
    requires v.Obj? && keys != [] && forall k | k in keys :: k in v.fields
    ensures done + Kept(v, keys) == done[keys[0] := Norm(v.fields[keys[0]])] + Kept(v, keys[1..])
  {
  }

  lemma {:induction false} NormCleanFields(v: Value, keys: seq<Text>, done: map<Text, Value>)
    requires v.Obj? && forall k | k in keys :: k in v.fields && Clean(k)
    ensures NormFields(v, keys, done) == done + Kept(v, keys)
    decreases |keys|
  {
    if keys != [] {
      CombineFixesClean(keys[0]);
      KeptSplit(v, keys, done);
      NormCleanFields(v, keys[1..], done[keys[0] := Norm(v.fields[keys[0]])]);
    }
  }

  ghost function NormMap(m: map<Text, Value>): map<Text, Value> { map k | k in m :: Norm(m[k]) }

  lemma NormMapUpdate(m: map<Text, Value>, k: Text, v: Value)
    ensures NormMap(m[k := v]) == NormMap(m)[k := Norm(v)]
  {
  }

  lemma KeptAll(m: map<Text, Value>)
    ensures map[] + Kept(Obj(m), SortedKeys(m.Keys)) == NormMap(m)
  {
  }

  /** Clean keys stay as they are. */
  lemma NormObj(m: map<Text, Value>)
    requires forall k | k in m :: Clean(k)
    ensures Norm(Obj(m)) == Obj(NormMap(m))
  {
    NormCleanFields(Obj(m), SortedKeys(m.Keys), map[]);
    KeptAll(m);
  }

  lemma {:induction false} CleanValueIsFixed(v: Value)
    requires CleanValue(v)
    ensures CleanKeys(v) && Norm(v) == v
  {
    match v
    case Str(t) =>
      CombineFixesClean(t);
    case Arr(items) =>
      forall i | 0 <= i < |items| ensures CleanKeys(items[i]) && Norm(items[i]) == items[i] {
        CleanValueIsFixed(items[i]);
      }
    case Obj(m) =>
      forall k | k in m ensures CleanKeys(m[k]) && Norm(m[k]) == m[k] {
        CleanValueIsFixed(m[k]);
      }
      NormObj(m);
    case _ =>
  }

  // ----- Parsing what was printed -----

  /** What follows a value does not extend a numeral. */
  predicate Ends(rest: string) { rest == "" || !IsDigit(rest[0]) }

  lemma {:induction false} DigitsRoundTrip(w: string, rest: string, acc: int)
    requires AllDigits(w) && Ends(rest)
    ensures ParseDigits(w + rest, acc) == Done(Horner(w, acc), rest)
  {
    if w == "" {
      assert w + rest == rest;
    } else {
      assert (w + rest)[1..] == w[1..] + rest;
      DigitsRoundTrip(w[1..], rest, acc * 10 + DigitValue(w[0]));
    }
  }

  lemma NumeralRoundTrip(n: nat, rest: string)
    requires Ends(rest)
    ensures ParseNat(Numeral(n) + rest) == Done(n, rest)
  {
    var w := Numeral(n);
    NumeralReadsBack(n);
    assert (w + rest)[1..] == w[1..] + rest;
    DigitsRoundTrip(w[1..], rest, DigitValue(w[0]));
  }

  lemma NegativeRoundTrip(n: int, rest: string)
    requires n >= 0 && Ends(rest)
    ensures ParseInt(['-'] + Numeral(n) + rest) == Done(-n, rest)
  {
    NumeralRoundTrip(n, rest);
    assert (['-'] + Numeral(n) + rest)[1..] == Numeral(n) + rest;
  }

  lemma NonNegativeRoundTrip(n: nat, rest: string)
    requires Ends(rest)
    ensures ParseInt(Numeral(n) + rest) == Done(n, rest)
  {
    NumeralRoundTrip(n, rest);
    var c := Numeral(n)[0];
    assert IsDigit(c) && (Numeral(n) + rest)[0] == c;
  }

  lemma IntRoundTrip(n: int, rest: string)
    requires Ends(rest)
    ensures ParseInt(PrintInt(n) + rest) == Done(n, rest)
    ensures PrintInt(n)[0] == '-' || IsDigit(PrintInt(n)[0])
  {
    if n < 0 { NegativeRoundTrip(-n, rest); } else { NonNegativeRoundTrip(n, rest); }
  }

  predicate ValueHead(c: char) {
    c == 'n' || c == 't' || c == 'f' || c == '\"' || c == '[' || c == '{' || c == '-' || IsDigit(c)
  }

  lemma PrintHead(v: Value)
    ensures Print(v) != "" && ValueHead(Print(v)[0])
  {
  }

  lemma PrintItemsHead(items: seq<Value>)
    requires items != []
    ensures PrintItems(items) != "" && ValueHead(PrintItems(items)[0])
  {
    PrintHead(items[0]);
  }

  predicate NoSpaceAhead(s: string) { s == "" || !IsSpace(s[0]) }

  lemma OpenBracket(body: string)
    requires body != "" && ValueHead(body[0])
    ensures ParseValue("[" + body) == ParseItems(body, [])
  {
    var s := "[" + body;
    assert s[0] == '[' && s[1..] == body;
    assert SkipSpace(body) == body && !Starts(body, ']');
  }

  lemma OpenBrace(body: string)
    requires Starts(body, '\"')
    ensures ParseValue("{" + body) == ParseFields(body, map[])
  {
  }

  lemma OpenQuote(t: Text, rest: string)
    ensures ParseValue(Quote(t) + rest) == Done(Str(Combine(t)), rest)
  {
    assert (Quote(t) + rest)[1..] == EscapeText(t) + ['\"'] + rest;
    TextRoundTrip(t, rest);
  }

  lemma LastItem(s: string, x: Value, rest: string, done: seq<Value>)
    requires ParseValue(s) == Done(x, "]" + rest)
    ensures ParseItems(s, done) == Done(Arr(done + [x]), rest)
  {
  }

  lemma NextItem(s: string, x: Value, tail: string, done: seq<Value>)
    requires ParseValue(s) == Done(x, "," + tail) && NoSpaceAhead(tail)
    ensures ParseItems(s, done) == ParseItems(tail, done + [x])
  {
  }

  lemma KeyReads(k: Text, s: string)
    ensures ParseChars((Quote(k) + ":" + s)[1..]) == Done(Combine(k), ":" + s)
  {
    var w := ":" + s;
    TextRoundTrip(k, w);
    AfterQuote(EscapeText(k), w, s);
  }

  lemma AfterQuote(e: string, w: string, s: string)
    requires w == ":" + s
    ensures (['\"'] + e + ['\"'] + ":" + s)[1..] == e + ['\"'] + w
  {
  }

  lemma OpenKey(k: Text, w: string, done: map<Text, Value>)
    requires NoSpaceAhead(w)
    ensures ParseFields(Quote(k) + ":" + w, done) == ParseMember(w, Combine(k), done)
  {
    KeyReads(k, w);
    assert (":" + w)[1..] == w;
  }

  lemma LastField(k: Text, x: Value, w: string, rest: string, done: map<Text, Value>)
    requires ParseValue(w) == Done(x, "}" + rest)
    ensures ParseMember(w, k, done) == Done(Obj(done[k := x]), rest)
  {
  }

  lemma NextField(k: Text, x: Value, w: string, tail: string, done: map<Text, Value>)
    requires ParseValue(w) == Done(x, "," + tail) && NoSpaceAhead(tail)
    ensures ParseMember(w, k, done) == ParseFields(tail, done[k := x])
  {
  }

  function NormItems(items: seq<Value>): seq<Value> {
    seq(|items|, i requires 0 <= i < |items| => Norm(items[i]))
  }

  lemma NormItemsSplit(items: seq<Value>, done: seq<Value>)
    requires items != []
    ensures done + NormItems(items) == (done + [Norm(items[0])]) + NormItems(items[1..])
    ensures |items| == 1 ==> done + NormItems(items) == done + [Norm(items[0])]
  {
  }

  lemma LiteralRoundTrip(v: Value, rest: string)
    requires v.Null? || v.Bool?
    ensures ParseValue(Print(v) + rest) == Done(v, rest)
  {
    var s := Print(v) + rest;
    var n := |Print(v)|;
    assert s[n..] == rest && s[..n] == Print(v);
  }

  /** Parsing a printed value gives the value with its strings combined. */
  lemma {:induction false} RoundTrip(v: Value, rest: string)
    requires Ends(rest)
    ensures ParseValue(Print(v) + rest) == Done(Norm(v), rest)
    decreases v, 0
  {
    match v
    case Null => LiteralRoundTrip(v, rest);
    case Bool(_) => LiteralRoundTrip(v, rest);
    case Int(n) => IntRoundTrip(n, rest);
    case Str(t) => OpenQuote(t, rest);
    case Arr(items) => ArrayRoundTrip(items, rest);
    case Obj(m) => ObjectRoundTrip(v, rest);
  }

  lemma {:induction false} ArrayRoundTrip(items: seq<Value>, rest: string)
    ensures ParseValue(Print(Arr(items)) + rest) == Done(Norm(Arr(items)), rest)
    decreases items, 1
  {
    if items == [] {
      assert ("[]" + rest)[1..] == "]" + rest;
      assert ("]" + rest)[1..] == rest;
    } else {
      var body := PrintItems(items) + "]" + rest;
      assert Print(Arr(items)) + rest == "[" + body by { RegroupWrap("[", PrintItems(items), "]", rest); }
      PrintItemsHead(items);
      OpenBracket(body);
      ItemsRoundTrip(items, rest, []);
      assert [] + NormItems(items) == Norm(Arr(items)).items;
    }
  }

  lemma {:induction false} ObjectRoundTrip(v: Value, rest: string)
    requires v.Obj?
    ensures ParseValue(Print(v) + rest) == Done(Norm(v), rest)
    decreases v, 0, |v.fields| + 1
  {
    if v.fields == map[] {
      EmptyObject(rest);
    } else {
      var keys := SortedKeys(v.fields.Keys);
      var body := PrintFields(v, keys) + "}" + rest;
      assert Print(v) + rest == "{" + body by { RegroupWrap("{", PrintFields(v, keys), "}", rest); }
      OpenBrace(body);
      FieldsRoundTrip(v, keys, rest, map[]);
    }
  }

  lemma EmptyObject(rest: string)
    ensures ParseValue("{}" + rest) == Done(Obj(map[]), rest)
  {
  }

  lemma RegroupWrap(a: string, w: string, b: string, rest: string)
    ensures a + w + b + rest == a + (w + b + rest)
  {
  }

  /** What follows the first item of a printed array. */
  function AfterItem(items: seq<Value>, rest: string): string
    requires items != []
  {
    if |items| == 1 then "]" + rest else "," + (PrintItems(items[1..]) + "]" + rest)
  }

  lemma ItemsText(items: seq<Value>, rest: string)
    requires items != []
    ensures PrintItems(items) + "]" + rest == Print(items[0]) + AfterItem(items, rest)
    ensures Ends(AfterItem(items, rest))
  {
  }

  lemma {:induction false} ItemsRoundTrip(items: seq<Value>, rest: string, done: seq<Value>)
    requires items != []
    ensures ParseItems(PrintItems(items) + "]" + rest, done) == Done(Arr(done + NormItems(items)), rest)
    decreases items, 0
  {
    ItemsText(items, rest);
    NormItemsSplit(items, done);
    RoundTrip(items[0], AfterItem(items, rest));
    var s := PrintItems(items) + "]" + rest;
    if |items| == 1 {
      LastItem(s, Norm(items[0]), rest, done);
    } else {
      var tail := PrintItems(items[1..]) + "]" + rest;
      PrintItemsHead(items[1..]);
      assert AfterItem(items, rest) == "," + tail && tail[0] == PrintItems(items[1..])[0];
      NextItem(s, Norm(items[0]), tail, done);
      ItemsRoundTrip(items[1..], rest, done + [Norm(items[0])]);
    }
  }

  /** What follows the first member of a printed object. */
  function AfterField(v: Value, keys: seq<Text>, rest: string): string
    requires v.Obj? && keys != [] && forall k | k in keys :: k in v.fields
  {
    if |keys| == 1 then "}" + rest else "," + (PrintFields(v, keys[1..]) + "}" + rest)
  }

  lemma Regroup(q: string, p: string, t: string, rest: string)
    ensures q + ":" + p + "}" + rest == q + ":" + (p + ("}" + rest))
    ensures q + ":" + p + "," + t + "}" + rest == q + ":" + (p + ("," + (t + "}" + rest)))
  {
  }

  lemma FieldsText(v: Value, keys: seq<Text>, rest: string)
    requires v.Obj? && keys != [] && forall k | k in keys :: k in v.fields
    ensures PrintFields(v, keys) + "}" + rest
         == Quote(keys[0]) + ":" + (Print(v.fields[keys[0]]) + AfterField(v, keys, rest))
    ensures Ends(AfterField(v, keys, rest))
  {
    Regroup(Quote(keys[0]), Print(v.fields[keys[0]]), if |keys| == 1 then "" else PrintFields(v, keys[1..]), rest);
  }

  lemma {:induction false} FieldsRoundTrip(v: Value, keys: seq<Text>, rest: string, done: map<Text, Value>)
    requires v.Obj? && keys != [] && forall k | k in keys :: k in v.fields
    ensures ParseFields(PrintFields(v, keys) + "}" + rest, done) == Done(Obj(NormFields(v, keys, done)), rest)
    decreases v, 0, |keys|
  {
    var k := keys[0];
    var x := v.fields[k];
    FieldsText(v, keys, rest);
    RoundTrip(x, AfterField(v, keys, rest));
    PrintHead(x);
    var w := Print(x) + AfterField(v, keys, rest);
    OpenKey(k, w, done);
    if |keys| == 1 {
      LastField(Combine(k), Norm(x), w, rest, done);
    } else {
      NextField(Combine(k), Norm(x), w, PrintFields(v, keys[1..]) + "}" + rest, done);
      FieldsRoundTrip(v, keys[1..], rest, done[Combine(k) := Norm(x)]);
    }
  }

  // ----- When two values print alike -----

  /** Equal but for the spelling of strings and keys: the same keys in the same sorted places. */
  ghost predicate Alike(v: Value, w: Value)
    decreases v
  {
    match v
    case Str(t) => w.Str? && Combine(t) == Combine(w.t)
    case Arr(items) =>
      w.Arr? && |items| == |w.items| && forall i | 0 <= i < |items| :: Alike(items[i], w.items[i])
    case Obj(m) =>
      w.Obj? && var ks, ls := SortedKeys(m.Keys), SortedKeys(w.fields.Keys);
      && |ks| == |ls|
      && forall i | 0 <= i < |ks| :: Combine(ks[i]) == Combine(ls[i]) && Alike(m[ks[i]], w.fields[ls[i]])
    case _ => v == w
  }

  ghost predicate FieldsAlike(v: Value, ks: seq<Text>, w: Value, ls: seq<Text>)
    requires v.Obj? && forall k | k in ks :: k in v.fields
    requires w.Obj? && forall k | k in ls :: k in w.fields
  {
    && |ks| == |ls|
    && forall i | 0 <= i < |ks| :: Combine(ks[i]) == Combine(ls[i]) && Alike(v.fields[ks[i]], w.fields[ls[i]])
  }

  /** The kind of value that a print starting with a character is of. */
  function KindAhead(c: char): nat {
    if c == 'n' then 0
    else if c == 't' || c == 'f' then 1
    else if c == '\"' then 3
    else if c == '[' then 4
    else if c == '{' then 5
    else 2
  }

  function Kind(v: Value): nat {
    match v
    case Null => 0
    case Bool(_) => 1
    case Int(_) => 2
    case Str(_) => 3
    case Arr(_) => 4
    case Obj(_) => 5
  }

  lemma PrintShowsKind(v: Value)
    ensures Print(v) != "" && KindAhead(Print(v)[0]) == Kind(v)
  {
    match v
    case Int(n) => IntHead(n);
    case Str(t) => Bracketed('\"', EscapeText(t), '\"');
    case Arr(items) => if items != [] { Bracketed('[', PrintItems(items), ']'); }
    case Obj(m) => if m != map[] { Bracketed('{', PrintFields(v, SortedKeys(m.Keys)), '}'); }
    case _ =>
  }

  lemma IntHead(n: int)
    ensures PrintInt(n) != "" && KindAhead(PrintInt(n)[0]) == 2
  {
  }

  lemma Bracketed(c: char, s: string, d: char)
    ensures [c] + s + [d] != "" && ([c] + s + [d])[0] == c
  {
  }

  lemma SameHead(s: string, r: string, t: string, q: string)
    requires s != "" && t != "" && s + r == t + q
    ensures s[0] == t[0]
  {
    assert (s + r)[0] == s[0] && (t + q)[0] == t[0];
  }

  /** A print can be told from what follows it, and shows the value but for the spelling of its strings. */
  lemma {:induction false} ReadsOneWay(v: Value, r: string, w: Value, q: string)
    requires Ends(r) && Ends(q) && Print(v) + r == Print(w) + q
    ensures Alike(v, w) && r == q
    decreases v, 0
  {
    PrintShowsKind(v);
    PrintShowsKind(w);
    SameHead(Print(v), r, Print(w), q);
    match v
    case Null => LiteralRoundTrip(v, r); LiteralRoundTrip(w, q);
    case Bool(_) => LiteralRoundTrip(v, r); LiteralRoundTrip(w, q);
    case Int(_) => IntRoundTrip(v.n, r); IntRoundTrip(w.n, q);
    case Str(_) => OpenQuote(v.t, r); OpenQuote(w.t, q);
    case Arr(_) => ArrayReadsOneWay(v.items, r, w.items, q);
    case Obj(_) => ObjectReadsOneWay(v, r, w, q);
  }

  lemma {:induction false} ArrayReadsOneWay(a: seq<Value>, r: string, b: seq<Value>, q: string)
    requires Print(Arr(a)) + r == Print(Arr(b)) + q
    ensures Alike(Arr(a), Arr(b)) && r == q
    decreases a, 1
  {
    var s, t := Inside(Arr(a), r), Inside(Arr(b), q);
    InsideText(Arr(a), r);
    InsideText(Arr(b), q);
    ArrayHead(a, r);
    ArrayHead(b, q);
    assert s == t;
    if a != [] { ItemsReadOneWay(a, r, b, q); } else { assert s[1..] == r && t[1..] == q; }
  }

  /** A container's print and what follows it, without the opening bracket. */
  function Inside(v: Value, rest: string): string
    requires v.Arr? || v.Obj?
  {
    if v.Arr? then (if v.items == [] then "]" + rest else PrintItems(v.items) + "]" + rest)
    else if v.fields == map[] then "}" + rest
    else PrintFields(v, SortedKeys(v.fields.Keys)) + "}" + rest
  }

  lemma InsideText(v: Value, rest: string)
    requires v.Arr? || v.Obj?
    ensures (Print(v) + rest)[1..] == Inside(v, rest)
  {
    if v.Arr? && v.items != [] {
      RegroupWrap("[", PrintItems(v.items), "]", rest);
    } else if v.Obj? && v.fields != map[] {
      RegroupWrap("{", PrintFields(v, SortedKeys(v.fields.Keys)), "}", rest);
    }
  }

  lemma {:induction false} ItemsReadOneWay(a: seq<Value>, r: string, b: seq<Value>, q: string)
    requires a != [] && b != [] && PrintItems(a) + "]" + r == PrintItems(b) + "]" + q
    ensures Alike(Arr(a), Arr(b)) && r == q
    decreases a, 0
  {
    ItemsText(a, r);
    ItemsText(b, q);
    var s, t := AfterItem(a, r), AfterItem(b, q);
    ReadsOneWay(a[0], s, b[0], t);
    assert s[0] == t[0] && s[1..] == t[1..];
    if |a| > 1 {
      ItemsReadOneWay(a[1..], r, b[1..], q);
    }
    forall i | 0 <= i < |a| ensures i < |b| && Alike(a[i], b[i]) {
      if i > 0 { assert a[i] == a[1..][i - 1] && b[i] == b[1..][i - 1]; }
    }
  }

  lemma {:induction false} ObjectReadsOneWay(v: Value, r: string, w: Value, q: string)
    requires v.Obj? && w.Obj? && Print(v) + r == Print(w) + q
    ensures Alike(v, w) && r == q
    decreases v, 0, |v.fields| + 1
  {
    InsideText(v, r);
    InsideText(w, q);
    ObjectHead(v, r);
    ObjectHead(w, q);
    assert Inside(v, r) == Inside(w, q);
    if v.fields != map[] {
      FieldsReadOneWay(v, SortedKeys(v.fields.Keys), r, w, SortedKeys(w.fields.Keys), q);
    } else {
      assert Inside(v, r)[1..] == r && Inside(w, q)[1..] == q;
    }
  }

  /** The first character inside tells an empty container from others. */
  lemma ArrayHead(a: seq<Value>, rest: string)
    ensures Inside(Arr(a), rest) != "" && (Inside(Arr(a), rest)[0] == ']' <==> a == [])
  {
    if a != [] { PrintItemsHead(a); }
  }

  lemma ObjectHead(v: Value, rest: string)
    requires v.Obj?
    ensures Inside(v, rest) != "" && (Inside(v, rest)[0] == '}' <==> v.fields == map[])
    ensures v.fields == map[] <==> SortedKeys(v.fields.Keys) == []
  {
  }

  lemma KeyReadsOneWay(k: Text, s: string, l: Text, t: string)
    requires Quote(k) + ":" + s == Quote(l) + ":" + t
    ensures Combine(k) == Combine(l) && s == t
  {
    KeyReads(k, s);
    KeyReads(l, t);
    var u, w := ":" + s, ":" + t;
    assert u == w by { assert Done(Combine(k), u) == Done(Combine(l), w); }
    assert u[1..] == s && w[1..] == t;
  }

  lemma AfterFieldDecides(v: Value, ks: seq<Text>, r: string, w: Value, ls: seq<Text>, q: string)
    requires v.Obj? && ks != [] && forall k | k in ks :: k in v.fields
    requires w.Obj? && ls != [] && forall k | k in ls :: k in w.fields
    requires AfterField(v, ks, r) == AfterField(w, ls, q)
    ensures |ks| == 1 <==> |ls| == 1
    ensures |ks| == 1 ==> r == q
    ensures |ks| > 1 ==> PrintFields(v, ks[1..]) + "}" + r == PrintFields(w, ls[1..]) + "}" + q
  {
    var s, t := AfterField(v, ks, r), AfterField(w, ls, q);
    assert s[0] == t[0] && s[1..] == t[1..];
  }

  lemma FieldsAlikeCons(v: Value, ks: seq<Text>, w: Value, ls: seq<Text>)
    requires v.Obj? && ks != [] && forall k | k in ks :: k in v.fields
    requires w.Obj? && ls != [] && forall k | k in ls :: k in w.fields
    requires Combine(ks[0]) == Combine(ls[0]) && Alike(v.fields[ks[0]], w.fields[ls[0]])
    requires FieldsAlike(v, ks[1..], w, ls[1..])
    ensures FieldsAlike(v, ks, w, ls)
  {
  }

  lemma {:induction false} FieldsReadOneWay(v: Value, ks: seq<Text>, r: string, w: Value, ls: seq<Text>, q: string)
    requires v.Obj? && ks != [] && forall k | k in ks :: k in v.fields
    requires w.Obj? && ls != [] && forall k | k in ls :: k in w.fields
    requires PrintFields(v, ks) + "}" + r == PrintFields(w, ls) + "}" + q
    ensures FieldsAlike(v, ks, w, ls) && r == q
    decreases v, 0, |ks|
  {
    FieldsText(v, ks, r);
    FieldsText(w, ls, q);
    var x, y := v.fields[ks[0]], w.fields[ls[0]];
    var s, t := AfterField(v, ks, r), AfterField(w, ls, q);
    KeyReadsOneWay(ks[0], Print(x) + s, ls[0], Print(y) + t);
    ReadsOneWay(x, s, y, t);
    AfterFieldDecides(v, ks, r, w, ls, q);
    if |ks| > 1 { FieldsReadOneWay(v, ks[1..], r, w, ls[1..], q); }
    FieldsAlikeCons(v, ks, w, ls);
  }

  lemma {:induction false} AlikePrints(v: Value, w: Value)
    requires Alike(v, w)
    ensures Print(v) == Print(w)
    decreases v, 0
  {
    match v
    case Str(t) => CombineWritesAlike(t); CombineWritesAlike(w.t);
    case Arr(items) => if items != [] { AlikeItemsPrint(items, w.items); }
    case Obj(m) =>
      var ks, ls := SortedKeys(m.Keys), SortedKeys(w.fields.Keys);
      if ks != [] { AlikeFieldsPrint(v, ks, w, ls); }
    case _ =>
  }

  lemma {:induction false} AlikeItemsPrint(a: seq<Value>, b: seq<Value>)
    requires a != [] && |a| == |b| && forall i | 0 <= i < |a| :: Alike(a[i], b[i])
    ensures PrintItems(a) == PrintItems(b)
    decreases a
  {
    AlikePrints(a[0], b[0]);
    if |a| > 1 { AlikeItemsPrint(a[1..], b[1..]); }
  }

  lemma {:induction false} AlikeFieldsPrint(v: Value, ks: seq<Text>, w: Value, ls: seq<Text>)
    requires v.Obj? && ks != [] && forall k | k in ks :: k in v.fields
    requires w.Obj? && forall k | k in ls :: k in w.fields
    requires FieldsAlike(v, ks, w, ls)
    ensures PrintFields(v, ks) == PrintFields(w, ls)
    decreases v, 0, |ks|
  {
    CombineWritesAlike(ks[0]);
    CombineWritesAlike(ls[0]);
    AlikePrints(v.fields[ks[0]], w.fields[ls[0]]);
    if |ks| > 1 { AlikeFieldsPrint(v, ks[1..], w, ls[1..]); }
  }

  /** Two values, of any kind and with any strings and keys, print the same text exactly when they are alike. */
  lemma PrintExactly(v: Value, w: Value)
    ensures Print(v) == Print(w) <==> Alike(v, w)
  {
    if Print(v) == Print(w) { ReadsOneWay(v, "", w, ""); }
    if Alike(v, w) { AlikePrints(v, w); }
  }

  /** Objects with the same keys are alike exactly when their members are. */
  lemma AlikeSameKeys(m: map<Text, Value>, n: map<Text, Value>)
    requires m.Keys == n.Keys
    ensures Alike(Obj(m), Obj(n)) <==> forall k | k in m :: Alike(m[k], n[k])
  {
    var ks := SortedKeys(m.Keys);
    if Alike(Obj(m), Obj(n)) {
      forall k | k in m ensures Alike(m[k], n[k]) {
        var i :| 0 <= i < |ks| && ks[i] == k;
      }
    }
  }

  // ----- Values with only one spelling -----

  /** Every key, at every depth, is plain. */
  ghost predicate PlainKeys(v: Value) {
    match v
    case Arr(items) => forall i | 0 <= i < |items| :: PlainKeys(items[i])
    case Obj(m) => forall k | k in m :: Plain(k) && PlainKeys(m[k])
    case _ => true
  }

  /** Every string that is not a key, at every depth, is plain. */
  ghost predicate PlainStrings(v: Value) {
    match v
    case Str(t) => Plain(t)
    case Arr(items) => forall i | 0 <= i < |items| :: PlainStrings(items[i])
    case Obj(m) => forall k | k in m :: PlainStrings(m[k])
    case _ => true
  }

  lemma PlainListing(ks: seq<Text>, ls: seq<Text>)
    requires |ks| == |ls| && forall i | 0 <= i < |ks| :: Plain(ks[i]) && Combine(ks[i]) == Combine(ls[i])
    ensures ks == ls
  {
    forall i | 0 <= i < |ks| ensures ks[i] == ls[i] { PlainHasNoOther(ks[i], ls[i]); }
  }

  lemma SameListing(ks: set<Text>, ls: set<Text>)
    requires SortedKeys(ks) == SortedKeys(ls)
    ensures ks == ls
  {
    assert forall k :: k in ks <==> k in SortedKeys(ks);
  }

  lemma PlainKeysStay(m: map<Text, Value>, n: map<Text, Value>)
    requires Alike(Obj(m), Obj(n)) && forall k | k in m :: Plain(k)
    ensures m.Keys == n.Keys && forall k | k in m :: Alike(m[k], n[k])
  {
    PlainListing(SortedKeys(m.Keys), SortedKeys(n.Keys));
    SameListing(m.Keys, n.Keys);
    AlikeSameKeys(m, n);
  }

  /** A value whose strings and keys are plain is alike to itself only. */
  lemma {:induction false} PlainIsAlone(v: Value, w: Value)
    requires PlainKeys(v) && PlainStrings(v) && Alike(v, w)
    ensures v == w
    decreases v
  {
    match v
    case Str(t) => PlainHasNoOther(t, w.t);
    case Arr(items) =>
      forall i | 0 <= i < |items| ensures items[i] == w.items[i] { PlainIsAlone(items[i], w.items[i]); }
    case Obj(m) =>
      PlainKeysStay(m, w.fields);
      forall k | k in m ensures m[k] == w.fields[k] { PlainIsAlone(m[k], w.fields[k]); }
      assert m == w.fields;
    case _ =>
  }

  lemma AlikeItself(v: Value)
    ensures Alike(v, v)
  {
    PrintExactly(v, v);
  }

  lemma ItemExchanged(items: seq<Value>, i: nat, x: Value)
    requires i < |items| && x != items[i] && Alike(items[i], x)
    ensures Alike(Arr(items), Arr(items[i := x])) && items[i := x] != items
  {
    forall j | 0 <= j < |items| ensures Alike(items[j], items[i := x][j]) { AlikeItself(items[j]); }
    assert items[i := x][i] != items[i];
  }

  lemma MemberExchanged(m: map<Text, Value>, k: Text, x: Value)
    requires k in m && x != m[k] && Alike(m[k], x)
    ensures Alike(Obj(m), Obj(m[k := x])) && m[k := x] != m && m[k := x].Keys == m.Keys
  {
    var n := m[k := x];
    assert n.Keys == m.Keys && n[k] != m[k];
    forall j | j in m ensures Alike(m[j], n[j]) { AlikeItself(m[j]); }
    AlikeSameKeys(m, n);
  }

  /** Any string of a value that is not plain gives another value that is alike. */
  lemma {:induction false} NotPlainHasAnother(v: Value) returns (w: Value)
    requires !PlainStrings(v)
    ensures w != v && Alike(v, w)
    ensures v.Obj? ==> w.Obj? && w.fields.Keys == v.fields.Keys
    decreases v
  {
    match v
    case Str(t) =>
      PlainExactly(t);
      w := Str(Respelled(t));
    case Arr(items) =>
      var i :| 0 <= i < |items| && !PlainStrings(items[i]);
      var x := NotPlainHasAnother(items[i]);
      w := Arr(items[i := x]);
      ItemExchanged(items, i, x);
    case Obj(m) =>
      var k :| k in m && !PlainStrings(m[k]);
      var x := NotPlainHasAnother(m[k]);
      w := Obj(m[k := x]);
      MemberExchanged(m, k, x);
  }

  // ----- The parser builds clean values only -----

  lemma {:induction false} ParseValueClean(s: string)
    requires ParseValue(s).Done?
    ensures CleanValue(ParseValue(s).value)
    decreases |s|, 0
  {
    if Starts(s, '\"') {
      ParseCharsClean(s[1..]);
    } else if Starts(s, '{') {
      var r := SkipSpace(s[1..]);
      if !Starts(r, '}') { ParseFieldsClean(r, map[]); }
    } else if Starts(s, '[') {
      var r := SkipSpace(s[1..]);
      if !Starts(r, ']') { ParseItemsClean(r, []); }
    }
  }

  lemma {:induction false} ParseItemsClean(s: string, items: seq<Value>)
    requires ParseItems(s, items).Done? && CleanValue(Arr(items))
    ensures CleanValue(ParseItems(s, items).value)
    decreases |s|, 1
  {
    ParseValueClean(s);
    var p := ParseValue(s);
    var r := SkipSpace(p.rest);
    assert CleanValue(Arr(items + [p.value]));
    if !Starts(r, ']') { ParseItemsClean(SkipSpace(r[1..]), items + [p.value]); }
  }

  lemma {:induction false} ParseFieldsClean(s: string, m: map<Text, Value>)
    requires ParseFields(s, m).Done? && CleanValue(Obj(m))
    ensures CleanValue(ParseFields(s, m).value)
    decreases |s|, 1
  {
    ParseCharsClean(s[1..]);
    var k := ParseChars(s[1..]);
    ParseMemberClean(SkipSpace(SkipSpace(k.rest)[1..]), k.value, m);
  }

  lemma {:induction false} ParseMemberClean(s: string, k: Text, m: map<Text, Value>)
    requires ParseMember(s, k, m).Done? && Clean(k) && CleanValue(Obj(m))
    ensures CleanValue(ParseMember(s, k, m).value)
    decreases |s|, 1
  {
    ParseValueClean(s);
    var p := ParseValue(s);
    var r := SkipSpace(p.rest);
    assert CleanValue(Obj(m[k := p.value]));
    if !Starts(r, '}') { ParseFieldsClean(SkipSpace(r[1..]), m[k := p.value]); }
  }

  // ----- Main results -----

  /** Every value that is printed is read back, with its strings and keys combined. */
  lemma LoadsPrint(v: Value)
    ensures Loads(Print(v)) == Done(Norm(v), "")
  {
    PrintHead(v);
    RoundTrip(v, "");
    assert Print(v) + "" == Print(v);
  }

  lemma LoadsCleanNames(m: map<Text, Value>)
    requires forall k | k in m :: Clean(k)
    ensures Loads(Print(Obj(m))) == Done(Obj(NormMap(m)), "")
  {
    LoadsPrint(Obj(m));
    NormObj(m);
  }

  lemma LoadsIsClean(s: string)
    requires Loads(s).Done?
    ensures CleanValue(Loads(s).value)
  {
    ParseValueClean(SkipSpace(s));
  }

  /** The round trip is the identity exactly on the values without split surrogate pairs. */
  lemma LoadsPrintIdentity(v: Value)
    ensures Loads(Print(v)) == Done(v, "") <==> CleanValue(v)
  {
    if CleanValue(v) {
      CleanValueIsFixed(v);
      LoadsPrint(v);
    }
    if Loads(Print(v)) == Done(v, "") {
      LoadsIsClean(Print(v));
    }
  }

  /** The printer is injective on clean values, hence on everything the parser can build. */
  lemma PrintInjective(a: Value, b: Value)
    requires CleanValue(a) && CleanValue(b) && Print(a) == Print(b)
    ensures a == b
  {
    LoadsPrintIdentity(a);
    LoadsPrintIdentity(b);
  }

  lemma {:induction false} NormIsAlike(v: Value)
    requires CleanKeys(v)
    ensures Alike(Norm(v), v)
  {
    match v
    case Str(t) => CombineIsClean(t); CombineFixesClean(Combine(t));
    case Arr(items) =>
      forall i | 0 <= i < |items| ensures Alike(Norm(items[i]), items[i]) { NormIsAlike(items[i]); }
    case Obj(m) =>
      NormObj(m);
      assert Norm(v).fields.Keys == m.Keys;
      forall k | k in m ensures Alike(Norm(m[k]), m[k]) { NormIsAlike(m[k]); }
    case _ =>
  }

  /** Where all keys are clean, a document that was read reprints to the same text. */
  lemma PrintNorm(v: Value)
    requires CleanKeys(v)
    ensures Print(Norm(v)) == Print(v)
  {
    NormIsAlike(v);
    AlikePrints(Norm(v), v);
  }

  /** What prints alike reads back as the same value, and conversely where all keys are clean. */
  lemma AlikeReadsBack(v: Value, w: Value)
    ensures Alike(v, w) ==> Norm(v) == Norm(w)
    ensures CleanKeys(v) && CleanKeys(w) && Norm(v) == Norm(w) ==> Alike(v, w)
  {
    PrintExactly(v, w);
    LoadsPrint(v);
    LoadsPrint(w);
    if CleanKeys(v) && CleanKeys(w) {
      PrintNorm(v);
      PrintNorm(w);
    }
  }

  // ----- What is printed, apart from reading it -----

  /** Texts separated by commas, and nothing else. */
  function Joined(parts: seq<string>): string {
    if parts == [] then ""
    else if |parts| == 1 then parts[0]
    else Joined(parts[..|parts| - 1]) + "," + parts[|parts| - 1]
  }

  lemma {:induction false} JoinedCons(part: string, parts: seq<string>)
    requires parts != []
    ensures Joined([part] + parts) == part + "," + Joined(parts)
    decreases |parts|
  {
    var all := [part] + parts;
    var n := |parts| - 1;
    assert all[..|all| - 1] == [part] + parts[..n];
    if n > 0 {
      JoinedCons(part, parts[..n]);
      assert part + "," + Joined(parts[..n]) + "," + parts[n] == part + "," + (Joined(parts[..n]) + "," + parts[n]);
    } else {
      assert parts[..0] == [] && all[..1] == [part];
    }
  }

  function MemberText(v: Value, k: Text): string
    requires v.Obj? && k in v.fields
  {
    Quote(k) + ":" + Print(v.fields[k])
  }

  lemma {:induction false} ItemsAreJoined(items: seq<Value>)
    requires items != []
    ensures PrintItems(items) == Joined(seq(|items|, i requires 0 <= i < |items| => Print(items[i])))
  {
    var parts := seq(|items|, i requires 0 <= i < |items| => Print(items[i]));
    if |items| > 1 {
      var more := items[1..];
      var rest := seq(|more|, i requires 0 <= i < |more| => Print(more[i]));
      ItemsAreJoined(more);
      assert parts == [Print(items[0])] + rest;
      JoinedCons(Print(items[0]), rest);
    }
  }

  lemma {:induction false} FieldsAreJoined(v: Value, keys: seq<Text>)
    requires v.Obj? && keys != [] && forall k | k in keys :: k in v.fields
    ensures PrintFields(v, keys) == Joined(seq(|keys|, i requires 0 <= i < |keys| => MemberText(v, keys[i])))
    decreases |keys|
  {
    var parts := seq(|keys|, i requires 0 <= i < |keys| => MemberText(v, keys[i]));
    if |keys| > 1 {
      var more := keys[1..];
      var rest := seq(|more|, i requires 0 <= i < |more| => MemberText(v, more[i]));
      FieldsAreJoined(v, more);
      assert parts == [MemberText(v, keys[0])] + rest;
      JoinedCons(MemberText(v, keys[0]), rest);
    }
  }

  /** The canonical form, to the letter: the words, the numeral, the literal, the values between brackets and
      the members between braces in the order of their keys, with commas and colons and no white space. */
  lemma PrintedAs(v: Value)
    ensures v == Null ==> Print(v) == "null"
    ensures v == Bool(true) ==> Print(v) == "true"
    ensures v == Bool(false) ==> Print(v) == "false"
    ensures v.Int? ==> Print(v) == if v.n < 0 then "-" + Numeral(-v.n) else Numeral(v.n)
    ensures v.Str? ==> Print(v) == Quote(v.t)
    ensures v.Arr? ==>
      Print(v) == "[" + Joined(seq(|v.items|, i requires 0 <= i < |v.items| => Print(v.items[i]))) + "]"
    ensures v.Obj? ==>
      var ks := SortedKeys(v.fields.Keys);
      Print(v) == "{" + Joined(seq(|ks|, i requires 0 <= i < |ks| => MemberText(v, ks[i]))) + "}"
  {
    if v.Arr? && v.items != [] {
      ItemsAreJoined(v.items);
    } else if v.Obj? && v.fields != map[] {
      var k :| k in v.fields;
      assert k in SortedKeys(v.fields.Keys);
      FieldsAreJoined(v, SortedKeys(v.fields.Keys));
    }
  }

  lemma QuoteIsAscii(t: Text)
    ensures Ascii(Quote(t))
  {
    EscapeTextIsAscii(t);
  }

  lemma AsciiConcat(s: string, t: string)
    requires Ascii(s) && Ascii(t)
    ensures Ascii(s + t)
  {
  }

  lemma WrapIsAscii(c: char, s: string, d: char)
    requires Ascii(s) && Ascii([c]) && Ascii([d])
    ensures Ascii([c] + s + [d])
  {
  }

  lemma IntIsAscii(n: int)
    ensures Ascii(PrintInt(n))
  {
  }

  /** Printed JSON is printable ASCII: encoding it to bytes and decoding it again loses nothing. */
  lemma {:induction false} PrintIsAscii(v: Value)
    ensures Ascii(Print(v))
    decreases v, 0
  {
    match v
    case Int(n) => IntIsAscii(n);
    case Str(t) => QuoteIsAscii(t);
    case Arr(items) =>
      if items != [] {
        PrintItemsIsAscii(items);
        WrapIsAscii('[', PrintItems(items), ']');
      }
    case Obj(m) =>
      if m != map[] {
        PrintFieldsIsAscii(v, SortedKeys(m.Keys));
        WrapIsAscii('{', PrintFields(v, SortedKeys(m.Keys)), '}');
      }
    case _ =>
  }

  lemma {:induction false} PrintItemsIsAscii(items: seq<Value>)
    requires items != []
    ensures Ascii(PrintItems(items))
    decreases items
  {
    PrintIsAscii(items[0]);
    if |items| > 1 {
      PrintItemsIsAscii(items[1..]);
      AsciiConcat(Print(items[0]) + ",", PrintItems(items[1..]));
    }
  }

  lemma {:induction false} PrintFieldsIsAscii(v: Value, keys: seq<Text>)
    requires v.Obj? && keys != [] && forall k | k in keys :: k in v.fields
    ensures Ascii(PrintFields(v, keys))
    decreases v, 0, |keys|
  {
    var first := Quote(keys[0]) + ":" + Print(v.fields[keys[0]]);
    QuoteIsAscii(keys[0]);
    PrintIsAscii(v.fields[keys[0]]);
    AsciiConcat(Quote(keys[0]) + ":", Print(v.fields[keys[0]]));
    if |keys| > 1 {
      PrintFieldsIsAscii(v, keys[1..]);
      AsciiConcat(first + ",", PrintFields(v, keys[1..]));
    }
  }
}
