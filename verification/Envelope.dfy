/** Signed message envelopes: `envelope` and `open_envelope`. */
module Envelope {
  import opened Prelude
  import opened Text
  import opened Json

  type Byte = b: int | 0 <= b < 256
  type Key = seq<Byte>

  // HMAC-SHA256 digests have 32 bytes; nothing else is assumed of the function.
  type Digest = d: seq<Byte> | |d| == 32 witness seq(32, _ => 0)
  type Mac = (Key, string) -> Digest

  datatype Error = BadJson | NotAnObject | MissingSignature | BadHex | InvalidSignature | UnsupportedVersion | NoData

  const V: Text := [118]                    // "v"
  const TS: Text := [116, 115]              // "ts"
  const ISS: Text := [105, 115, 115]        // "iss"
  const SIG: Text := [115, 105, 103]        // "sig"
  const DATA: Text := [100, 97, 116, 97]    // "data"
  const ENVELOPE_VERSION := 1

  // ----- Hex -----

  function ToHex(bytes: seq<Byte>): (t: Text)
    ensures |t| == 2 * |bytes|
    ensures forall i | 0 <= i < |t| :: t[i] < 0x80
  {
    if bytes == [] then []
    else [HexDigit(bytes[0] / 16) as int, HexDigit(bytes[0] % 16) as int] + ToHex(bytes[1..])
  }

  function HexValueOf(c: CodePoint): (n: int)
    ensures -1 <= n < 16
  {
    if c < 0x80 then HexValue(c as char) else -1
  }

  /** `bytes.fromhex`: pairs of hex digits, with ASCII white space allowed between pairs. */
  function FromHex(t: Text): Option<seq<Byte>> {
    if t == [] then Some([])
    else if t[0] == 0x20 || 0x09 <= t[0] <= 0x0D then FromHex(t[1..])
    else if |t| >= 2 && HexValueOf(t[0]) >= 0 && HexValueOf(t[1]) >= 0 then
      var rest := FromHex(t[2..]);
      if rest.Some? then Some([16 * HexValueOf(t[0]) + HexValueOf(t[1])] + rest.value) else None
    else None
  }

  /** Byte i of the digest is spelled by characters 2i and 2i + 1, its high and low half as lower-case digits. */
  lemma {:induction false} ToHexExactly(bytes: seq<Byte>, i: nat)
    requires i < |bytes|
    ensures ToHex(bytes)[2 * i] == HEX[bytes[i] / 16] as int && ToHex(bytes)[2 * i + 1] == HEX[bytes[i] % 16] as int
  {
    HexDigitExactly(bytes[0] / 16);
    HexDigitExactly(bytes[0] % 16);
    if i > 0 {
      ToHexExactly(bytes[1..], i - 1);
      assert ToHex(bytes)[2..] == ToHex(bytes[1..]);
      assert ToHex(bytes)[2 * i] == ToHex(bytes[1..])[2 * (i - 1)];
      assert ToHex(bytes)[2 * i + 1] == ToHex(bytes[1..])[2 * (i - 1) + 1];
    }
  }

  lemma HexPair(b: Byte)
    ensures var h, l := HexDigit(b / 16) as int, HexDigit(b % 16) as int;
      && 0x20 < h < 0x80 && 0x20 < l < 0x80 && HexValueOf(h) == b / 16 && HexValueOf(l) == b % 16
  {
  }

  lemma ReadPair(h: CodePoint, l: CodePoint, rest: Text, b: Byte)
    requires 0x20 < h && HexValueOf(h) == b / 16 && HexValueOf(l) == b % 16
    ensures FromHex([h, l] + rest) == if FromHex(rest).Some? then Some([b] + FromHex(rest).value) else None
  {
    var t: Text := [h, l] + rest;
    assert t[2..] == rest && t[0] == h && t[1] == l;
    assert 16 * (b / 16) + b % 16 == b;
  }

  lemma {:induction false} HexRoundTrip(bytes: seq<Byte>)
    ensures FromHex(ToHex(bytes)) == Some(bytes)
  {
    if bytes != [] {
      HexRoundTrip(bytes[1..]);
      HexPair(bytes[0]);
      ReadPair(HexDigit(bytes[0] / 16) as int, HexDigit(bytes[0] % 16) as int, ToHex(bytes[1..]), bytes[0]);
      assert bytes == [bytes[0]] + bytes[1..];
    }
  }

  // ----- Sealing and opening -----

  function Payload(issuer: Text, ts: int, data: Value): map<Text, Value> {
    map[V := Int(ENVELOPE_VERSION), TS := Int(ts), ISS := Str(issuer), DATA := data]
  }

  /** A payload with the signature of its own print added. */
  function Sign(mac: Mac, key: Key, payload: map<Text, Value>): string {
    Print(Obj(payload[SIG := Str(ToHex(mac(key, Print(Obj(payload)))))]))
  }

  /** The envelope of `data`. */
  function Seal(mac: Mac, key: Key, issuer: Text, ts: int, data: Value): string {
    Sign(mac, key, Payload(issuer, ts, data))
  }

  /** Python's truth value. */
  predicate Truthy(v: Value) {
    match v
    case Null => false
    case Bool(b) => b
    case Int(n) => n != 0
    case Str(t) => t != []
    case Arr(items) => items != []
    case Obj(m) => m != map[]
  }

  // `True == 1` in Python, so a true version passes the comparison as well.
  predicate VersionMatches(v: Value) { v == Int(ENVELOPE_VERSION) || v == Bool(true) }

  /** What is done with a message after its signature member is taken out. */
  function Verify(mac: Mac, key: Key, body: map<Text, Value>, sig: Value): Result<Value, Error> {
    if !Truthy(sig) then Err(MissingSignature)
    else if !sig.Str? || FromHex(sig.t).None? then Err(BadHex)
    else if mac(key, Print(Obj(body))) != FromHex(sig.t).value then Err(InvalidSignature)
    else if V !in body || !VersionMatches(body[V]) then Err(UnsupportedVersion)
    else if DATA !in body then Err(NoData)
    else Ok(body[DATA])
  }

  function Open(mac: Mac, key: Key, raw: string): Result<Value, Error> {
    var parsed := Loads(raw);
    if parsed.Fail? then Err(BadJson)
    else if !parsed.value.Obj? then Err(NotAnObject)
    else
      var m := parsed.value.fields;
      Verify(mac, key, m - {SIG}, if SIG in m then m[SIG] else Str([]))
  }

  method SealEnvelope(mac: Mac, issuer: Text, key: Key, now: int, data: Value) returns (raw: string)
    ensures raw == Seal(mac, key, issuer, now, data)
    ensures Ascii(raw)
    ensures var payload := map[V := Int(1), TS := Int(now), ISS := Str(issuer), DATA := data];
      raw == Print(Obj(payload[SIG := Str(ToHex(mac(key, Print(Obj(payload)))))]))
  {
    var payload := map[V := Int(ENVELOPE_VERSION), TS := Int(now), ISS := Str(issuer), DATA := data];
    raw := Print(Obj(payload));
    var sig := ToHex(mac(key, raw));
    payload := payload[SIG := Str(sig)];
    raw := Print(Obj(payload));
    PrintIsAscii(Obj(payload));
  }

  method OpenEnvelope(mac: Mac, key: Key, raw: string) returns (r: Result<Value, Error>)
    ensures r == Open(mac, key, raw)
    ensures r.Ok? <==> Genuine(mac, key, raw)
    ensures Genuine(mac, key, raw) ==> r == Ok(Carried(raw))
  {
    AcceptedExactly(mac, key, raw);
    var parsed := Loads(raw);
    if parsed.Fail? { return Err(BadJson); }
    if !parsed.value.Obj? { return Err(NotAnObject); }
    var msg := parsed.value.fields;
    var sig := if SIG in msg then msg[SIG] else Str([]);
    msg := msg - {SIG};
    if !Truthy(sig) { return Err(MissingSignature); }
    var recomputed := Print(Obj(msg));
    if !sig.Str? { return Err(BadHex); }
    var signature := FromHex(sig.t);
    if signature.None? { return Err(BadHex); }
    if mac(key, recomputed) != signature.value { return Err(InvalidSignature); }
    if V !in msg || !VersionMatches(msg[V]) { return Err(UnsupportedVersion); }
    if DATA !in msg { return Err(NoData); }
    r := Ok(msg[DATA]);
  }

  // ----- Round trip -----

  ghost predicate CleanNames(m: map<Text, Value>) { forall k | k in m :: Clean(k) }

  lemma SignedNames(payload: map<Text, Value>, sig: Text)
    requires CleanNames(payload)
    ensures CleanNames(payload[SIG := Str(sig)])
  {
  }

  /** What the reader gets back after parsing a signed payload; removing the signature leaves the rest. */
  lemma SignedParses(payload: map<Text, Value>, sig: Text)
    requires CleanNames(payload) && SIG !in payload && Clean(sig)
    ensures Loads(Print(Obj(payload[SIG := Str(sig)]))) == Done(Obj(NormMap(payload)[SIG := Str(sig)]), "")
    ensures NormMap(payload)[SIG := Str(sig)] - {SIG} == NormMap(payload)
  {
    SignedNames(payload, sig);
    LoadsCleanNames(payload[SIG := Str(sig)]);
    NormMapUpdate(payload, SIG, Str(sig));
    CombineFixesClean(sig);
  }

  lemma PayloadShape(issuer: Text, ts: int, data: Value)
    ensures var m := Payload(issuer, ts, data);
      && CleanNames(m) && SIG !in m
      && V in m && m[V] == Int(ENVELOPE_VERSION) && DATA in m && m[DATA] == data
      && (CleanKeys(data) ==> CleanKeys(Obj(m)))
  {
  }

  /** What opening a signed payload comes down to. */
  lemma OpensAs(mac: Mac, key: Key, reader: Key, payload: map<Text, Value>)
    requires CleanNames(payload) && SIG !in payload
    ensures Open(mac, reader, Sign(mac, key, payload)) ==
      var body := NormMap(payload);
      if mac(reader, Print(Obj(body))) != mac(key, Print(Obj(payload))) then Err(InvalidSignature)
      else if V !in body || !VersionMatches(body[V]) then Err(UnsupportedVersion)
      else if DATA !in body then Err(NoData)
      else Ok(body[DATA])
  {
    var digest := mac(key, Print(Obj(payload)));
    AsciiTextIsClean(ToHex(digest));
    SignedParses(payload, ToHex(digest));
    VerifySigned(mac, reader, NormMap(payload), digest);
  }

  /** Opening a sealed envelope with any key: the data comes back as it is read, exactly when that key
      signs the payload as it is read like the sealing key signed it as it was. Where the keys in the
      data are clean the two texts are one. */
  lemma OpenSealed(mac: Mac, key: Key, reader: Key, issuer: Text, ts: int, data: Value)
    ensures Open(mac, reader, Seal(mac, key, issuer, ts, data)) ==
      var payload := Obj(Payload(issuer, ts, data));
      if mac(reader, Print(Norm(payload))) == mac(key, Print(payload)) then Ok(Norm(data)) else Err(InvalidSignature)
    ensures CleanKeys(data) ==>
      Print(Norm(Obj(Payload(issuer, ts, data)))) == Print(Obj(Payload(issuer, ts, data)))
  {
    var payload := Payload(issuer, ts, data);
    PayloadShape(issuer, ts, data);
    OpensAs(mac, key, reader, payload);
    NormObj(payload);
    if CleanKeys(data) { PrintNorm(Obj(payload)); }
  }

  /** The names of the members. */
  lemma MemberNames()
    ensures V == FromAscii("v") && TS == FromAscii("ts") && ISS == FromAscii("iss")
    ensures SIG == FromAscii("sig") && DATA == FromAscii("data")
  {
  }

  lemma CleanWith(m: map<Text, Value>, k: Text, v: Value)
    requires CleanValue(Obj(m)) && Clean(k) && CleanValue(v)
    ensures CleanValue(Obj(m[k := v]))
  {
  }

  lemma EnvelopeIsClean(issuer: Text, ts: int, data: Value, sig: Text)
    requires Clean(issuer) && CleanValue(data) && Clean(sig)
    ensures CleanValue(Obj(Payload(issuer, ts, data)[SIG := Str(sig)]))
  {
    AsciiTextIsClean(V);
    AsciiTextIsClean(TS);
    AsciiTextIsClean(ISS);
    AsciiTextIsClean(DATA);
    AsciiTextIsClean(SIG);
    CleanWith(map[], V, Int(1));
    CleanWith(map[V := Int(1)], TS, Int(ts));
    CleanWith(map[V := Int(1), TS := Int(ts)], ISS, Str(issuer));
    CleanWith(map[V := Int(1), TS := Int(ts), ISS := Str(issuer)], DATA, data);
    CleanWith(Payload(issuer, ts, data), SIG, Str(sig));
  }

  /** What is in an envelope: these five members, with the issuer, the time and the data as they were. */
  lemma SealedHoldsExactly(mac: Mac, key: Key, issuer: Text, ts: int, data: Value)
    requires Clean(issuer) && CleanValue(data)
    ensures var payload := map[V := Int(1), TS := Int(ts), ISS := Str(issuer), DATA := data];
      Loads(Seal(mac, key, issuer, ts, data)) ==
        Done(Obj(payload[SIG := Str(ToHex(mac(key, Print(Obj(payload)))))]), "")
  {
    var payload := map[V := Int(1), TS := Int(ts), ISS := Str(issuer), DATA := data];
    var sig := ToHex(mac(key, Print(Obj(payload))));
    AsciiTextIsClean(sig);
    EnvelopeIsClean(issuer, ts, data, sig);
    LoadsPrintIdentity(Obj(payload[SIG := Str(sig)]));
  }

  lemma VerifySigned(mac: Mac, key: Key, body: map<Text, Value>, digest: Digest)
    ensures Verify(mac, key, body, Str(ToHex(digest))) ==
      if mac(key, Print(Obj(body))) != digest then Err(InvalidSignature)
      else if V !in body || !VersionMatches(body[V]) then Err(UnsupportedVersion)
      else if DATA !in body then Err(NoData)
      else Ok(body[DATA])
  {
    HexRoundTrip(digest);
  }

  /** A signed message whose strings and keys are clean: what is accepted is decided by its version and
      its data alone, whatever else it holds. */
  lemma SignedOpensExactly(mac: Mac, key: Key, payload: map<Text, Value>)
    requires SIG !in payload && CleanValue(Obj(payload))
    ensures Open(mac, key, Sign(mac, key, payload)) ==
      if V !in payload || payload[V] !in {Int(1), Bool(true)} then Err(UnsupportedVersion)
      else if DATA !in payload then Err(NoData)
      else Ok(payload[DATA])
  {
    OpensAs(mac, key, key, payload);
    CleanValueIsFixed(Obj(payload));
    NormObj(payload);
  }

  /** A message of another version that is accepted: one whose version is the Boolean true. */
  lemma TrueVersionIsAccepted(mac: Mac, key: Key, data: Value)
    requires CleanValue(data)
    ensures var payload := map[V := Bool(true), DATA := data];
      Open(mac, key, Sign(mac, key, payload)) == Ok(data) && payload[V] != Int(ENVELOPE_VERSION)
  {
    var payload := map[V := Bool(true), DATA := data];
    assert V != DATA && V != SIG && DATA != SIG;
    AsciiTextIsClean(V);
    AsciiTextIsClean(DATA);
    SignedOpensExactly(mac, key, payload);
  }

  /** Whatever is opened is a clean value. */
  lemma OpenedIsClean(mac: Mac, key: Key, raw: string)
    requires Open(mac, key, raw).Ok?
    ensures CleanValue(Open(mac, key, raw).value)
  {
    LoadsIsClean(raw);
  }

  /** For every mac, key, issuer, time and data: what was sealed is what is opened, exactly when
      no string or key in the data spells a code point as two surrogates. */
  lemma RoundTripExactly(mac: Mac, key: Key, issuer: Text, ts: int, data: Value)
    ensures Open(mac, key, Seal(mac, key, issuer, ts, data)) == Ok(data) <==> CleanValue(data)
  {
    if CleanValue(data) {
      CleanValueIsFixed(data);
      OpenSealed(mac, key, key, issuer, ts, data);
    }
    if Open(mac, key, Seal(mac, key, issuer, ts, data)) == Ok(data) {
      OpenedIsClean(mac, key, Seal(mac, key, issuer, ts, data));
    }
  }

  lemma CombineFaceSpelling()
    ensures Combine([0xD83D, 0xDE00]) == [0x1F600]
  {
  }

  /** A string that does not survive: the two surrogates of U+1F600, written as two code points. */
  lemma SplitPairIsLost(mac: Mac, key: Key, issuer: Text, ts: int)
    ensures var data := Str([0xD83D, 0xDE00]);
      Open(mac, key, Seal(mac, key, issuer, ts, data)) == Ok(Str([0x1F600]))
  {
    var data := Str([0xD83D, 0xDE00]);
    OpenSealed(mac, key, key, issuer, ts, data);
    CombineFaceSpelling();
  }

  // ----- What a signature binds -----

  /** The message without its signature member. */
  function Body(raw: string): map<Text, Value>
    requires Loads(raw).Done? && Loads(raw).value.Obj?
  {
    Loads(raw).value.fields - {SIG}
  }

  /** A genuine message: what the text must hold to be accepted, by its members alone. */
  predicate Genuine(mac: Mac, key: Key, raw: string) {
    && Loads(raw).Done? && Loads(raw).value.Obj?
    && var fields := Loads(raw).value.fields;
    && SIG in fields && fields[SIG].Str?
    && FromHex(fields[SIG].t) == Some(mac(key, Print(Obj(fields - {SIG}))))
    && V in fields && fields[V] in {Int(1), Bool(true)} && DATA in fields
  }

  function Carried(raw: string): Value
    requires Loads(raw).Done? && Loads(raw).value.Obj? && DATA in Loads(raw).value.fields
  {
    Loads(raw).value.fields[DATA]
  }

  /** What is accepted, over all texts: the genuine messages, and the data member is what comes out. */
  lemma AcceptedExactly(mac: Mac, key: Key, raw: string)
    ensures Open(mac, key, raw).Ok? <==> Genuine(mac, key, raw)
    ensures Genuine(mac, key, raw) ==> Open(mac, key, raw) == Ok(Carried(raw))
  {
    assert V != DATA && V != SIG && DATA != SIG;
    if Loads(raw).Done? && Loads(raw).value.Obj? {
      var fields := Loads(raw).value.fields;
      if SIG in fields { AcceptsExactly(mac, key, Body(raw), fields[SIG]); }
    }
  }

  lemma EmptyIsNoDigest(t: Text, digest: Digest)
    requires FromHex(t) == Some(digest)
    ensures t != []
  {
  }

  lemma AcceptsExactly(mac: Mac, key: Key, body: map<Text, Value>, sig: Value)
    ensures Verify(mac, key, body, sig).Ok? <==>
      && sig.Str? && FromHex(sig.t) == Some(mac(key, Print(Obj(body))))
      && V in body && body[V] in {Int(1), Bool(true)} && DATA in body
    ensures Verify(mac, key, body, sig).Ok? ==> Verify(mac, key, body, sig).value == body[DATA]
  {
    var digest := mac(key, Print(Obj(body)));
    assert |digest| == 32;
    if sig.Str? {
      if FromHex(sig.t) == Some(digest) { EmptyIsNoDigest(sig.t, digest); }
      assert Truthy(sig) <==> sig.t != [];
    }
  }

  /** Python's false values, as a JSON text can hold them. */
  predicate IsFalse(v: Value) {
    v == Null || v == Bool(false) || v == Int(0) || v == Str([]) || v == Arr([]) || v == Obj(map[])
  }

  predicate SignedAs(mac: Mac, key: Key, fields: map<Text, Value>, digest: seq<Byte>) {
    mac(key, Print(Obj(fields - {SIG}))) == digest
  }

  /** Why a text is refused, exactly, in the order in which it is looked at. */
  lemma RefusedExactly(mac: Mac, key: Key, raw: string)
    requires Loads(raw).Done? && Loads(raw).value.Obj?
    ensures var fields := Loads(raw).value.fields; var r := Open(mac, key, raw);
      && (r == Err(MissingSignature) <==> SIG !in fields || IsFalse(fields[SIG]))
      && (SIG in fields && !IsFalse(fields[SIG]) ==>
            var sig := fields[SIG];
            && (r == Err(BadHex) <==> !sig.Str? || FromHex(sig.t).None?)
            && (sig.Str? && FromHex(sig.t).Some? ==>
                  var genuine := SignedAs(mac, key, fields, FromHex(sig.t).value);
                  && (r == Err(InvalidSignature) <==> !genuine)
                  && (r == Err(UnsupportedVersion) <==>
                        genuine && !(V in fields && fields[V] in {Int(1), Bool(true)}))
                  && (r == Err(NoData) <==>
                        genuine && V in fields && fields[V] in {Int(1), Bool(true)} && DATA !in fields)))
  {
    assert V != DATA && V != SIG && DATA != SIG;
  }

  lemma BodyIsClean(raw: string)
    requires Loads(raw).Done? && Loads(raw).value.Obj?
    ensures CleanValue(Obj(Body(raw)))
  {
    LoadsIsClean(raw);
  }

  /** Two accepted envelopes with the same signature carry the same version, time, issuer, data and
      any other member; otherwise they exhibit two different texts with the same mac. */
  lemma SignatureBindsBody(mac: Mac, key: Key, r1: string, r2: string)
    requires Open(mac, key, r1).Ok? && Open(mac, key, r2).Ok?
    requires FromHex(Loads(r1).value.fields[SIG].t) == FromHex(Loads(r2).value.fields[SIG].t)
    ensures
      || (Body(r1) == Body(r2) && Open(mac, key, r1) == Open(mac, key, r2))
      || (Print(Obj(Body(r1))) != Print(Obj(Body(r2)))
          && mac(key, Print(Obj(Body(r1)))) == mac(key, Print(Obj(Body(r2)))))
  {
    AcceptedExactly(mac, key, r1);
    AcceptedExactly(mac, key, r2);
    if Print(Obj(Body(r1))) == Print(Obj(Body(r2))) {
      BodyIsClean(r1);
      BodyIsClean(r2);
      PrintInjective(Obj(Body(r1)), Obj(Body(r2)));
    }
  }
}
