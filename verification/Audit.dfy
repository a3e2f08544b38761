/** The hash-chained audit log. */
module Audit {
  import opened Prelude
  import opened Decimal
  import opened Text
  import opened Json

  // SHA-256 over the bytes of an ASCII text, as hex digits; nothing else is assumed of the function.
  type HexText = t: Text | forall i | 0 <= i < |t| :: '0' as int <= t[i] <= 'f' as int
  type Hash = string -> HexText

  datatype Event = Event(event: Text, outcome: Text, actor: Option<Text>, resource: Option<Text>,
                         requestId: Option<Text>, attrs: map<Text, Value>)

  datatype Record = Record(ts: int, service: Text, what: Event, prevHash: Text, hash: Text)

  const TS: Text := [116, 115]                                              // "ts"
  const SERVICE: Text := [115, 101, 114, 118, 105, 99, 101]                 // "service"
  const EVENT: Text := [101, 118, 101, 110, 116]                            // "event"
  const ACTOR: Text := [97, 99, 116, 111, 114]                              // "actor"
  const RESOURCE: Text := [114, 101, 115, 111, 117, 114, 99, 101]           // "resource"
  const OUTCOME: Text := [111, 117, 116, 99, 111, 109, 101]                 // "outcome"
  const REQUEST_ID: Text := [114, 101, 113, 117, 101, 115, 116, 95, 105, 100] // "request_id"
  const ATTRS: Text := [97, 116, 116, 114, 115]                             // "attrs"
  const PREV_HASH: Text := [112, 114, 101, 118, 95, 104, 97, 115, 104]      // "prev_hash"
  const HASH: Text := [104, 97, 115, 104]                                   // "hash"

  const FIELDS: set<Text> := {TS, SERVICE, EVENT, ACTOR, RESOURCE, OUTCOME, REQUEST_ID, ATTRS, PREV_HASH, HASH}

  function OrNull(t: Option<Text>): Value {
    if t.Some? then Str(t.value) else Null
  }

  function Field(r: Record, name: Text): Value {
    if name == TS then Int(r.ts)
    else if name == SERVICE then Str(r.service)
    else if name == EVENT then Str(r.what.event)
    else if name == ACTOR then OrNull(r.what.actor)
    else if name == RESOURCE then OrNull(r.what.resource)
    else if name == OUTCOME then Str(r.what.outcome)
    else if name == REQUEST_ID then OrNull(r.what.requestId)
    else if name == ATTRS then Obj(r.what.attrs)
    else if name == PREV_HASH then Str(r.prevHash)
    else Str(r.hash)
  }

  /** The record as a dictionary. */
  function AsDict(r: Record): Value {
    Obj(map name | name in FIELDS :: Field(r, name))
  }

  /** The text that is hashed: the record before its own hash is known. */
  function Body(r: Record): string {
    Print(AsDict(r.(hash := [])))
  }

  function SeedText(node: string, pid: nat, startNs: nat): string {
    node + ":" + Numeral(pid) + ":" + Numeral(startNs)
  }

  // ----- What is hashed -----

  /** The names of the members, those of the record's fields. */
  lemma FieldNames()
    ensures TS == FromAscii("ts") && SERVICE == FromAscii("service") && EVENT == FromAscii("event")
    ensures ACTOR == FromAscii("actor") && RESOURCE == FromAscii("resource") && OUTCOME == FromAscii("outcome")
    ensures REQUEST_ID == FromAscii("request_id") && ATTRS == FromAscii("attrs")
    ensures PREV_HASH == FromAscii("prev_hash") && HASH == FromAscii("hash")
  {
  }

  /** What a reader finds in the body of a clean record: its ten fields by name, each under its own, an
      absent one as null, and an empty hash. */
  lemma BodyHoldsExactly(r: Record)
    requires CleanRecord(r)
    ensures Loads(Body(r)).Done? && Loads(Body(r)).rest == "" && Loads(Body(r)).value.Obj?
    ensures var m := Loads(Body(r)).value.fields;
      && m.Keys == {TS, SERVICE, EVENT, ACTOR, RESOURCE, OUTCOME, REQUEST_ID, ATTRS, PREV_HASH, HASH}
      && m[TS] == Int(r.ts) && m[SERVICE] == Str(r.service)
      && m[EVENT] == Str(r.what.event) && m[OUTCOME] == Str(r.what.outcome)
      && m[ACTOR] == (if r.what.actor == None then Null else Str(r.what.actor.value))
      && m[RESOURCE] == (if r.what.resource == None then Null else Str(r.what.resource.value))
      && m[REQUEST_ID] == (if r.what.requestId == None then Null else Str(r.what.requestId.value))
      && m[ATTRS] == Obj(r.what.attrs) && m[PREV_HASH] == Str(r.prevHash) && m[HASH] == Str([])
  {
    var bare := r.(hash := []);
    CleanRecordExactly(r);
    CleanRecordExactly(bare);
    AsDictIs(bare);
    LoadsPrintIdentity(AsDict(bare));
  }

  lemma ColonInside(a: string, x: string, b: string, y: string)
    requires a + ":" + x == b + ":" + y && |b| < |a|
    ensures |a| - |b| <= |y| && y[|a| - |b| - 1] == ':'
  {
    assert (a + ":" + x)[|a|] == ':';
    assert (b + ":" + y)[|a|] == y[|a| - |b| - 1];
  }

  /** A text that ends in a colon and digits does so in one way. */
  lemma LastColon(a: string, x: string, b: string, y: string)
    requires AllDigits(x) && AllDigits(y) && a + ":" + x == b + ":" + y
    ensures a == b && x == y
  {
    if |b| < |a| {
      ColonInside(a, x, b, y);
    } else if |a| < |b| {
      ColonInside(b, y, a, x);
    } else {
      var s, t := a + ":" + x, b + ":" + y;
      assert s[..|a|] == a && t[..|b|] == b && s[|a| + 1..] == x && t[|b| + 1..] == y;
    }
  }

  /** No two starts have one seed text: it tells the host, the process and the time. */
  lemma SeedExactly(node: string, pid: nat, startNs: nat, host: string, process: nat, time: nat)
    ensures SeedText(node, pid, startNs) == node + ":" + Numeral(pid) + ":" + Numeral(startNs)
    ensures SeedText(node, pid, startNs) == SeedText(host, process, time) <==>
      node == host && pid == process && startNs == time
  {
    if SeedText(node, pid, startNs) == SeedText(host, process, time) {
      LastColon(node + ":" + Numeral(pid), Numeral(startNs), host + ":" + Numeral(process), Numeral(time));
      LastColon(node, Numeral(pid), host, Numeral(process));
      NumeralReadsBack(pid);
      NumeralReadsBack(process);
      NumeralReadsBack(startNs);
      NumeralReadsBack(time);
    }
  }

  // ----- Chains -----

  function Head(seed: Text, log: seq<Record>): Text {
    if log == [] then seed else log[|log| - 1].hash
  }

  /** The check a reader of the log makes: every record names the hash before it and carries its own. */
  ghost predicate Verifies(digest: Hash, seed: Text, log: seq<Record>) {
    forall i | 0 <= i < |log| ::
      log[i].prevHash == Head(seed, log[..i]) && log[i].hash == digest(Body(log[i]))
  }

  class AuditLogger {
    const service: Text
    const digest: Hash
    ghost const seed: Text
    ghost var log: seq<Record>
    var prevHash: Text

    ghost predicate Valid()
      reads this
    {
      Verifies(digest, seed, log) && prevHash == Head(seed, log)
    }

    constructor (service: Text, digest: Hash, node: string, pid: nat, startNs: nat)
      ensures Valid() && log == [] && seed == digest(SeedText(node, pid, startNs))
      ensures this.service == service && this.digest == digest
    {
      this.service := service;
      this.digest := digest;
      var first := digest(SeedText(node, pid, startNs));
      seed := first;
      prevHash := first;
      log := [];
    }

    /** Appends one record; the log so far stays as it is and the whole chain still verifies. */
    method Emit(now: int, what: Event) returns (rec: Record)
      requires Valid()
      modifies this
      ensures Valid() && log == old(log) + [rec] && prevHash == rec.hash
      ensures rec.ts == now && rec.service == service && rec.what == what
    {
      rec := Record(now, service, what, prevHash, []);
      rec := rec.(hash := digest(Body(rec)));
      prevHash := rec.hash;
      VerifiesNext(digest, seed, log, rec);
      log := log + [rec];
    }
  }

  lemma VerifiesNext(digest: Hash, seed: Text, log: seq<Record>, rec: Record)
    ensures Verifies(digest, seed, log + [rec]) <==>
      Verifies(digest, seed, log) && rec.prevHash == Head(seed, log) && rec.hash == digest(Body(rec))
  {
    var all := log + [rec];
    assert all[..|log|] == log;
    assert forall i | 0 <= i < |log| :: all[i] == log[i] && all[..i] == log[..i];
    if Verifies(digest, seed, all) {
      assert all[|log|] == rec;
      forall i | 0 <= i < |log|
        ensures log[i].prevHash == Head(seed, log[..i]) && log[i].hash == digest(Body(log[i]))
      {
        assert all[i] == log[i];
      }
    }
  }

  // ----- Tamper evidence -----

  ghost predicate CleanRecord(r: Record) { CleanValue(AsDict(r)) }

  /** The members of a record's dictionary, one by one. */
  ghost predicate IsDictOf(m: map<Text, Value>, r: Record) {
    && m.Keys == FIELDS
    && m[TS] == Int(r.ts) && m[SERVICE] == Str(r.service) && m[EVENT] == Str(r.what.event)
    && m[ACTOR] == OrNull(r.what.actor) && m[RESOURCE] == OrNull(r.what.resource)
    && m[OUTCOME] == Str(r.what.outcome) && m[REQUEST_ID] == OrNull(r.what.requestId)
    && m[ATTRS] == Obj(r.what.attrs) && m[PREV_HASH] == Str(r.prevHash) && m[HASH] == Str(r.hash)
  }

  lemma AsDictIs(r: Record)
    ensures IsDictOf(AsDict(r).fields, r)
  {
  }

  /** The dictionary determines the record. */
  lemma AsDictInjective(a: Record, b: Record)
    requires AsDict(a) == AsDict(b)
    ensures a == b
  {
    AsDictIs(a);
    AsDictIs(b);
    DictInjective(AsDict(a).fields, a, b);
  }

  lemma DictInjective(m: map<Text, Value>, a: Record, b: Record)
    requires IsDictOf(m, a) && IsDictOf(m, b)
    ensures a == b
  {
  }

  ghost predicate CleanOption(t: Option<Text>) { t.Some? ==> Clean(t.value) }

  ghost predicate CleanEvent(e: Event) {
    && Clean(e.event) && Clean(e.outcome) && CleanOption(e.actor) && CleanOption(e.resource) && CleanOption(e.requestId)
    && CleanValue(Obj(e.attrs))
  }

  lemma CleanOptions(t: Option<Text>)
    ensures CleanValue(OrNull(t)) <==> CleanOption(t)
  {
  }

  lemma CleanMembers(m: map<Text, Value>)
    requires m.Keys == FIELDS && forall k | k in m :: Clean(k)
    ensures CleanValue(Obj(m)) <==>
      && CleanValue(m[TS]) && CleanValue(m[SERVICE]) && CleanValue(m[EVENT]) && CleanValue(m[ACTOR])
      && CleanValue(m[RESOURCE]) && CleanValue(m[OUTCOME]) && CleanValue(m[REQUEST_ID]) && CleanValue(m[ATTRS])
      && CleanValue(m[PREV_HASH]) && CleanValue(m[HASH])
  {
  }

  lemma CleanDictExactly(m: map<Text, Value>, r: Record)
    requires IsDictOf(m, r)
    ensures CleanValue(Obj(m)) <==> Clean(r.service) && CleanEvent(r.what) && Clean(r.prevHash) && Clean(r.hash)
  {
    forall k | k in FIELDS ensures Clean(k) { AsciiTextIsClean(k); }
    CleanMembers(m);
    CleanOptions(r.what.actor);
    CleanOptions(r.what.resource);
    CleanOptions(r.what.requestId);
  }

  lemma CleanRecordExactly(r: Record)
    ensures CleanRecord(r) <==> Clean(r.service) && CleanEvent(r.what) && Clean(r.prevHash) && Clean(r.hash)
  {
    AsDictIs(r);
    CleanDictExactly(AsDict(r).fields, r);
  }

  /** Equal bodies come from equal records, up to the hash that the body leaves out. */
  lemma BodyInjective(a: Record, b: Record)
    requires CleanRecord(a) && CleanRecord(b) && Body(a) == Body(b)
    ensures a.(hash := []) == b.(hash := [])
  {
    CleanRecordExactly(a); CleanRecordExactly(a.(hash := []));
    CleanRecordExactly(b); CleanRecordExactly(b.(hash := []));
    PrintInjective(AsDict(a.(hash := [])), AsDict(b.(hash := [])));
    AsDictInjective(a.(hash := []), b.(hash := []));
  }

  // ----- What a body tells of its record -----

  ghost predicate AlikeOptions(x: Option<Text>, y: Option<Text>) {
    if x.Some? && y.Some? then Combine(x.value) == Combine(y.value) else x == y
  }

  ghost predicate AlikeEvents(a: Event, b: Event) {
    && Combine(a.event) == Combine(b.event) && Combine(a.outcome) == Combine(b.outcome)
    && AlikeOptions(a.actor, b.actor) && AlikeOptions(a.resource, b.resource)
    && AlikeOptions(a.requestId, b.requestId) && Alike(Obj(a.attrs), Obj(b.attrs))
  }

  /** Equal in every field but the own hash, except for how code points above U+FFFF are spelled. */
  ghost predicate AlikeRecords(a: Record, b: Record) {
    && a.ts == b.ts && Combine(a.service) == Combine(b.service) && AlikeEvents(a.what, b.what)
    && Combine(a.prevHash) == Combine(b.prevHash)
  }

  lemma DictsPrintAlike(m: map<Text, Value>, a: Record, n: map<Text, Value>, b: Record)
    requires IsDictOf(m, a) && IsDictOf(n, b)
    ensures Print(Obj(m)) == Print(Obj(n)) <==> AlikeRecords(a, b) && Combine(a.hash) == Combine(b.hash)
  {
    PrintExactly(Obj(m), Obj(n));
    AlikeSameKeys(m, n);
    MembersAlike(m, a, n, b);
  }

  lemma EachMember(m: map<Text, Value>, n: map<Text, Value>)
    requires m.Keys == FIELDS && n.Keys == FIELDS
    ensures (forall k | k in m :: Alike(m[k], n[k])) <==>
      && Alike(m[TS], n[TS]) && Alike(m[SERVICE], n[SERVICE]) && Alike(m[EVENT], n[EVENT])
      && Alike(m[ACTOR], n[ACTOR]) && Alike(m[RESOURCE], n[RESOURCE]) && Alike(m[OUTCOME], n[OUTCOME])
      && Alike(m[REQUEST_ID], n[REQUEST_ID]) && Alike(m[ATTRS], n[ATTRS])
      && Alike(m[PREV_HASH], n[PREV_HASH]) && Alike(m[HASH], n[HASH])
  {
  }

  lemma OptionsAlike(x: Option<Text>, y: Option<Text>)
    ensures Alike(OrNull(x), OrNull(y)) <==> AlikeOptions(x, y)
  {
  }

  lemma StringsAlike(x: Text, y: Text)
    ensures Alike(Str(x), Str(y)) <==> Combine(x) == Combine(y)
  {
  }

  lemma MembersAlike(m: map<Text, Value>, a: Record, n: map<Text, Value>, b: Record)
    requires IsDictOf(m, a) && IsDictOf(n, b)
    ensures (forall k | k in m :: Alike(m[k], n[k])) <==> AlikeRecords(a, b) && Combine(a.hash) == Combine(b.hash)
  {
    EachMember(m, n);
    StringsAlike(a.service, b.service);
    StringsAlike(a.what.event, b.what.event);
    OptionsAlike(a.what.actor, b.what.actor);
    OptionsAlike(a.what.resource, b.what.resource);
    StringsAlike(a.what.outcome, b.what.outcome);
    OptionsAlike(a.what.requestId, b.what.requestId);
    StringsAlike(a.prevHash, b.prevHash);
    StringsAlike(a.hash, b.hash);
  }

  /** Over all records: equal bodies are the bodies of records that are alike. */
  lemma BodyExactly(a: Record, b: Record)
    ensures Body(a) == Body(b) <==> AlikeRecords(a, b)
  {
    var x, y := a.(hash := []), b.(hash := []);
    AsDictIs(x);
    AsDictIs(y);
    DictsPrintAlike(AsDict(x).fields, x, AsDict(y).fields, y);
  }

  /** A body ends with a brace and a seed text with a digit. */
  lemma SeedIsNoBody(node: string, pid: nat, startNs: nat, r: Record)
    ensures SeedText(node, pid, startNs) != Body(r)
  {
    var s, t := SeedText(node, pid, startNs), Body(r);
    var n := Numeral(startNs);
    assert s[|s| - 1] == n[|n| - 1] && IsDigit(n[|n| - 1]);
    assert TS in AsDict(r.(hash := [])).fields;
    assert t[|t| - 1] == '}';
  }

  /** The texts whose hashes occur in a chain. */
  function Hashed(seedText: string, log: seq<Record>): set<string> {
    {seedText} + set i | 0 <= i < |log| :: Body(log[i])
  }

  /** Two different texts, one out of each chain, with the same hash. */
  ghost predicate Collision(digest: Hash, xs: set<string>, ys: set<string>) {
    exists x, y :: x in xs && y in ys && x != y && digest(x) == digest(y)
  }

  lemma HashedGrows(text: string, log: seq<Record>, i: nat)
    requires i <= |log|
    ensures Hashed(text, log[..i]) <= Hashed(text, log)
  {
  }

  lemma DropLast(digest: Hash, seed: Text, log: seq<Record>)
    requires Verifies(digest, seed, log) && log != []
    ensures var i := |log| - 1;
      && log == log[..i] + [log[i]]
      && Verifies(digest, seed, log[..i])
      && log[i].prevHash == Head(seed, log[..i]) && log[i].hash == digest(Body(log[i]))
  {
    var i := |log| - 1;
    assert log == log[..i] + [log[i]];
    VerifiesNext(digest, seed, log[..i], log[i]);
  }

  lemma CollisionGrows(digest: Hash, text: string, a: seq<Record>, i: nat, b: seq<Record>, j: nat)
    requires i <= |a| && j <= |b|
    requires Collision(digest, Hashed(text, a[..i]), Hashed(text, b[..j]))
    ensures Collision(digest, Hashed(text, a), Hashed(text, b))
  {
    HashedGrows(text, a, i);
    HashedGrows(text, b, j);
  }

  ghost predicate NoBody(text: string) { forall r :: Body(r) != text }

  ghost predicate LogsAlike(a: seq<Record>, b: seq<Record>) {
    |a| == |b| && forall i | 0 <= i < |a| :: AlikeRecords(a[i], b[i])
  }

  lemma {:induction false} HexIsFixed(t: HexText)
    ensures Combine(t) == t
  {
    CombineFixesClean(t);
  }

  /** The hashes of a chain are hex digits, so alike ones are equal. */
  lemma HeadsAlike(digest: Hash, seed: HexText, a: seq<Record>, b: seq<Record>)
    requires Verifies(digest, seed, a) && Verifies(digest, seed, b)
    requires Combine(Head(seed, a)) == Combine(Head(seed, b))
    ensures Head(seed, a) == Head(seed, b)
  {
    HexIsFixed(if a == [] then seed else digest(Body(a[|a| - 1])));
    HexIsFixed(if b == [] then seed else digest(Body(b[|b| - 1])));
  }

  /** A chain that ends in its own seed is empty, or shows a collision. */
  lemma EndsInSeed(digest: Hash, text: string, log: seq<Record>)
    requires NoBody(text) && Verifies(digest, digest(text), log)
    requires log != [] && log[|log| - 1].hash == digest(text)
    ensures exists y :: y in Hashed(text, log) && y != text && digest(y) == digest(text)
  {
  }

  /** Chains with the same seed text and the same head hash are alike, or show a collision. */
  lemma {:induction false} ChainsAgree(digest: Hash, text: string, a: seq<Record>, b: seq<Record>)
    requires NoBody(text) && Verifies(digest, digest(text), a) && Verifies(digest, digest(text), b)
    requires Head(digest(text), a) == Head(digest(text), b)
    ensures LogsAlike(a, b) || Collision(digest, Hashed(text, a), Hashed(text, b))
    decreases |a|
  {
    if a != [] && b != [] {
      DropLast(digest, digest(text), a);
      DropLast(digest, digest(text), b);
      var i, j := |a| - 1, |b| - 1;
      if Body(a[i]) != Body(b[j]) {
        assert Body(a[i]) in Hashed(text, a) && Body(b[j]) in Hashed(text, b);
      } else {
        BodyExactly(a[i], b[j]);
        HeadsAlike(digest, digest(text), a[..i], b[..j]);
        ChainsAgree(digest, text, a[..i], b[..j]);
        if LogsAlike(a[..i], b[..j]) {
          LogsAlikeAppend(a[..i], a[i], b[..j], b[j]);
        } else {
          CollisionGrows(digest, text, a, i, b, j);
        }
      }
    } else if b != [] {
      EndsInSeed(digest, text, b);
    } else if a != [] {
      EndsInSeed(digest, text, a);
    }
  }

  lemma LogsAlikeAppend(a: seq<Record>, x: Record, b: seq<Record>, y: Record)
    requires LogsAlike(a, b) && AlikeRecords(x, y)
    ensures LogsAlike(a + [x], b + [y])
  {
  }

  /** Alike logs that verify carry the same hashes throughout. */
  lemma AlikeChainsShareHashes(digest: Hash, seed: Text, a: seq<Record>, b: seq<Record>)
    requires Verifies(digest, seed, a) && Verifies(digest, seed, b) && LogsAlike(a, b)
    ensures Head(seed, a) == Head(seed, b)
    ensures forall i | 0 <= i < |a| :: a[i].hash == b[i].hash && a[i].prevHash == b[i].prevHash
  {
    forall i | 0 <= i < |a| ensures a[i].hash == b[i].hash {
      BodyExactly(a[i], b[i]);
    }
    forall i | 0 <= i < |a| ensures a[i].prevHash == b[i].prevHash {
      assert a[i].prevHash == Head(seed, a[..i]) && b[i].prevHash == Head(seed, b[..i]);
    }
  }

  /** What the head hash shows of a log, over all logs: two logs that verify from one seed end in the same
      head hash exactly when they have the same length and are alike record for record, with the same
      hashes; otherwise they show a hash collision. */
  lemma TamperEvidence(digest: Hash, node: string, pid: nat, startNs: nat, a: seq<Record>, b: seq<Record>)
    requires var seed := digest(SeedText(node, pid, startNs)); Verifies(digest, seed, a) && Verifies(digest, seed, b)
    ensures var text := SeedText(node, pid, startNs);
      && (Head(digest(text), a) == Head(digest(text), b) ==>
            LogsAlike(a, b) || Collision(digest, Hashed(text, a), Hashed(text, b)))
      && (LogsAlike(a, b) ==>
            && Head(digest(text), a) == Head(digest(text), b)
            && forall i | 0 <= i < |a| :: a[i].hash == b[i].hash && a[i].prevHash == b[i].prevHash)
  {
    var text := SeedText(node, pid, startNs);
    forall r ensures Body(r) != text {
      SeedIsNoBody(node, pid, startNs, r);
    }
    if Head(digest(text), a) == Head(digest(text), b) { ChainsAgree(digest, text, a, b); }
    if LogsAlike(a, b) { AlikeChainsShareHashes(digest, digest(text), a, b); }
  }

  ghost predicate CleanLog(log: seq<Record>) { forall i | 0 <= i < |log| :: CleanRecord(log[i]) }

  lemma CleanAlikeEqual(digest: Hash, seed: Text, a: seq<Record>, b: seq<Record>)
    requires Verifies(digest, seed, a) && Verifies(digest, seed, b) && LogsAlike(a, b) && CleanLog(a) && CleanLog(b)
    ensures a == b
  {
    AlikeChainsShareHashes(digest, seed, a, b);
    forall i | 0 <= i < |a| ensures a[i] == b[i] {
      BodyExactly(a[i], b[i]);
      BodyInjective(a[i], b[i]);
      assert a[i] == a[i].(hash := []).(hash := a[i].hash) && b[i] == b[i].(hash := []).(hash := b[i].hash);
    }
  }

  /** What a reader can check: of a log without split surrogate pairs, any log with the same head is alike
      or shows a collision, and it is the same field for field if and only if it has no such pair either. */
  lemma CleanTamperEvidence(digest: Hash, node: string, pid: nat, startNs: nat, a: seq<Record>, b: seq<Record>)
    requires var seed := digest(SeedText(node, pid, startNs)); Verifies(digest, seed, a) && Verifies(digest, seed, b)
    requires CleanLog(a)
    ensures var text := SeedText(node, pid, startNs);
      Head(digest(text), a) == Head(digest(text), b) ==>
        || Collision(digest, Hashed(text, a), Hashed(text, b))
        || (LogsAlike(a, b) && (a == b <==> CleanLog(b)))
  {
    TamperEvidence(digest, node, pid, startNs, a, b);
    if LogsAlike(a, b) && CleanLog(b) { CleanAlikeEqual(digest, digest(SeedText(node, pid, startNs)), a, b); }
  }

  // ----- What the emitter can see to -----

  ghost predicate PlainOption(t: Option<Text>) { t.Some? ==> Plain(t.value) }

  /** No string of the record, be it a field or anywhere in the attributes, has another spelling. */
  ghost predicate PlainRecord(r: Record) {
    && Plain(r.service) && Plain(r.what.event) && Plain(r.what.outcome)
    && PlainOption(r.what.actor) && PlainOption(r.what.resource) && PlainOption(r.what.requestId)
    && PlainStrings(Obj(r.what.attrs))
  }

  ghost predicate PlainAttributeNames(r: Record) { PlainKeys(Obj(r.what.attrs)) }

  lemma PlainOptionStays(x: Option<Text>, y: Option<Text>)
    requires PlainOption(x) && AlikeOptions(x, y)
    ensures x == y
  {
    if x.Some? { PlainHasNoOther(x.value, y.value); }
  }

  lemma PlainRecordIsAlone(r: Record, s: Record)
    requires PlainRecord(r) && PlainAttributeNames(r) && AlikeRecords(r, s)
    ensures r.ts == s.ts && r.service == s.service && r.what == s.what
  {
    PlainHasNoOther(r.service, s.service);
    PlainHasNoOther(r.what.event, s.what.event);
    PlainHasNoOther(r.what.outcome, s.what.outcome);
    PlainOptionStays(r.what.actor, s.what.actor);
    PlainOptionStays(r.what.resource, s.what.resource);
    PlainOptionStays(r.what.requestId, s.what.requestId);
    PlainIsAlone(Obj(r.what.attrs), Obj(s.what.attrs));
  }

  /** A log that verifies and whose strings and attribute names are plain is alike to no other that does. */
  lemma PlainLogIsAlone(digest: Hash, seed: Text, a: seq<Record>, b: seq<Record>)
    requires Verifies(digest, seed, a) && Verifies(digest, seed, b) && LogsAlike(a, b)
    requires forall i | 0 <= i < |a| :: PlainRecord(a[i]) && PlainAttributeNames(a[i])
    ensures a == b
  {
    AlikeChainsShareHashes(digest, seed, a, b);
    forall i | 0 <= i < |a| ensures a[i] == b[i] { PlainRecordIsAlone(a[i], b[i]); }
  }

  /** What the emitter can see to: when all it logged is plain, any log at all that verifies and ends in the
      same head hash is the emitted one field for field, or shows a hash collision. */
  lemma PlainTamperEvidence(digest: Hash, node: string, pid: nat, startNs: nat, a: seq<Record>, b: seq<Record>)
    requires var seed := digest(SeedText(node, pid, startNs)); Verifies(digest, seed, a) && Verifies(digest, seed, b)
    requires forall i | 0 <= i < |a| :: PlainRecord(a[i]) && PlainAttributeNames(a[i])
    ensures var text := SeedText(node, pid, startNs);
      Head(digest(text), a) == Head(digest(text), b) ==> a == b || Collision(digest, Hashed(text, a), Hashed(text, b))
  {
    TamperEvidence(digest, node, pid, startNs, a, b);
    if LogsAlike(a, b) { PlainLogIsAlone(digest, digest(SeedText(node, pid, startNs)), a, b); }
  }

  ghost function RespelledOption(t: Option<Text>): Option<Text> {
    if t.Some? then Some(Respelled(t.value)) else None
  }

  lemma NotPlainOption(t: Option<Text>)
    requires !PlainOption(t)
    ensures AlikeOptions(t, RespelledOption(t)) && RespelledOption(t) != t
  {
    PlainExactly(t.value);
  }

  /** An event with a field or an attribute that is not plain has another that is alike. */
  lemma NotPlainEvent(e: Event) returns (f: Event)
    requires !Plain(e.event) || !Plain(e.outcome) || !PlainOption(e.actor) || !PlainOption(e.resource)
      || !PlainOption(e.requestId) || !PlainStrings(Obj(e.attrs))
    ensures f != e && AlikeEvents(e, f)
  {
    AlikeItself(Obj(e.attrs));
    if !Plain(e.event) {
      PlainExactly(e.event);
      f := e.(event := Respelled(e.event));
    } else if !Plain(e.outcome) {
      PlainExactly(e.outcome);
      f := e.(outcome := Respelled(e.outcome));
    } else if !PlainOption(e.actor) {
      NotPlainOption(e.actor);
      f := e.(actor := RespelledOption(e.actor));
    } else if !PlainOption(e.resource) {
      NotPlainOption(e.resource);
      f := e.(resource := RespelledOption(e.resource));
    } else if !PlainOption(e.requestId) {
      NotPlainOption(e.requestId);
      f := e.(requestId := RespelledOption(e.requestId));
    } else {
      var w := NotPlainHasAnother(Obj(e.attrs));
      f := e.(attrs := w.fields);
    }
  }

  lemma NotPlainRecord(r: Record) returns (s: Record)
    requires !PlainRecord(r)
    ensures s != r && AlikeRecords(r, s) && s.hash == r.hash && s.prevHash == r.prevHash
  {
    AlikeItself(Obj(r.what.attrs));
    if !Plain(r.service) {
      PlainExactly(r.service);
      s := r.(service := Respelled(r.service));
    } else {
      var f := NotPlainEvent(r.what);
      s := r.(what := f);
    }
  }

  lemma ExchangeAlike(a: seq<Record>, i: nat, s: Record)
    requires i < |a| && AlikeRecords(a[i], s)
    ensures LogsAlike(a, a[i := s])
  {
    forall j | 0 <= j < |a| ensures AlikeRecords(a[j], a[i := s][j]) { AlikeItself(Obj(a[j].what.attrs)); }
  }

  lemma HeadExchanged(seed: Text, a: seq<Record>, i: nat, s: Record, j: nat)
    requires i < |a| && j <= |a| && s.hash == a[i].hash
    ensures Head(seed, a[i := s][..j]) == Head(seed, a[..j])
  {
  }

  /** A record exchanged for one that is alike, with the same hashes, leaves the chain as good as it was. */
  lemma ExchangeVerifies(digest: Hash, seed: Text, a: seq<Record>, i: nat, s: Record)
    requires Verifies(digest, seed, a) && i < |a| && Body(s) == Body(a[i])
    requires s.hash == a[i].hash && s.prevHash == a[i].prevHash
    ensures Verifies(digest, seed, a[i := s]) && Head(seed, a[i := s]) == Head(seed, a)
  {
    var b := a[i := s];
    forall j | 0 <= j < |b| ensures b[j].prevHash == Head(seed, b[..j]) && b[j].hash == digest(Body(b[j])) {
      HeadExchanged(seed, a, i, s, j);
      assert a[j].prevHash == Head(seed, a[..j]) && a[j].hash == digest(Body(a[j]));
    }
    HeadExchanged(seed, a, i, s, |a|);
    assert a[..|a|] == a && b[..|a|] == b;
  }

  /** A string that is not plain, in any record, lets the log be changed without a trace: there is another
      log that verifies, hashes the same texts and ends in the same head hash. */
  lemma NotPlainGoesUnnoticed(digest: Hash, seed: Text, a: seq<Record>, i: nat) returns (b: seq<Record>)
    requires Verifies(digest, seed, a) && i < |a| && !PlainRecord(a[i])
    ensures b != a && Verifies(digest, seed, b) && LogsAlike(a, b) && Head(seed, b) == Head(seed, a)
    ensures |b| == |a| && forall j | 0 <= j < |a| :: Body(b[j]) == Body(a[j])
  {
    var s := NotPlainRecord(a[i]);
    b := a[i := s];
    BodyExactly(a[i], s);
    ExchangeAlike(a, i, s);
    ExchangeVerifies(digest, seed, a, i, s);
    assert b[i] != a[i];
    forall j | 0 <= j < |a| ensures Body(b[j]) == Body(a[j]) { BodyExactly(a[j], b[j]); }
  }

  /** The emitter's condition is exact: where attribute names are plain, the log is the only one with its
      chain, up to hash collisions, if and only if every string in it is plain. */
  lemma AloneExactly(digest: Hash, seed: Text, a: seq<Record>)
    requires Verifies(digest, seed, a) && forall i | 0 <= i < |a| :: PlainAttributeNames(a[i])
    ensures (forall i | 0 <= i < |a| :: PlainRecord(a[i])) <==>
      forall b | Verifies(digest, seed, b) && LogsAlike(a, b) :: b == a
  {
    if forall i | 0 <= i < |a| :: PlainRecord(a[i]) {
      forall b | Verifies(digest, seed, b) && LogsAlike(a, b) ensures b == a {
        PlainLogIsAlone(digest, seed, a, b);
      }
    } else {
      var i :| 0 <= i < |a| && !PlainRecord(a[i]);
      var b := NotPlainGoesUnnoticed(digest, seed, a, i);
    }
  }

  lemma CombineSplitFace()
    ensures Combine([0xD83D, 0xDE00]) == [0x1F600] && Combine([0x1F600]) == [0x1F600]
  {
    var split: Text := [0xD83D, 0xDE00];
    assert SplitPairAt(split, 0);
    assert split[2..] == [];
  }

  /** The body does not depend on the record's own hash. */
  lemma SameBody(r: Record, hash: Text)
    ensures Body(r.(hash := hash)) == Body(r)
  {
  }

  /** The first record of a chain, as it is emitted. */
  lemma FirstVerifies(digest: Hash, seed: HexText, r: Record) returns (x: Record)
    requires r.prevHash == seed
    ensures x == r.(hash := digest(Body(r))) && Body(x) == Body(r) && Verifies(digest, seed, [x])
    ensures Clean(r.service) && CleanEvent(r.what) ==> CleanRecord(x)
  {
    x := r.(hash := digest(Body(r)));
    SameBody(r, x.hash);
    VerifiesNext(digest, seed, [], x);
    assert [] + [x] == [x];
    AsciiTextIsClean(seed);
    AsciiTextIsClean(x.hash);
    CleanRecordExactly(x);
  }

  lemma ActorSpellingsAlike(r: Record, s: Record)
    requires s == r.(what := r.what.(actor := Some([0xD83D, 0xDE00]))) && r.what.actor == Some([0x1F600])
    ensures AlikeRecords(r, s)
  {
    CombineSplitFace();
    PrintExactly(Obj(r.what.attrs), Obj(r.what.attrs));
  }

  /** A change that no hash shows: an actor spelled with two surrogates instead of U+1F600. Whatever the
      rest of the event is, the two logs verify from every seed and hash the same text to the same hash,
      and the first of them is clean when the rest is. */
  lemma SplitPairGoesUnnoticed(digest: Hash, seed: HexText, ts: int, service: Text, what: Event)
      returns (x: Record, y: Record)
    ensures x.what == what.(actor := Some([0x1F600])) && y.what == what.(actor := Some([0xD83D, 0xDE00])) && x != y
    ensures Verifies(digest, seed, [x]) && Verifies(digest, seed, [y]) && Body(x) == Body(y) && x.hash == y.hash
    ensures Clean(service) && CleanEvent(what) ==> CleanRecord(x)
  {
    var r := Record(ts, service, what.(actor := Some([0x1F600])), seed, []);
    var s := Record(ts, service, what.(actor := Some([0xD83D, 0xDE00])), seed, []);
    ActorSpellingsAlike(r, s);
    BodyExactly(r, s);
    CombineSplitFace();
    CombineFixesClean([0x1F600]);
    x := FirstVerifies(digest, seed, r);
    y := FirstVerifies(digest, seed, s);
    assert x.what.actor.value[0] != y.what.actor.value[0];
  }
}
