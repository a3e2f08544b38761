/** The cache of public keys, refreshed from a server whose keys change. */
module Jwks {
  import opened Prelude

  // The `kid` of a key is optional (section 4.5 of RFC 7517).
  datatype Jwk = Jwk(kid: Option<string>, material: int)

  type Document = seq<Jwk>

  // A fetch ends with an error or with the document the server published at some moment.
  datatype Fetched = Failed | Fetched(doc: Document)

  datatype Answer = Found(key: Jwk) | UnknownKid | FetchFailed | EntryWithoutKid

  datatype Cache = Cache(keys: map<string, Jwk>, exp: nat)

  const EMPTY := Cache(map[], 0)

  predicate WellFormed(doc: Document) {
    forall i | 0 <= i < |doc| :: doc[i].kid.Some?
  }

  /** The key a document publishes for a kid: the last entry that carries it. */
  function Published(doc: Document, kid: string): Option<Jwk> {
    if doc == [] then None
    else if doc[|doc| - 1].kid == Some(kid) then Some(doc[|doc| - 1])
    else Published(doc[..|doc| - 1], kid)
  }

  ghost predicate IsLastWith(doc: Document, kid: string, i: nat) {
    i < |doc| && doc[i].kid == Some(kid) && forall j | i < j < |doc| :: doc[j].kid != Some(kid)
  }

  ghost predicate HasNone(doc: Document, kid: string) { forall i | 0 <= i < |doc| :: doc[i].kid != Some(kid) }

  lemma LastOneMore(doc: Document, kid: string, k: Jwk)
    requires k.kid != Some(kid)
    ensures HasNone(doc + [k], kid) <==> HasNone(doc, kid)
    ensures forall i: nat | IsLastWith(doc, kid, i) :: IsLastWith(doc + [k], kid, i)
  {
    assert forall i | 0 <= i < |doc| :: (doc + [k])[i] == doc[i];
  }

  /** What is published for a kid is the last entry with it, and nothing if there is none. */
  lemma {:induction false} PublishedIsLast(doc: Document, kid: string)
    ensures Published(doc, kid).None? <==> HasNone(doc, kid)
    ensures Published(doc, kid).Some? ==>
      exists i: nat :: IsLastWith(doc, kid, i) && Published(doc, kid) == Some(doc[i])
  {
    if doc != [] {
      var n := |doc| - 1;
      var before := doc[..n];
      if doc[n].kid == Some(kid) {
        assert IsLastWith(doc, kid, n);
      } else {
        PublishedIsLast(before, kid);
        assert doc == before + [doc[n]];
        LastOneMore(before, kid, doc[n]);
        if Published(before, kid).Some? {
          var i: nat :| IsLastWith(before, kid, i) && Published(before, kid) == Some(before[i]);
          assert IsLastWith(doc, kid, i) && doc[i] == before[i];
        }
      }
    }
  }

  ghost predicate Indexes(keys: map<string, Jwk>, doc: Document) {
    forall kid: string :: if Published(doc, kid).Some?
        then kid in keys && keys[kid] == Published(doc, kid).value else kid !in keys
  }

  /** The dictionary of a document, or nothing when an entry has no kid. */
  method Index(doc: Document) returns (keys: Option<map<string, Jwk>>)
    ensures keys.Some? <==> WellFormed(doc)
    ensures keys.Some? ==> Indexes(keys.value, doc)
  {
    var m: map<string, Jwk> := map[];
    for i := 0 to |doc|
      invariant WellFormed(doc[..i])
      invariant Indexes(m, doc[..i])
    {
      if doc[i].kid.None? { return None; }
      assert doc[..i + 1][..i] == doc[..i] && doc[..i + 1][i] == doc[i];
      m := m[doc[i].kid.value := doc[i]];
    }
    assert doc[..|doc|] == doc;
    keys := Some(m);
  }

  class JWKSCache {
    const ttl: nat
    var keys: map<string, Jwk>
    var exp: nat

    ghost function Contents(): Cache
      reads this
    {
      Cache(keys, exp)
    }

    constructor (ttl: nat)
      ensures this.ttl == ttl && Contents() == EMPTY
    {
      this.ttl := ttl;
      keys, exp := map[], 0;
    }

    /** Nothing changes unless the fetch brings a document in which every entry has a kid. */
    method Refresh(reply: Fetched, done: nat) returns (failure: Option<Answer>)
      modifies this
      ensures failure == FailureOf(reply)
      ensures Landed(old(Contents()), Contents(), ttl, reply, done)
    {
      if reply.Failed? { return Some(FetchFailed); }
      var index := Index(reply.doc);
      if index.None? { return Some(EntryWithoutKid); }
      keys := index.value;
      exp := done + ttl;
      failure := None;
    }

    /** A call that finds the key fresh answers at once; any other fetches, and answers from what it got.
        The clock when the call starts and when the fetch is done, and its reply, are parameters. */
    method Get(kid: string, now: nat, reply: Fetched, done: nat) returns (r: Answer)
      modifies this
      ensures Fresh(old(Contents()), kid, now) ==> r == Found(old(keys)[kid]) && Contents() == old(Contents())
      ensures !Fresh(old(Contents()), kid, now) ==>
          r == AnswerOf(reply, kid) && Landed(old(Contents()), Contents(), ttl, reply, done)
    {
      if now >= exp || kid !in keys {
        var failure := Refresh(reply, done);
        if failure.Some? { return failure.value; }
      }
      if kid !in keys { return UnknownKid; }
      r := Found(keys[kid]);
    }
  }

  predicate Fresh(c: Cache, kid: string, now: nat) { now < c.exp && kid in c.keys }

  function FailureOf(reply: Fetched): Option<Answer> {
    if reply.Failed? then Some(FetchFailed) else if !WellFormed(reply.doc) then Some(EntryWithoutKid) else None
  }

  /** What a call that had to fetch answers. */
  function AnswerOf(reply: Fetched, kid: string): Answer {
    if FailureOf(reply).Some? then FailureOf(reply).value
    else if Published(reply.doc, kid).Some? then Found(Published(reply.doc, kid).value)
    else UnknownKid
  }

  ghost predicate Landed(before: Cache, after: Cache, ttl: nat, reply: Fetched, done: nat) {
    if FailureOf(reply).Some? then after == before else Indexes(after.keys, reply.doc) && after.exp == done + ttl
  }

  // ----- Whole runs, with any number of calls under way at once -----

  // The end of a call's fetch: what it brought, the moment the server published that, and the end.
  // The start of a call leaves the cache as it is, so that calls overlap as their fetches end in any order.
  datatype Landing = Landing(reply: Fetched, published: nat, done: nat)

  type Server = nat -> Document

  /** Fetches that end in clock order; each document is the one the server published at a moment before. */
  ghost predicate Honest(server: Server, landings: seq<Landing>) {
    && (forall i | 0 <= i < |landings| :: landings[i].published <= landings[i].done)
    && (forall i | 0 <= i < |landings| ::
        landings[i].reply.Fetched? ==> landings[i].reply.doc == server(landings[i].published))
    && (forall i, j | 0 <= i < j < |landings| :: landings[i].done <= landings[j].done)
  }

  /** The caches after each landing of a run. */
  ghost predicate IsRun(ttl: nat, landings: seq<Landing>, caches: seq<Cache>) {
    && |caches| == |landings| + 1 && caches[0] == EMPTY
    && forall i | 0 <= i < |landings| :: Landed(caches[i], caches[i + 1], ttl, landings[i].reply, landings[i].done)
  }

  /** The last landing that brought a document with a kid on every entry. */
  function LastGood(landings: seq<Landing>): Option<Landing> {
    if landings == [] then None
    else if FailureOf(landings[|landings| - 1].reply).None? then Some(landings[|landings| - 1])
    else LastGood(landings[..|landings| - 1])
  }

  ghost predicate Agrees(c: Cache, ttl: nat, good: Option<Landing>) {
    if good.None? then c == EMPTY
    else good.value.reply.Fetched? && Indexes(c.keys, good.value.reply.doc) && c.exp == good.value.done + ttl
  }

  lemma {:induction false} RunAgrees(ttl: nat, landings: seq<Landing>, caches: seq<Cache>)
    requires IsRun(ttl, landings, caches)
    ensures Agrees(caches[|landings|], ttl, LastGood(landings))
    decreases |landings|
  {
    if landings != [] {
      var n := |landings| - 1;
      assert IsRun(ttl, landings[..n], caches[..n + 1]);
      RunAgrees(ttl, landings[..n], caches[..n + 1]);
      assert Landed(caches[n], caches[n + 1], ttl, landings[n].reply, landings[n].done);
    }
  }

  lemma {:induction false} LastGoodIsOne(landings: seq<Landing>)
    ensures LastGood(landings).Some? ==> LastGood(landings).value in landings
  {
    if landings != [] { LastGoodIsOne(landings[..|landings| - 1]); }
  }

  /** A call at `now` answers from the cache exactly when the last good fetch ended less than the life of
      the cache ago and brought the kid, and it answers with the key that was published for it then. */
  lemma CachedExactly(ttl: nat, landings: seq<Landing>, caches: seq<Cache>, kid: string, now: nat)
    requires IsRun(ttl, landings, caches)
    ensures var c, good := caches[|landings|], LastGood(landings);
      && (Fresh(c, kid, now) <==>
            good.Some? && good.value.reply.Fetched? && now < good.value.done + ttl
                && Published(good.value.reply.doc, kid).Some?)
      && (Fresh(c, kid, now) ==> Some(c.keys[kid]) == Published(good.value.reply.doc, kid))
  {
    RunAgrees(ttl, landings, caches);
  }

  /** In every run over a changing server in which no fetch takes longer than `latency` from publication to
      its end, a key found in the cache at `now` is one the server published for that kid at a moment
      within the life of the cache and that latency before `now`. */
  lemma CachedKeyWasPublished(server: Server, ttl: nat, latency: nat, landings: seq<Landing>,
      caches: seq<Cache>, kid: string, now: nat)
      returns (moment: nat)
    requires Honest(server, landings) && IsRun(ttl, landings, caches)
    requires forall i | 0 <= i < |landings| :: landings[i].done <= landings[i].published + latency
    requires landings != [] ==> landings[|landings| - 1].done <= now
    requires Fresh(caches[|landings|], kid, now)
    ensures now - ttl - latency < moment <= now
    ensures Published(server(moment), kid) == Some(caches[|landings|].keys[kid])
  {
    CachedExactly(ttl, landings, caches, kid, now);
    LastGoodIsOne(landings);
    var i :| 0 <= i < |landings| && landings[i] == LastGood(landings).value;
    moment := landings[i].published;
    assert landings[i].done <= now;
  }

  /** What a call that had to fetch answers, exactly. It finds the key if and only if the document
      publishes one for the kid and every entry of it has a kid, and then it names the key the server
      published at that moment; one entry without a kid fails the call whatever else is published. */
  lemma FetchedExactly(server: Server, landing: Landing, kid: string)
    requires Honest(server, [landing])
    ensures var doc := server(landing.published); var answer := AnswerOf(landing.reply, kid);
      && (answer == FetchFailed <==> landing.reply.Failed?)
      && (answer == EntryWithoutKid <==> landing.reply.Fetched? && exists i :: 0 <= i < |doc| && doc[i].kid == None)
      && (answer.Found? <==> landing.reply.Fetched? && WellFormed(doc) && Published(doc, kid).Some?)
      && (answer == UnknownKid <==> landing.reply.Fetched? && WellFormed(doc) && HasNone(doc, kid))
      && (answer.Found? ==> Published(doc, kid) == Some(answer.key))
  {
    assert [landing][0] == landing;
    if landing.reply.Fetched? {
      assert landing.reply.doc == server(landing.published);
      PublishedIsLast(landing.reply.doc, kid);
    }
  }

  /** A published key that is not found: another entry of the document has no kid. */
  lemma PublishedButNotFound(material: int)
    ensures var doc := [Jwk(Some("a"), material), Jwk(None, 0)];
      Published(doc, "a") == Some(doc[0]) && AnswerOf(Fetched(doc), "a") == EntryWithoutKid
  {
  }
}
