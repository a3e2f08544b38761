/** Sliding-expiry sessions, encrypted in Redis. */
module Sessions {
  import opened Prelude

  const SESSION_TTL := 900

  datatype Session = Session(sid: string, userId: string, roles: seq<string>, mfa: bool,
                             createdAt: nat, lastSeen: nat, ip: Option<string>, ua: Option<string>)

  // AES-GCM as an ideal cipher: a blob is either a session sealed under a key or other bytes,
  // and decryption succeeds exactly on what was sealed under the same key.
  type Key = seq<int>

  datatype Blob = Sealed(key: Key, session: Session) | Other(bytes: seq<int>)

  datatype Entry = Entry(blob: Blob, expires: nat)

  // Redis below the store's name space; an entry past its expiry is as good as absent.
  type Store = map<string, Entry>

  function Decrypt(key: Key, blob: Blob): Option<Session> {
    if blob.Sealed? && blob.key == key then Some(blob.session) else None
  }

  /** `GET`, with an empty value reported like an absent one. */
  function Lookup(st: Store, k: string, now: nat): Option<Blob> {
    if k in st && now < st[k].expires && st[k].blob != Other([]) then Some(st[k].blob) else None
  }

  function Persist(st: Store, key: Key, s: Session, now: nat): Store {
    st[s.sid := Entry(Sealed(key, s), now + SESSION_TTL)]
  }

  /** The session read under an id, if there is one. */
  function Read(st: Store, key: Key, sid: string, now: nat): Option<Session> {
    var blob := Lookup(st, sid, now);
    var s := if blob.Some? then Decrypt(key, blob.value) else None;
    if s.Some? then Some(s.value.(lastSeen := now)) else None
  }

  function AfterGet(st: Store, key: Key, sid: string, now: nat): Store {
    if Lookup(st, sid, now).None? then st
    else if Read(st, key, sid, now).None? then st - {sid}
    else Persist(st, key, Read(st, key, sid, now).value, now)
  }

  /** What a scan for a user deletes: that user's sessions and blobs that do not decrypt. */
  predicate Doomed(st: Store, key: Key, userId: string, now: nat, k: string) {
    var blob := Lookup(st, k, now);
    blob.Some? && (Decrypt(key, blob.value).None? || Decrypt(key, blob.value).value.userId == userId)
  }

  predicate IsSessionOf(st: Store, key: Key, userId: string, now: nat, k: string) {
    var blob := Lookup(st, k, now);
    blob.Some? && Decrypt(key, blob.value).Some? && Decrypt(key, blob.value).value.userId == userId
  }

  function AfterRevokeAll(st: Store, key: Key, userId: string, now: nat): Store {
    map k | k in st && !Doomed(st, key, userId, now, k) :: st[k]
  }

  class SessionStore {
    const key: Key
    var redis: Store

    constructor (key: Key)
      ensures this.key == key && redis == map[]
    {
      this.key := key;
      redis := map[];
    }

    /** The random session id and the clock are parameters. */
    method Create(sid: string, userId: string, roles: seq<string>, mfa: bool, ip: Option<string>,
        ua: Option<string>, now: nat)
        returns (s: Session)
      modifies this
      ensures s == Session(sid, userId, roles, mfa, now, now, ip, ua)
      ensures redis == Persist(old(redis), key, s, now)
      ensures redis == old(redis)[sid := Entry(Sealed(key, s), now + 900)]
    {
      s := Session(sid, userId, roles, mfa, now, now, ip, ua);
      redis := redis[sid := Entry(Sealed(key, s), now + SESSION_TTL)];
    }

    method Get(sid: string, now: nat) returns (r: Option<Session>)
      modifies this
      ensures r == Read(old(redis), key, sid, now)
      ensures redis == AfterGet(old(redis), key, sid, now)
      ensures if sid !in old(redis) || old(redis)[sid].expires <= now || old(redis)[sid].blob == Other([])
          then r == None && redis == old(redis)
        else match old(redis)[sid].blob
          case Sealed(k, s) =>
            if k == key then
              && r == Some(s.(lastSeen := now))
              && redis == old(redis)[s.sid := Entry(Sealed(key, s.(lastSeen := now)), now + 900)]
            else r == None && redis == old(redis) - {sid}
          case Other(_) => r == None && redis == old(redis) - {sid}
    {
      var blob := Lookup(redis, sid, now);
      if blob.None? { return None; }
      var payload := Decrypt(key, blob.value);
      if payload.None? {
        redis := redis - {sid};
        return None;
      }
      var s := payload.value.(lastSeen := now);
      redis := redis[s.sid := Entry(Sealed(key, s), now + SESSION_TTL)];
      r := Some(s);
    }

    method Revoke(sid: string)
      modifies this
      ensures redis == old(redis) - {sid}
    {
      redis := redis - {sid};
    }

    /** The scan returns every key that is there throughout, in any order and possibly more than once; whether
        it returns keys past their expiry does not matter. */
    method RevokeAllForUser(userId: string, now: nat, scan: seq<string>) returns (count: nat)
      requires forall k | k in redis && now < redis[k].expires :: k in scan
      modifies this
      ensures redis == AfterRevokeAll(old(redis), key, userId, now)
      ensures count == |set k | k in old(redis) && now < old(redis)[k].expires && old(redis)[k].blob.Sealed?
        && old(redis)[k].blob.key == key && old(redis)[k].blob.session.userId == userId|
    {
      count := 0;
      ghost var start := redis;
      for i := 0 to |scan|
        invariant redis == Remaining(start, key, userId, now, scan[..i])
        invariant count == |Found(start, key, userId, now, scan[..i])|
      {
        var k := scan[i];
        assert scan[..i + 1] == scan[..i] + [k];
        ScanStep(start, key, userId, now, scan[..i], k);
        FoundStep(start, key, userId, now, scan[..i], k);
        var blob := Lookup(redis, k, now);
        if blob.Some? {
          var payload := Decrypt(key, blob.value);
          if payload.None? {
            redis := redis - {k};
          } else if payload.value.userId == userId {
            redis := redis - {k};
            count := count + 1;
          }
        }
      }
      assert scan[..|scan|] == scan;
      assert Found(start, key, userId, now, scan) == set k | k in start && now < start[k].expires
        && start[k].blob.Sealed? && start[k].blob.key == key && start[k].blob.session.userId == userId;
    }
  }

  /** The store, and the user's sessions deleted, after the scan has returned some keys. */
  ghost function Remaining(st: Store, key: Key, userId: string, now: nat, seen: seq<string>): Store {
    map k | k in st && !(k in seen && Doomed(st, key, userId, now, k)) :: st[k]
  }

  ghost function Found(st: Store, key: Key, userId: string, now: nat, seen: seq<string>): set<string> {
    set k | k in st && k in seen && IsSessionOf(st, key, userId, now, k)
  }

  /** The next key of a scan: a key returned before changes nothing, a new one what its blob calls for. */
  lemma ScanStep(st: Store, key: Key, userId: string, now: nat, seen: seq<string>, k: string)
    ensures var before, after := Remaining(st, key, userId, now, seen), Remaining(st, key, userId, now, seen + [k]);
      after == (if Doomed(before, key, userId, now, k) then before - {k} else before)
  {
  }

  lemma FoundStep(st: Store, key: Key, userId: string, now: nat, seen: seq<string>, k: string)
    ensures var before := Remaining(st, key, userId, now, seen);
      |Found(st, key, userId, now, seen + [k])|
        == |Found(st, key, userId, now, seen)| + if IsSessionOf(before, key, userId, now, k) then 1 else 0
  {
    var before := Remaining(st, key, userId, now, seen);
    var earlier, later := Found(st, key, userId, now, seen), Found(st, key, userId, now, seen + [k]);
    assert forall x :: x in seen + [k] <==> x in seen || x == k;
    if IsSessionOf(before, key, userId, now, k) {
      assert later == earlier + {k} && k !in earlier;
    } else {
      assert later == earlier;
    }
  }

  /** After revoking a user, no session of the user can be read, nothing undecryptable can be looked up,
      and every other session reads as before with its expiry untouched. */
  lemma RevokeAllLeavesOthers(st: Store, key: Key, userId: string, now: nat, sid: string)
    ensures var t := AfterRevokeAll(st, key, userId, now);
      && (Read(t, key, sid, now).Some? ==> Read(t, key, sid, now).value.userId != userId)
      && (Lookup(t, sid, now).Some? ==> Decrypt(key, Lookup(t, sid, now).value).Some?)
      && (Read(st, key, sid, now).Some? && Read(st, key, sid, now).value.userId != userId ==>
            sid in t && t[sid] == st[sid] && Read(t, key, sid, now) == Read(st, key, sid, now))
  {
  }

  // ----- Whole runs -----

  datatype Action = Create(session: Session) | Get(sid: string) | Revoke(sid: string) | RevokeAll(userId: string)

  datatype Event = Event(act: Action, at: nat)

  function Step(st: Store, key: Key, e: Event): Store {
    match e.act
    case Create(s) => Persist(st, key, s.(lastSeen := e.at), e.at)
    case Get(sid) => AfterGet(st, key, sid, e.at)
    case Revoke(sid) => st - {sid}
    case RevokeAll(u) => AfterRevokeAll(st, key, u, e.at)
  }

  function Run(key: Key, history: seq<Event>): Store {
    if history == [] then map[] else Step(Run(key, history[..|history| - 1]), key, history[|history| - 1])
  }

  predicate InOrder(history: seq<Event>) {
    forall i, j | 0 <= i < j < |history| :: history[i].at <= history[j].at
  }

  // The record of an id since its session was created: the session, and the times of its creation and
  // of every later get.
  datatype Track = Track(session: Session, touches: seq<nat>)

  /** The record of an id: none before its creation and after a revocation of it or of its user. */
  function TrackOf(history: seq<Event>, sid: string): Option<Track> {
    if history == [] then None
    else
      var e := history[|history| - 1];
      var before := TrackOf(history[..|history| - 1], sid);
      match e.act
      case Create(s) => if s.sid == sid then Some(Track(s, [e.at])) else before
      case Get(k) => if k == sid && before.Some?
          then Some(Track(before.value.session, before.value.touches + [e.at])) else before
      case Revoke(k) => if k == sid then None else before
      case RevokeAll(u) => if before.Some? && before.value.session.userId == u then None else before
  }

  /** Each time follows the one before it by less than the session's life. */
  predicate GapsUnder(times: seq<nat>) {
    forall i | 0 <= i && i + 1 < |times| :: times[i + 1] < times[i] + 900
  }

  /** What the store holds for an id, from the last event on. */
  ghost predicate Agrees(st: Store, key: Key, track: Option<Track>, sid: string, now: nat) {
    && (track.Some? ==> track.value.touches != [] && track.value.session.sid == sid)
    && Lookup(st, sid, now) ==
      if track.Some? && GapsUnder(track.value.touches + [now])
      then
        var last := track.value.touches[|track.value.touches| - 1];
        Some(Sealed(key, track.value.session.(lastSeen := last)))
      else None
  }

  lemma GapsAppend(times: seq<nat>, t: nat)
    requires times != []
    ensures GapsUnder(times + [t]) <==> GapsUnder(times) && t < times[|times| - 1] + 900
  {
    var all := times + [t];
    assert forall i | 0 <= i < |times| :: all[i] == times[i];
    if GapsUnder(all) {
      assert all[|times| - 1 + 1] < all[|times| - 1] + 900;
      forall i | 0 <= i && i + 1 < |times| ensures times[i + 1] < times[i] + 900 {
        assert all[i + 1] < all[i] + 900;
      }
    }
  }

  lemma GapsOfOne(t: nat)
    ensures GapsUnder([t])
  {
  }

  lemma StepAgrees(st: Store, key: Key, history: seq<Event>, e: Event, sid: string, now: nat)
    requires e.at <= now
    requires Agrees(st, key, TrackOf(history, sid), sid, e.at) && Agrees(st, key, TrackOf(history, sid), sid, now)
    requires e.act.Get? ==> Agrees(st, key, TrackOf(history, e.act.sid), e.act.sid, e.at)
    ensures Agrees(Step(st, key, e), key, TrackOf(history + [e], sid), sid, now)
  {
    assert (history + [e])[..|history|] == history;
    var before := TrackOf(history, sid);
    var after := TrackOf(history + [e], sid);
    if before.Some? {
      GapsAppend(before.value.touches, e.at);
      GapsAppend(before.value.touches, now);
      GapsAppend(before.value.touches + [e.at], now);
    }
    GapsOfOne(e.at);
    GapsAppend([e.at], now);
  }

  lemma PrefixInOrder(history: seq<Event>)
    requires InOrder(history) && history != []
    ensures var n := |history| - 1;
      InOrder(history[..n]) && (history[..n] != [] ==> history[..n][n - 1].at <= history[n].at)
  {
  }

  /** The store agrees with the history about every id, at any time from the last event on. */
  lemma {:induction false} RunAgrees(key: Key, history: seq<Event>, sid: string, now: nat)
    requires InOrder(history) && (history != [] ==> history[|history| - 1].at <= now)
    ensures Agrees(Run(key, history), key, TrackOf(history, sid), sid, now)
    decreases |history|
  {
    if history != [] {
      var n := |history| - 1;
      var before, e := history[..n], history[n];
      assert history == before + [e];
      PrefixInOrder(history);
      RunAgrees(key, before, sid, e.at);
      RunAgrees(key, before, sid, now);
      if e.act.Get? { RunAgrees(key, before, e.act.sid, e.at); }
      StepAgrees(Run(key, before), key, before, e, sid, now);
    }
  }

  /** A get returns a session exactly when it was created, has not been revoked since, and every gap
      from its creation through all later gets to now is under fifteen minutes; the session is the
      created one with only its last-seen time changed. */
  lemma GetExact(key: Key, history: seq<Event>, sid: string, now: nat)
    requires InOrder(history) && (history != [] ==> history[|history| - 1].at <= now)
    ensures Read(Run(key, history), key, sid, now) ==
      var track := TrackOf(history, sid);
      if track.Some? && GapsUnder(track.value.touches + [now])
          then Some(track.value.session.(lastSeen := now)) else None
  {
    RunAgrees(key, history, sid, now);
  }
}
