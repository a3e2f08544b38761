/** Token minting: login, second factor, refresh and logout over the session and refresh stores. */
module Auth {
  import opened Prelude
  import Sessions
  import Refresh

  const MAX_ATTEMPTS := 10
  const RATE_WINDOW := 900
  const PRE_AUTH_TTL := 300

  // The columns of a user row that the handlers read; `lockUntil` is the end of a lock, if any.
  datatype User =
    User(id: string, isAdmin: bool, isActive: bool, lockUntil: Option<nat>, mfaEnabled: bool, mfaSecret: bool)

  // A pre-auth token that was issued: its subject, and when. Signatures are ideal: no other text passes for
  // a pre-auth token.
  datatype PreAuthToken = PreAuthToken(sub: string, at: nat)

  datatype AccessToken = AccessToken(sub: string, roles: seq<string>, sid: string, mfa: bool)

  datatype Reply =
    | Tokens(access: AccessToken, refreshToken: string)
    | PreAuth(token: string)
    | Done
    | Rejected(status: nat)

  // A counter in Redis, and the TOTP checks made while it lasted.
  datatype Rate = Rate(count: nat, expires: nat, checks: nat)

  // What a session was created with, and how: whether a TOTP check was passed, when, and when the password
  // behind it was accepted.
  datatype Origin =
    Origin(userId: string, roles: seq<string>, mfa: bool, codeChecked: bool, passwordAt: nat, createdAt: nat)

  // The stores, and what the run has done: tokens minted, session origins, for every session id that was
  // logged out the number of tokens minted before its first logout, the pre-auth tokens issued, and for
  // which users a password was accepted, and when.
  datatype State = State(
    sessions: Sessions.Store,
    refresh: Refresh.Store,
    rates: map<string, Rate>,
    minted: seq<AccessToken>,
    origins: map<string, Origin>,
    loggedOut: map<string, nat>,
    issued: map<string, PreAuthToken>,
    accepted: set<(string, nat)>)

  // Random ids and token texts, the clock, rows and the results of the cryptographic checks are parameters;
  // `verifies` says whether the present signing key verifies the token, `users` are the rows by primary key.
  datatype Act =
    | Login(user: Option<User>, passwordOk: bool, sid: string, tok: string, drawn: string)
    | MfaVerify(preAuth: string, verifies: bool, users: map<string, User>, codeOk: bool, sid: string, tok: string)
    | Renew(presented: string, tok: string)
    | Logout(header: Option<string>)

  const EMPTY := State(map[], map[], map[], [], map[], map[], map[], {})

  function RolesOf(u: User): seq<string> { [if u.isAdmin then "admin" else "customer"] }

  /** Attempts are counted under the first 32 characters of the pre-auth token. */
  function RateKey(preAuth: string): string { if |preAuth| <= 32 then preAuth else preAuth[..32] }

  function CountAttempt(s: State, k: string, now: nat): Rate {
    if k in s.rates && now < s.rates[k].expires then s.rates[k].(count := s.rates[k].count + 1)
    else Rate(1, now + RATE_WINDOW, 0)
  }

  /** What a new session is created with: the user's row, how it was reached, and the random texts. */
  datatype Opening = Opening(user: User, mfa: bool, checked: bool, passwordAt: nat, sid: string, tok: string)

  /** A new session with its first tokens. */
  function Open(s: State, key: Sessions.Key, o: Opening, now: nat): State {
    var u, roles := o.user, RolesOf(o.user);
    var session := Sessions.Session(o.sid, u.id, roles, o.mfa, now, now, None, None);
    s.(sessions := Sessions.Persist(s.sessions, key, session, now),
       refresh := Refresh.Issue(s.refresh, o.tok, u.id, o.sid, now),
       minted := s.minted + [AccessToken(u.id, roles, o.sid, o.mfa)],
       origins := s.origins[o.sid := Origin(u.id, roles, o.mfa, o.checked, o.passwordAt, now)])
  }

  function LoginReply(a: Act, now: nat): Reply
    requires a.Login?
  {
    if a.user.None? || !a.user.value.isActive || !a.passwordOk then Rejected(401)
    else if a.user.value.lockUntil.Some? && a.user.value.lockUntil.value > now then Rejected(423)
    else if a.user.value.mfaEnabled then PreAuth(a.drawn)
    else Tokens(AccessToken(a.user.value.id, RolesOf(a.user.value), a.sid, false), a.tok)
  }

  function AfterLogin(s: State, key: Sessions.Key, a: Act, now: nat): State
    requires a.Login?
  {
    if LoginReply(a, now).Rejected? then s
    else
      var passed := s.(accepted := s.accepted + {(a.user.value.id, now)});
      if LoginReply(a, now).PreAuth? then
        passed.(issued := s.issued[a.drawn := PreAuthToken(a.user.value.id, now)])
      else Open(passed, key, Opening(a.user.value, false, false, now, a.sid, a.tok), now)
  }

  /** The claims of a pre-auth token that was issued, still lasts and is verified. */
  function Claims(s: State, a: Act, now: nat): Option<PreAuthToken>
    requires a.MfaVerify?
  {
    if a.verifies && a.preAuth in s.issued && now < s.issued[a.preAuth].at + PRE_AUTH_TTL then Some(s.issued[a.preAuth])
    else None
  }

  /** The row of the subject of the claims. */
  function Row(s: State, a: Act, now: nat): Option<User>
    requires a.MfaVerify?
  {
    var claims := Claims(s, a, now);
    if claims.Some? && claims.value.sub in a.users
        then Some(a.users[claims.value.sub].(id := claims.value.sub)) else None
  }

  /** Whether the second step gets as far as checking the code. */
  predicate ReachesCheck(s: State, a: Act, now: nat)
    requires a.MfaVerify?
  {
    && CountAttempt(s, RateKey(a.preAuth), now).count <= MAX_ATTEMPTS
    && Row(s, a, now).Some? && Row(s, a, now).value.mfaEnabled && Row(s, a, now).value.mfaSecret
  }

  function MfaReply(s: State, a: Act, now: nat): Reply
    requires a.MfaVerify?
  {
    if CountAttempt(s, RateKey(a.preAuth), now).count > MAX_ATTEMPTS then Rejected(429)
    else if !ReachesCheck(s, a, now) || !a.codeOk then Rejected(401)
    else
      var u := Row(s, a, now).value;
      Tokens(AccessToken(u.id, RolesOf(u), a.sid, true), a.tok)
  }

  /** The attempt counted, and the check of the code if it is made. */
  function Counted(s: State, a: Act, now: nat): State
    requires a.MfaVerify?
  {
    var rate := CountAttempt(s, RateKey(a.preAuth), now);
    var checked := if ReachesCheck(s, a, now) then rate.(checks := rate.checks + 1) else rate;
    s.(rates := s.rates[RateKey(a.preAuth) := checked])
  }

  function AfterMfa(s: State, key: Sessions.Key, a: Act, now: nat): State
    requires a.MfaVerify?
  {
    var counted := Counted(s, a, now);
    if MfaReply(s, a, now).Tokens? then
      Open(counted, key, Opening(Row(s, a, now).value, true, a.codeOk, Claims(s, a, now).value.at, a.sid, a.tok), now)
    else counted
  }

  /** The session behind a refresh token that is accepted, if it can still be read. */
  function RenewedSession(s: State, key: Sessions.Key, presented: string, now: nat): Option<Sessions.Session> {
    if Refresh.Accepts(s.refresh, presented, now)
        then Sessions.Read(s.sessions, key, s.refresh[presented].sid, now) else None
  }

  function RenewReply(s: State, key: Sessions.Key, a: Act, now: nat): Reply
    requires a.Renew?
  {
    var session := RenewedSession(s, key, a.presented, now);
    if session.None? then Rejected(401)
    else
      var r := s.refresh[a.presented];
      Tokens(AccessToken(r.userId, session.value.roles, r.sid, session.value.mfa), a.tok)
  }

  /** The token is rotated even when the session turns out to be gone. */
  function AfterRenew(s: State, key: Sessions.Key, a: Act, now: nat): State
    requires a.Renew?
  {
    var rotated := s.(refresh := Refresh.Rotate(s.refresh, a.presented, a.tok, now));
    if !Refresh.Accepts(s.refresh, a.presented, now) then rotated
    else
      var sid := s.refresh[a.presented].sid;
      var touched := rotated.(sessions := Sessions.AfterGet(s.sessions, key, sid, now));
      var reply := RenewReply(s, key, a, now);
      if reply.Tokens? then touched.(minted := s.minted + [reply.access]) else touched
  }

  function AfterLogout(s: State, header: Option<string>): State {
    if header.None? || header.value == "" then s
    else
      s.(sessions := s.sessions - {header.value},
         loggedOut := if header.value in s.loggedOut then s.loggedOut else s.loggedOut[header.value := |s.minted|])
  }

  function Step(s: State, key: Sessions.Key, a: Act, now: nat): State {
    match a
    case Login(_, _, _, _, _) => AfterLogin(s, key, a, now)
    case MfaVerify(_, _, _, _, _, _) => AfterMfa(s, key, a, now)
    case Renew(_, _) => AfterRenew(s, key, a, now)
    case Logout(header) => AfterLogout(s, header)
  }

  /** The checks of a password login, apart from the second factor. */
  predicate PasswordPasses(user: Option<User>, passwordOk: bool, now: nat) {
    && passwordOk && user.Some? && user.value.isActive
    && !(user.value.lockUntil.Some? && user.value.lockUntil.value > now)
  }

  /** Ten attempts were already counted in a window that still lasts. */
  predicate TooMany(s: State, preAuth: string, now: nat) {
    var k := RateKey(preAuth);
    k in s.rates && now < s.rates[k].expires && s.rates[k].count >= 10
  }

  class AuthService {
    const key: Sessions.Key
    var state: State

    constructor (key: Sessions.Key)
      ensures this.key == key && state == EMPTY
    {
      this.key := key;
      state := EMPTY;
    }

    method OpenSession(o: Opening, now: nat) returns (r: Reply)
      modifies this
      ensures state == Open(old(state), key, o, now)
      ensures var roles := if o.user.isAdmin then ["admin"] else ["customer"];
        && r == Tokens(AccessToken(o.user.id, roles, o.sid, o.mfa), o.tok)
        && state.sessions == old(state).sessions[o.sid := Sessions.Entry(Sessions.Sealed(key,
             Sessions.Session(o.sid, o.user.id, roles, o.mfa, now, now, None, None)), now + 900)]
        && state.refresh == old(state).refresh[o.tok := Refresh.Record(o.user.id, o.sid, Refresh.Live, now + 604800)]
    {
      var roles := [if o.user.isAdmin then "admin" else "customer"];
      var session := Sessions.Session(o.sid, o.user.id, roles, o.mfa, now, now, None, None);
      state := state.(sessions := Sessions.Persist(state.sessions, key, session, now));
      var access := AccessToken(o.user.id, roles, o.sid, o.mfa);
      var origin := Origin(o.user.id, roles, o.mfa, o.checked, o.passwordAt, now);
      state := state.(minted := state.minted + [access], origins := state.origins[o.sid := origin]);
      state := state.(refresh := Refresh.Issue(state.refresh, o.tok, o.user.id, o.sid, now));
      r := Tokens(access, o.tok);
    }

    method LogIn(user: Option<User>, passwordOk: bool, sid: string, tok: string, drawn: string, now: nat)
        returns (r: Reply)
      modifies this
      ensures var a := Login(user, passwordOk, sid, tok, drawn);
        r == LoginReply(a, now) && state == Step(old(state), key, a, now)
      ensures r == Rejected(401) <==> user.None? || !user.value.isActive || !passwordOk
      ensures r == Rejected(423) <==>
        && user.Some? && user.value.isActive && passwordOk
        && user.value.lockUntil.Some? && user.value.lockUntil.value > now
      ensures r.PreAuth? <==> PasswordPasses(user, passwordOk, now) && user.value.mfaEnabled
      ensures r.PreAuth? ==>
        r.token == drawn && state.issued == old(state).issued[drawn := PreAuthToken(user.value.id, now)]
      ensures r.Tokens? <==> PasswordPasses(user, passwordOk, now) && !user.value.mfaEnabled
      ensures r.Tokens? ==>
        && r.refreshToken == tok
        && r.access == AccessToken(user.value.id, if user.value.isAdmin then ["admin"] else ["customer"], sid, false)
    {
      if user.None? || !user.value.isActive || !passwordOk { return Rejected(401); }
      if user.value.lockUntil.Some? && user.value.lockUntil.value > now { return Rejected(423); }
      state := state.(accepted := state.accepted + {(user.value.id, now)});
      if user.value.mfaEnabled {
        state := state.(issued := state.issued[drawn := PreAuthToken(user.value.id, now)]);
        return PreAuth(drawn);
      }
      r := OpenSession(Opening(user.value, false, false, now, sid, tok), now);
    }

    method VerifyMfa(preAuth: string, verifies: bool, users: map<string, User>, codeOk: bool, sid: string, tok: string,
                     now: nat)
        returns (r: Reply)
      modifies this
      ensures var a := MfaVerify(preAuth, verifies, users, codeOk, sid, tok);
        r == MfaReply(old(state), a, now) && state == Step(old(state), key, a, now)
      ensures r == Rejected(429) <==> TooMany(old(state), preAuth, now)
      ensures r.Tokens? <==>
        && !TooMany(old(state), preAuth, now)
        && verifies && preAuth in old(state).issued && now < old(state).issued[preAuth].at + 300
        && old(state).issued[preAuth].sub in users
        && users[old(state).issued[preAuth].sub].mfaEnabled && users[old(state).issued[preAuth].sub].mfaSecret
        && codeOk
      ensures r.Tokens? ==> var id := old(state).issued[preAuth].sub;
        && r.refreshToken == tok
        && r.access == AccessToken(id, if users[id].isAdmin then ["admin"] else ["customer"], sid, true)
      ensures !r.Tokens? && !TooMany(old(state), preAuth, now) ==> r == Rejected(401)
    {
      var rateKey := if |preAuth| <= 32 then preAuth else preAuth[..32];
      var rate := CountAttempt(state, rateKey, now);
      state := state.(rates := state.rates[rateKey := rate]);
      if rate.count > MAX_ATTEMPTS { return Rejected(429); }
      if !verifies || preAuth !in state.issued { return Rejected(401); }
      var claims := state.issued[preAuth];
      if now >= claims.at + PRE_AUTH_TTL { return Rejected(401); }
      if claims.sub !in users { return Rejected(401); }
      var user := users[claims.sub].(id := claims.sub);
      if !user.mfaEnabled || !user.mfaSecret { return Rejected(401); }
      state := state.(rates := state.rates[rateKey := rate.(checks := rate.checks + 1)]);
      if !codeOk { return Rejected(401); }
      r := OpenSession(Opening(user, true, codeOk, claims.at, sid, tok), now);
    }

    method RefreshTokens(presented: string, tok: string, now: nat) returns (r: Reply)
      modifies this
      ensures var a := Renew(presented, tok);
        r == RenewReply(old(state), key, a, now) && state == Step(old(state), key, a, now)
      ensures var st := old(state).refresh;
        && (r.Tokens? <==>
              && presented in st && now < st[presented].expires && !st[presented].state.Used?
              && Sessions.Read(old(state).sessions, key, st[presented].sid, now).Some?)
        && (r.Tokens? ==>
              var session := Sessions.Read(old(state).sessions, key, st[presented].sid, now).value;
              && r.refreshToken == tok
              && r.access == AccessToken(st[presented].userId, session.roles, st[presented].sid, session.mfa)
              && tok in state.refresh
              && state.refresh[tok]
                   == Refresh.Record(st[presented].userId, st[presented].sid, Refresh.Live, now + 604800))
      ensures !r.Tokens? ==> r == Rejected(401)
    {
      var accepted := Refresh.Accepts(state.refresh, presented, now);
      var sessions := state.sessions;
      var record := if accepted then Some(state.refresh[presented]) else None;
      state := state.(refresh := Refresh.Rotate(state.refresh, presented, tok, now));
      if record.None? { return Rejected(401); }
      var session := Sessions.Read(sessions, key, record.value.sid, now);
      state := state.(sessions := Sessions.AfterGet(sessions, key, record.value.sid, now));
      if session.None? { return Rejected(401); }
      var access := AccessToken(record.value.userId, session.value.roles, record.value.sid, session.value.mfa);
      state := state.(minted := state.minted + [access]);
      r := Tokens(access, tok);
    }

    method LogOut(header: Option<string>) returns (r: Reply)
      modifies this
      ensures r == Done && state == Step(old(state), key, Logout(header), 0)
    {
      if header.Some? && header.value != "" {
        var sid := header.value;
        state := state.(sessions := state.sessions - {sid});
        if sid !in state.loggedOut { state := state.(loggedOut := state.loggedOut[sid := |state.minted|]); }
      }
      r := Done;
    }
  }

  // ----- Whole runs -----

  datatype Event = Event(act: Act, at: nat)

  function Run(key: Sessions.Key, s: State, events: seq<Event>): State
    decreases |events|
  {
    if events == [] then s else Run(key, Step(s, key, events[0].act, events[0].at), events[1..])
  }

  /** Session ids and refresh tokens are drawn at random: never seen before, in any role. */
  predicate Fresh(s: State, a: Act) {
    && ((a.Login? || a.MfaVerify?) ==> a.sid !in s.origins && a.sid !in s.loggedOut)
    && (!a.Logout? ==> a.tok !in s.refresh)
    && (a.Login? ==> a.drawn !in s.issued)
  }

  predicate FreshRun(key: Sessions.Key, s: State, events: seq<Event>)
    decreases |events|
  {
    events != [] ==> Fresh(s, events[0].act) && FreshRun(key, Step(s, key, events[0].act, events[0].at), events[1..])
  }

  // ----- What the handlers leave alone -----

  lemma OpenEffects(s: State, key: Sessions.Key, o: Opening, now: nat)
    ensures var t := Open(s, key, o, now);
      && t.rates == s.rates && t.loggedOut == s.loggedOut && s.minted <= t.minted
      && t.accepted == s.accepted && t.issued == s.issued
      && t.origins
           == s.origins[o.sid := Origin(o.user.id, RolesOf(o.user), o.mfa, o.checked, o.passwordAt, now)]
  {
  }

  lemma PreAuthEffects(s: State, key: Sessions.Key, a: Act, now: nat)
    requires a.Login? && !LoginReply(a, now).Tokens?
    ensures var t := AfterLogin(s, key, a, now); var reply := LoginReply(a, now);
      t == if reply.Rejected? then s else s.(
        accepted := s.accepted + {(a.user.value.id, now)},
        issued := s.issued[a.drawn := PreAuthToken(a.user.value.id, now)])
  {
  }

  lemma LoginOpens(s: State, key: Sessions.Key, a: Act, now: nat)
    requires a.Login? && LoginReply(a, now).Tokens?
    ensures AfterLogin(s, key, a, now) ==
      var passed := s.(accepted := s.accepted + {(a.user.value.id, now)});
      Open(passed, key, Opening(a.user.value, false, false, now, a.sid, a.tok), now)
  {
  }

  lemma LoginEffects(s: State, key: Sessions.Key, a: Act, now: nat)
    requires a.Login?
    ensures var t := AfterLogin(s, key, a, now); var reply := LoginReply(a, now);
      && t.rates == s.rates && t.loggedOut == s.loggedOut && s.minted <= t.minted
      && t.accepted == (if reply.Rejected? then s.accepted else s.accepted + {(a.user.value.id, now)})
      && t.issued == (if reply.PreAuth? then s.issued[a.drawn := PreAuthToken(a.user.value.id, now)] else s.issued)
      && (if reply.Tokens? then
            t.origins == s.origins[a.sid := Origin(a.user.value.id, RolesOf(a.user.value), false, false, now, now)]
          else t.origins == s.origins)
  {
    if LoginReply(a, now).Tokens? {
      var passed := s.(accepted := s.accepted + {(a.user.value.id, now)});
      LoginOpens(s, key, a, now);
      OpenEffects(passed, key, Opening(a.user.value, false, false, now, a.sid, a.tok), now);
    } else {
      PreAuthEffects(s, key, a, now);
    }
  }

  lemma MfaEffects(s: State, key: Sessions.Key, a: Act, now: nat)
    requires a.MfaVerify?
    ensures var t := AfterMfa(s, key, a, now); var rate := CountAttempt(s, RateKey(a.preAuth), now);
      && t.loggedOut == s.loggedOut && s.minted <= t.minted && t.accepted == s.accepted && t.issued == s.issued
      && RateKey(a.preAuth) in t.rates && t.rates == s.rates[RateKey(a.preAuth) := t.rates[RateKey(a.preAuth)]]
      && t.rates[RateKey(a.preAuth)].count == rate.count && t.rates[RateKey(a.preAuth)].expires == rate.expires
      && (if MfaReply(s, a, now).Tokens? then
            && Row(s, a, now).Some? && Claims(s, a, now).Some?
            && var u := Row(s, a, now).value;
            t.origins == s.origins[a.sid := Origin(u.id, RolesOf(u), true, a.codeOk, Claims(s, a, now).value.at, now)]
          else t.origins == s.origins)
  {
  }

  lemma RenewEffects(s: State, key: Sessions.Key, a: Act, now: nat)
    requires a.Renew?
    ensures var t := AfterRenew(s, key, a, now);
      && t.rates == s.rates && t.loggedOut == s.loggedOut && s.minted <= t.minted
      && t.accepted == s.accepted && t.issued == s.issued && t.origins == s.origins
  {
  }

  lemma StepEffects(s: State, key: Sessions.Key, a: Act, now: nat)
    ensures s.minted <= Step(s, key, a, now).minted
    ensures !a.MfaVerify? ==> Step(s, key, a, now).rates == s.rates
    ensures !a.Login? ==> Step(s, key, a, now).accepted == s.accepted && Step(s, key, a, now).issued == s.issued
    ensures a.Renew? || a.Logout? ==> Step(s, key, a, now).origins == s.origins
    ensures !a.Logout? ==> Step(s, key, a, now).loggedOut == s.loggedOut
  {
    match a
    case Login(_, _, _, _, _) => LoginEffects(s, key, a, now);
    case MfaVerify(_, _, _, _, _, _) => MfaEffects(s, key, a, now);
    case Renew(_, _) => RenewEffects(s, key, a, now);
    case Logout(_) =>
  }

  lemma OriginStays(s: State, key: Sessions.Key, a: Act, now: nat, sid: string)
    requires Fresh(s, a) && sid in s.origins
    ensures sid in Step(s, key, a, now).origins && Step(s, key, a, now).origins[sid] == s.origins[sid]
  {
    StepEffects(s, key, a, now);
    match a
    case Login(_, _, _, _, _) => LoginEffects(s, key, a, now);
    case MfaVerify(_, _, _, _, _, _) => MfaEffects(s, key, a, now);
    case _ =>
  }

  /** A token carries what its session was created with. */
  ghost predicate Faithful(origins: map<string, Origin>, t: AccessToken) {
    t.sid in origins && var o := origins[t.sid]; t.sub == o.userId && t.roles == o.roles && t.mfa == o.mfa
  }

  /** The second factor is claimed by exactly the sessions whose code was checked. */
  ghost predicate MfaEarned(o: Origin) { o.mfa <==> o.codeChecked }

  ghost predicate StoredSession(s: State, key: Sessions.Key, sid: string)
    requires sid in s.sessions
  {
    var blob := s.sessions[sid].blob;
    && blob.Sealed? && blob.key == key && blob.session.sid == sid
    && sid !in s.loggedOut
    && Faithful(s.origins, AccessToken(blob.session.userId, blob.session.roles, sid, blob.session.mfa))
  }

  ghost predicate StoredToken(s: State, tok: string)
    requires tok in s.refresh
  {
    var r := s.refresh[tok];
    r.sid in s.origins && s.origins[r.sid].userId == r.userId
  }

  ghost predicate MintedBeforeLogout(s: State, i: nat)
    requires i < |s.minted|
  {
    s.minted[i].sid in s.loggedOut ==> i < s.loggedOut[s.minted[i].sid]
  }

  ghost predicate ChecksBounded(rates: map<string, Rate>) {
    forall k | k in rates :: rates[k].checks <= rates[k].count && rates[k].checks <= MAX_ATTEMPTS
  }

  ghost predicate Invariant(key: Sessions.Key, s: State) {
    && (forall sid | sid in s.sessions :: StoredSession(s, key, sid))
    && (forall tok | tok in s.refresh :: StoredToken(s, tok))
    && (forall i | 0 <= i < |s.minted| :: Faithful(s.origins, s.minted[i]) && MintedBeforeLogout(s, i))
    && (forall sid | sid in s.origins :: MfaEarned(s.origins[sid]))
    && (forall sid | sid in s.loggedOut :: s.loggedOut[sid] <= |s.minted|)
    && ChecksBounded(s.rates)
  }

  lemma OpenKeepsInvariant(s: State, key: Sessions.Key, o: Opening, now: nat)
    requires Invariant(key, s) && o.sid !in s.origins && o.sid !in s.loggedOut && (o.mfa <==> o.checked)
    ensures Invariant(key, Open(s, key, o, now))
  {
    var t := Open(s, key, o, now);
    forall k | k in t.sessions ensures StoredSession(t, key, k) {
      if k != o.sid { assert StoredSession(s, key, k); }
    }
    forall k | k in t.refresh ensures StoredToken(t, k) {
      if k != o.tok { assert StoredToken(s, k); }
    }
    forall i | 0 <= i < |t.minted| ensures Faithful(t.origins, t.minted[i]) && MintedBeforeLogout(t, i) {
      if i < |s.minted| { assert Faithful(s.origins, s.minted[i]) && MintedBeforeLogout(s, i); }
    }
  }

  lemma RotateKeepsInvariant(s: State, key: Sessions.Key, presented: string, tok: string, now: nat)
    requires Invariant(key, s)
    ensures Invariant(key, s.(refresh := Refresh.Rotate(s.refresh, presented, tok, now)))
  {
  }

  lemma GetKeepsInvariant(s: State, key: Sessions.Key, sid: string, now: nat)
    requires Invariant(key, s)
    ensures Invariant(key, s.(sessions := Sessions.AfterGet(s.sessions, key, sid, now)))
  {
  }

  lemma MintKeepsInvariant(s: State, key: Sessions.Key, access: AccessToken)
    requires Invariant(key, s) && Faithful(s.origins, access) && access.sid !in s.loggedOut
    ensures Invariant(key, s.(minted := s.minted + [access]))
  {
  }

  lemma RenewKeepsInvariant(s: State, key: Sessions.Key, a: Act, now: nat)
    requires Invariant(key, s) && a.Renew?
    ensures Invariant(key, AfterRenew(s, key, a, now))
  {
    RotateKeepsInvariant(s, key, a.presented, a.tok, now);
    if Refresh.Accepts(s.refresh, a.presented, now) {
      var sid := s.refresh[a.presented].sid;
      var rotated := s.(refresh := Refresh.Rotate(s.refresh, a.presented, a.tok, now));
      GetKeepsInvariant(rotated, key, sid, now);
      var reply := RenewReply(s, key, a, now);
      if reply.Tokens? {
        assert StoredToken(s, a.presented) && StoredSession(s, key, sid);
        MintKeepsInvariant(rotated.(sessions := Sessions.AfterGet(s.sessions, key, sid, now)), key, reply.access);
      }
    }
  }

  lemma LogoutKeepsInvariant(s: State, key: Sessions.Key, header: Option<string>)
    requires Invariant(key, s)
    ensures Invariant(key, AfterLogout(s, header))
  {
  }

  lemma RatesKeepInvariant(s: State, key: Sessions.Key, rates: map<string, Rate>)
    requires Invariant(key, s)
    requires ChecksBounded(rates)
    ensures Invariant(key, s.(rates := rates))
  {
  }

  lemma MfaKeepsInvariant(s: State, key: Sessions.Key, a: Act, now: nat)
    requires Invariant(key, s) && Fresh(s, a) && a.MfaVerify?
    ensures Invariant(key, AfterMfa(s, key, a, now))
  {
    var counted := Counted(s, a, now);
    RatesKeepInvariant(s, key, counted.rates);
    if MfaReply(s, a, now).Tokens? {
      var o := Opening(Row(s, a, now).value, true, true, Claims(s, a, now).value.at, a.sid, a.tok);
      OpenKeepsInvariant(counted, key, o, now);
    }
  }

  lemma LoginKeepsInvariant(s: State, key: Sessions.Key, a: Act, now: nat)
    requires Invariant(key, s) && Fresh(s, a) && a.Login?
    ensures Invariant(key, AfterLogin(s, key, a, now))
  {
    if !LoginReply(a, now).Rejected? {
      var u := a.user.value;
      var issued := if LoginReply(a, now).PreAuth? then s.issued[a.drawn := PreAuthToken(u.id, now)] else s.issued;
      var passed := s.(accepted := s.accepted + {(u.id, now)}, issued := issued);
      PasswordsKeepInvariant(s, key, passed);
      if LoginReply(a, now).Tokens? {
        OpenKeepsInvariant(passed, key, Opening(u, false, false, now, a.sid, a.tok), now);
      }
    }
  }

  lemma PasswordsKeepInvariant(s: State, key: Sessions.Key, t: State)
    requires Invariant(key, s) && t == s.(accepted := t.accepted, issued := t.issued)
    ensures Invariant(key, t)
  {
  }

  lemma StepKeepsInvariant(s: State, key: Sessions.Key, a: Act, now: nat)
    requires Invariant(key, s) && Fresh(s, a)
    ensures Invariant(key, Step(s, key, a, now))
  {
    match a
    case Login(_, _, _, _, _) => LoginKeepsInvariant(s, key, a, now);
    case MfaVerify(_, _, _, _, _, _) => MfaKeepsInvariant(s, key, a, now);
    case Renew(_, _) => RenewKeepsInvariant(s, key, a, now);
    case Logout(header) => LogoutKeepsInvariant(s, key, header);
  }

  lemma {:induction false} RunKeepsInvariant(key: Sessions.Key, s: State, events: seq<Event>)
    requires Invariant(key, s) && FreshRun(key, s, events)
    ensures Invariant(key, Run(key, s, events))
    decreases |events|
  {
    if events != [] {
      StepKeepsInvariant(s, key, events[0].act, events[0].at);
      RunKeepsInvariant(key, Step(s, key, events[0].act, events[0].at), events[1..]);
    }
  }

  /** In every run: each access token carries the user, roles and second-factor flag its session was
      created with; the flag is set only where a code was checked; no token is minted for a session id
      after its first logout; and no rate key sees more than ten code checks while its counter lasts. */
  lemma TokensAreFaithful(key: Sessions.Key, events: seq<Event>)
    requires FreshRun(key, EMPTY, events)
    ensures var s := Run(key, EMPTY, events);
      && (forall i | 0 <= i < |s.minted| :: Faithful(s.origins, s.minted[i]) && MintedBeforeLogout(s, i))
      && (forall i | 0 <= i < |s.minted| :: s.minted[i].mfa ==> s.origins[s.minted[i].sid].codeChecked)
      && (forall k | k in s.rates :: s.rates[k].checks <= 10)
  {
    RunKeepsInvariant(key, EMPTY, events);
    var s := Run(key, EMPTY, events);
    forall i | 0 <= i < |s.minted| ensures Faithful(s.origins, s.minted[i]) && MfaEarned(s.origins[s.minted[i].sid]) {
      assert s.minted[i].sid in s.origins;
    }
  }

  /** Origins never change, so "created with" means the same throughout the run. */
  lemma {:induction false} OriginsAreFixed(key: Sessions.Key, s: State, events: seq<Event>, sid: string)
    requires FreshRun(key, s, events) && sid in s.origins
    ensures sid in Run(key, s, events).origins && Run(key, s, events).origins[sid] == s.origins[sid]
    ensures s.minted <= Run(key, s, events).minted
    decreases |events|
  {
    if events != [] {
      OriginStays(s, key, events[0].act, events[0].at, sid);
      StepEffects(s, key, events[0].act, events[0].at);
      OriginsAreFixed(key, Step(s, key, events[0].act, events[0].at), events[1..], sid);
    }
  }

  /** From any reachable state: once a session id is logged out, no later token carries it. */
  lemma NoTokenAfterLogout(key: Sessions.Key, s: State, sid: string, events: seq<Event>, i: nat)
    requires Invariant(key, s) && sid != "" && FreshRun(key, AfterLogout(s, Some(sid)), events)
    requires var t := Run(key, AfterLogout(s, Some(sid)), events); |s.minted| <= i < |t.minted|
    ensures Run(key, AfterLogout(s, Some(sid)), events).minted[i].sid != sid
  {
    var u := AfterLogout(s, Some(sid));
    LogoutKeepsInvariant(s, key, Some(sid));
    RunKeepsInvariant(key, u, events);
    LoggedOutStays(key, u, events, sid);
    assert MintedBeforeLogout(Run(key, u, events), i);
  }

  lemma LogoutStays(s: State, key: Sessions.Key, a: Act, now: nat, sid: string)
    requires sid in s.loggedOut
    ensures var t := Step(s, key, a, now); sid in t.loggedOut && t.loggedOut[sid] == s.loggedOut[sid]
  {
    StepEffects(s, key, a, now);
  }

  lemma {:induction false} LoggedOutStays(key: Sessions.Key, s: State, events: seq<Event>, sid: string)
    requires FreshRun(key, s, events) && sid in s.loggedOut
    ensures var t := Run(key, s, events); sid in t.loggedOut && t.loggedOut[sid] == s.loggedOut[sid]
    decreases |events|
  {
    if events != [] {
      LogoutStays(s, key, events[0].act, events[0].at, sid);
      LoggedOutStays(key, Step(s, key, events[0].act, events[0].at), events[1..], sid);
    }
  }

  lemma {:induction false} RunLast(key: Sessions.Key, s: State, events: seq<Event>)
    requires events != []
    ensures var n := |events| - 1;
      Run(key, s, events) == Step(Run(key, s, events[..n]), key, events[n].act, events[n].at)
    decreases |events|
  {
    var t := Step(s, key, events[0].act, events[0].at);
    var n := |events| - 1;
    if n == 0 {
      assert events[1..] == [];
    } else {
      RunLast(key, t, events[1..]);
      assert events[1..][..n - 1] == events[..n][1..];
    }
  }

  // ----- No token without a password -----

  /** A login whose password is accepted, for a user. */
  predicate AcceptsPassword(e: Event, id: string) {
    e.act.Login? && PasswordPasses(e.act.user, e.act.passwordOk, e.at) && e.act.user.value.id == id
  }

  /** Pre-auth tokens and sessions go back to an accepted password of their user, a session within the five
      minutes that a pre-auth token lasts. */
  ghost predicate Backed(s: State) {
    && (forall p | p in s.issued :: (s.issued[p].sub, s.issued[p].at) in s.accepted)
    && (forall sid | sid in s.origins ::
          && (s.origins[sid].userId, s.origins[sid].passwordAt) in s.accepted
          && s.origins[sid].createdAt < s.origins[sid].passwordAt + 300)
  }

  lemma StepKeepsBacked(s: State, key: Sessions.Key, a: Act, now: nat)
    requires Backed(s)
    ensures Backed(Step(s, key, a, now))
  {
    StepEffects(s, key, a, now);
    match a
    case Login(_, _, _, _, _) => LoginEffects(s, key, a, now);
    case MfaVerify(_, _, _, _, _, _) => MfaEffects(s, key, a, now);
    case _ =>
  }

  lemma StepAccepts(s: State, key: Sessions.Key, e: Event, id: string, time: nat)
    ensures (id, time) in Step(s, key, e.act, e.at).accepted <==>
      (id, time) in s.accepted || (AcceptsPassword(e, id) && e.at == time)
  {
    StepEffects(s, key, e.act, e.at);
    if e.act.Login? { LoginEffects(s, key, e.act, e.at); }
  }

  lemma {:induction false} RunAccepts(key: Sessions.Key, events: seq<Event>, id: string, time: nat)
    ensures var s := Run(key, EMPTY, events);
      && Backed(s)
      && ((id, time) in s.accepted <==>
            exists j :: 0 <= j < |events| && AcceptsPassword(events[j], id) && events[j].at == time)
    decreases |events|
  {
    if events != [] {
      var n := |events| - 1;
      var before := events[..n];
      RunAccepts(key, before, id, time);
      RunLast(key, EMPTY, events);
      StepKeepsBacked(Run(key, EMPTY, before), key, events[n].act, events[n].at);
      StepAccepts(Run(key, EMPTY, before), key, events[n], id, time);
      assert forall j | 0 <= j < n :: before[j] == events[j];
    }
  }

  /** Every token that was minted, with or without the second factor, at login or by a refresh, is for a user
      whose password was accepted in this run, less than five minutes before its session was created. */
  lemma PasswordCameFirst(key: Sessions.Key, events: seq<Event>, i: nat)
    requires FreshRun(key, EMPTY, events) && i < |Run(key, EMPTY, events).minted|
    ensures var s := Run(key, EMPTY, events); var t := s.minted[i];
      && t.sid in s.origins
      && exists j :: 0 <= j < |events| && AcceptsPassword(events[j], t.sub)
           && s.origins[t.sid].createdAt < events[j].at + 300
  {
    var s := Run(key, EMPTY, events);
    TokensAreFaithful(key, events);
    assert Faithful(s.origins, s.minted[i]);
    var o := s.origins[s.minted[i].sid];
    RunAccepts(key, events, o.userId, o.passwordAt);
    assert (o.userId, o.passwordAt) in s.accepted;
    var j :| 0 <= j < |events| && AcceptsPassword(events[j], o.userId) && events[j].at == o.passwordAt;
  }

  // ----- What a session can be opened by -----

  /** A login that opens a session: the password passes, and the user has no second factor. */
  predicate OpenedByPassword(e: Event, sid: string, o: Origin) {
    && AcceptsPassword(e, o.userId) && e.act.sid == sid && !e.act.user.value.mfaEnabled
    && o.roles == (if e.act.user.value.isAdmin then ["admin"] else ["customer"])
    && !o.mfa && o.createdAt == o.passwordAt == e.at
  }

  /** A second step that opens one: the code passes for the row of a user that has a second factor. */
  predicate OpenedByCode(e: Event, sid: string, o: Origin) {
    && e.act.MfaVerify? && e.act.sid == sid && e.act.verifies && e.act.codeOk
    && o.userId in e.act.users && e.act.users[o.userId].mfaEnabled && e.act.users[o.userId].mfaSecret
    && o.roles == (if e.act.users[o.userId].isAdmin then ["admin"] else ["customer"])
    && o.mfa && o.createdAt == e.at
  }

  lemma StepOpens(s: State, key: Sessions.Key, e: Event, sid: string)
    requires sid in Step(s, key, e.act, e.at).origins
    ensures var o := Step(s, key, e.act, e.at).origins[sid];
      (sid in s.origins && s.origins[sid] == o) || OpenedByPassword(e, sid, o) || OpenedByCode(e, sid, o)
  {
    StepEffects(s, key, e.act, e.at);
    match e.act
    case Login(_, _, _, _, _) => LoginEffects(s, key, e.act, e.at);
    case MfaVerify(_, _, _, _, _, _) => MfaEffects(s, key, e.act, e.at);
    case _ =>
  }

  lemma {:induction false} RunOpens(key: Sessions.Key, events: seq<Event>, sid: string)
    requires sid in Run(key, EMPTY, events).origins
    ensures var o := Run(key, EMPTY, events).origins[sid];
      exists j :: 0 <= j < |events| && (OpenedByPassword(events[j], sid, o) || OpenedByCode(events[j], sid, o))
    decreases |events|
  {
    if events != [] {
      var n := |events| - 1;
      var before := events[..n];
      RunLast(key, EMPTY, events);
      var o := Run(key, EMPTY, events).origins[sid];
      StepOpens(Run(key, EMPTY, before), key, events[n], sid);
      if !(OpenedByPassword(events[n], sid, o) || OpenedByCode(events[n], sid, o)) {
        RunOpens(key, before, sid);
        var j :| 0 <= j < n && (OpenedByPassword(before[j], sid, o) || OpenedByCode(before[j], sid, o));
        assert events[j] == before[j];
      }
    }
  }

  /** What stands behind a token, at login or after any number of refreshes: an event of the run that opened
      its session, with its user, its flag and exactly the role of that user's row: "admin" for an
      administrator and "customer" for anyone else. A user with a second factor gets none without a code. */
  lemma TokensAreEarned(key: Sessions.Key, events: seq<Event>, i: nat)
    requires FreshRun(key, EMPTY, events) && i < |Run(key, EMPTY, events).minted|
    ensures var t := Run(key, EMPTY, events).minted[i];
      exists j :: 0 <= j < |events| && Earns(events[j], t)
  {
    var s := Run(key, EMPTY, events);
    TokensAreFaithful(key, events);
    assert Faithful(s.origins, s.minted[i]);
    var t := s.minted[i];
    RunOpens(key, events, t.sid);
    var o := s.origins[t.sid];
    var j :| 0 <= j < |events| && (OpenedByPassword(events[j], t.sid, o) || OpenedByCode(events[j], t.sid, o));
    assert Earns(events[j], t);
  }

  /** The event gives a token like this one, or opened the session that a refresh gave it for. */
  predicate Earns(e: Event, t: AccessToken) {
    if t.mfa then
      && e.act.MfaVerify? && e.act.sid == t.sid && e.act.verifies && e.act.codeOk && t.sub in e.act.users
      && e.act.users[t.sub].mfaEnabled && e.act.users[t.sub].mfaSecret
      && t.roles == if e.act.users[t.sub].isAdmin then ["admin"] else ["customer"]
    else
      && e.act.Login? && e.act.sid == t.sid && e.act.passwordOk && e.act.user.Some?
      && e.act.user.value.id == t.sub && e.act.user.value.isActive && !e.act.user.value.mfaEnabled
      && !(e.act.user.value.lockUntil.Some? && e.act.user.value.lockUntil.value > e.at)
      && t.roles == if e.act.user.value.isAdmin then ["admin"] else ["customer"]
  }

  // ----- The throttle of the second factor -----

  // What attempts are counted under: the first characters of the token, or the token itself.
  type Naming = string -> string

  function WholeToken(preAuth: string): string { preAuth }

  predicate Attempts(name: Naming, e: Event, k: string) { e.act.MfaVerify? && name(e.act.preAuth) == k }

  /** The attempt that opened the current window of a key: the first attempt, or the first one that comes
      a full window after the opening before it. */
  function WindowStart(name: Naming, events: seq<Event>, k: string): (r: Option<nat>)
    ensures r.Some? ==> r.value < |events| && Attempts(name, events[r.value], k)
  {
    if events == [] then None
    else
      var n := |events| - 1;
      var before := WindowStart(name, events[..n], k);
      if Attempts(name, events[n], k) && (before.None? || events[before.value].at + 900 <= events[n].at)
      then Some(n)
      else before
  }

  function AttemptsSince(name: Naming, events: seq<Event>, k: string, i: nat): nat
    requires i <= |events|
  {
    if i == |events| then 0
    else
      AttemptsSince(name, events[..|events| - 1], k, i) + if Attempts(name, events[|events| - 1], k) then 1 else 0
  }

  /** Ten or more attempts under the token's name since the window was opened, which still lasts. */
  predicate Throttled(name: Naming, events: seq<Event>, preAuth: string, now: nat) {
    var start := WindowStart(name, events, name(preAuth));
    && start.Some? && now < events[start.value].at + 900
    && AttemptsSince(name, events, name(preAuth), start.value) >= 10
  }

  lemma StepCounts(s: State, key: Sessions.Key, e: Event, k: string)
    ensures var rates := Step(s, key, e.act, e.at).rates;
      if Attempts(RateKey, e, k) then
        && k in rates && var rate := CountAttempt(s, k, e.at);
        && rates[k].count == rate.count && rates[k].expires == rate.expires
      else (k in rates <==> k in s.rates) && (k in rates ==> rates[k] == s.rates[k])
  {
    StepEffects(s, key, e.act, e.at);
    if e.act.MfaVerify? { MfaEffects(s, key, e.act, e.at); }
  }

  /** A counter is the number of attempts since its window was opened, and lasts for the window. */
  lemma {:induction false} CountersAgree(key: Sessions.Key, events: seq<Event>, k: string)
    ensures var rates, start := Run(key, EMPTY, events).rates, WindowStart(RateKey, events, k);
      && (k in rates <==> start.Some?)
      && (start.Some? ==>
            && rates[k].count == AttemptsSince(RateKey, events, k, start.value)
            && rates[k].expires == events[start.value].at + 900)
    decreases |events|
  {
    if events != [] {
      var n := |events| - 1;
      CountersAgree(key, events[..n], k);
      RunLast(key, EMPTY, events);
      StepCounts(Run(key, EMPTY, events[..n]), key, events[n], k);
    }
  }

  /** After any run, an attempt is turned away for its number exactly when ten or more attempts under the
      first 32 characters of its token were made since the window was opened, less than fifteen minutes ago. */
  lemma ThrottledExactly(key: Sessions.Key, events: seq<Event>, a: Act, now: nat)
    requires a.MfaVerify?
    ensures MfaReply(Run(key, EMPTY, events), a, now) == Rejected(429) <==> Throttled(RateKey, events, a.preAuth, now)
  {
    CountersAgree(key, events, RateKey(a.preAuth));
  }

  // ----- Counting per token -----

  /** Two namings that put the same attempts of a run with a token throttle it alike. */
  lemma {:induction false} SameNames(name: Naming, other: Naming, events: seq<Event>, preAuth: string)
    requires forall i | 0 <= i < |events| ::
      Attempts(name, events[i], name(preAuth)) <==> Attempts(other, events[i], other(preAuth))
    ensures WindowStart(name, events, name(preAuth)) == WindowStart(other, events, other(preAuth))
    ensures forall i: nat | i <= |events| ::
      AttemptsSince(name, events, name(preAuth), i) == AttemptsSince(other, events, other(preAuth), i)
    decreases |events|
  {
    if events != [] {
      var before := events[..|events| - 1];
      assert forall i | 0 <= i < |before| :: before[i] == events[i];
      SameNames(name, other, before, preAuth);
    }
  }

  /** A number of attempts with one token, all at one moment. */
  function Tries(preAuth: string, n: nat): seq<Event> {
    if n == 0 then [] else Tries(preAuth, n - 1) + [Event(MfaVerify(preAuth, false, map[], false, "", ""), 0)]
  }

  lemma {:induction false} TriesCount(name: Naming, preAuth: string, n: nat, k: string)
    ensures var events, same := Tries(preAuth, n), name(preAuth) == k;
      && |events| == n
      && (forall i | 0 <= i < n ::
            events[i].at == 0 && events[i].act.MfaVerify? && events[i].act.preAuth == preAuth)
      && WindowStart(name, events, k) == (if same && n > 0 then Some(0) else None)
      && AttemptsSince(name, events, k, 0) == (if same then n else 0)
  {
    if n > 0 {
      TriesCount(name, preAuth, n - 1, k);
      assert Tries(preAuth, n)[..n - 1] == Tries(preAuth, n - 1);
    }
  }

  /** Attempts with one token that turn another one away: any two tokens that share their first 32
      characters, and ten attempts on the first. */
  lemma OthersAreTurnedAway(first: string, second: string)
    requires first != second && RateKey(first) == RateKey(second)
    ensures Throttled(RateKey, Tries(first, 10), second, 0)
    ensures !Throttled(WholeToken, Tries(first, 10), second, 0)
  {
    TriesCount(RateKey, first, 10, RateKey(second));
    TriesCount(WholeToken, first, 10, WholeToken(second));
  }

  /** Tokens begin with their encoded header, which is longer than 32 characters and one and the same for
      all tokens under one signing key: all of them share one counter. Any two tokens under one header are
      enough to tell counting by those characters from counting per token. */
  lemma OneHeaderOneCounter(header: string, x: string, y: string)
    requires |header| >= 32 && x != y
    ensures RateKey(header + x) == RateKey(header + y)
    ensures Throttled(RateKey, Tries(header + x, 10), header + y, 0)
    ensures !Throttled(WholeToken, Tries(header + x, 10), header + y, 0)
    ensures !Distinguished(iset{header + x, header + y})
  {
    assert (header + x)[..32] == header[..32] == (header + y)[..32];
    assert (header + x)[|header|..] == x && (header + y)[|header|..] == y;
    OthersAreTurnedAway(header + x, header + y);
  }

  /** Two tokens are counted together exactly when they are equal or agree in 32 first characters. */
  lemma CountedTogetherExactly(x: string, y: string)
    ensures RateKey(x) == RateKey(y) <==> x == y || (|x| >= 32 && |y| >= 32 && x[..32] == y[..32])
  {
  }

  ghost predicate Uses(events: seq<Event>, tokens: iset<string>) {
    forall i | 0 <= i < |events| && events[i].act.MfaVerify? :: events[i].act.preAuth in tokens
  }

  /** No two of the tokens share their first 32 characters. */
  ghost predicate Distinguished(tokens: iset<string>) {
    forall x, y | x in tokens && y in tokens && RateKey(x) == RateKey(y) :: x == y
  }

  /** For the tokens in use, counting by the first 32 characters is counting per token, in every run and at
      every time, if and only if no two of them share those characters. */
  lemma PerTokenExactly(tokens: iset<string>)
    ensures Distinguished(tokens) <==>
      forall events, preAuth, now | Uses(events, tokens) && preAuth in tokens ::
        Throttled(RateKey, events, preAuth, now) <==> Throttled(WholeToken, events, preAuth, now)
  {
    if Distinguished(tokens) {
      forall events, preAuth, now | Uses(events, tokens) && preAuth in tokens
        ensures Throttled(RateKey, events, preAuth, now) <==> Throttled(WholeToken, events, preAuth, now)
      {
        SameNames(RateKey, WholeToken, events, preAuth);
      }
    } else {
      var x, y :| x in tokens && y in tokens && RateKey(x) == RateKey(y) && x != y;
      OthersAreTurnedAway(x, y);
      TriesCount(RateKey, x, 10, "");
    }
  }
}
