/** Rotating refresh tokens with reuse detection. */
module Refresh {
  import opened Prelude

  const REFRESH_TTL := 604800

  datatype TokenState = Live | Used | Compromised

  datatype Record = Record(userId: string, sid: string, state: TokenState, expires: nat)

  type Store = map<string, Record>

  datatype Rotation = Rotation(token: string, userId: string, sid: string)

  predicate Present(st: Store, tok: string, now: nat) { tok in st && now < st[tok].expires }

  function Issue(st: Store, tok: string, userId: string, sid: string, now: nat): Store {
    st[tok := Record(userId, sid, Live, now + REFRESH_TTL)]
  }

  /** A presented token succeeds unless it is absent or its state is exactly `used`. */
  predicate Accepts(st: Store, presented: string, now: nat) {
    Present(st, presented, now) && st[presented].state != Used
  }

  function Rotate(st: Store, presented: string, drawn: string, now: nat): Store {
    if !Present(st, presented, now) then st
    else
      var r := st[presented];
      if r.state == Used then st[presented := r.(state := Compromised, expires := now + REFRESH_TTL)]
      else Issue(st[presented := r.(state := Used, expires := now + REFRESH_TTL)], drawn, r.userId, r.sid, now)
  }

  class RefreshTokenStore {
    var redis: Store

    constructor ()
      ensures redis == map[]
    {
      redis := map[];
    }

    /** The random token and the clock are parameters. */
    method IssueToken(userId: string, sid: string, tok: string, now: nat)
      modifies this
      ensures redis == Issue(old(redis), tok, userId, sid, now)
      ensures redis == old(redis)[tok := Record(userId, sid, Live, now + 604800)]
    {
      redis := redis[tok := Record(userId, sid, Live, now + REFRESH_TTL)];
    }

    method RotateToken(presented: string, drawn: string, now: nat) returns (r: Option<Rotation>)
      modifies this
      ensures redis == Rotate(old(redis), presented, drawn, now)
      ensures r.Some? <==> Accepts(old(redis), presented, now)
      ensures if presented !in old(redis) || old(redis)[presented].expires <= now then r == None && redis == old(redis)
        else var v := old(redis)[presented];
          if v.state == Used then
            r == None && redis == old(redis)[presented := Record(v.userId, v.sid, Compromised, now + 604800)]
          else
            && r == Some(Rotation(drawn, v.userId, v.sid))
            && redis == old(redis)[presented := Record(v.userId, v.sid, Used, now + 604800)]
                 [drawn := Record(v.userId, v.sid, Live, now + 604800)]
    {
      if !(presented in redis && now < redis[presented].expires) { return None; }
      var v := redis[presented];
      if v.state == Used {
        redis := redis[presented := Record(v.userId, v.sid, Compromised, now + REFRESH_TTL)];
        return None;
      }
      redis := redis[presented := Record(v.userId, v.sid, Used, now + REFRESH_TTL)];
      IssueToken(v.userId, v.sid, drawn, now);
      r := Some(Rotation(drawn, v.userId, v.sid));
    }
  }

  // ----- Whole runs -----

  datatype Action = Login(tok: string, userId: string, sid: string) | Shown(tok: string, drawn: string)

  datatype Event = Event(act: Action, at: nat)

  function Step(st: Store, e: Event): Store {
    match e.act
    case Login(tok, user, sid) => Issue(st, tok, user, sid, e.at)
    case Shown(tok, drawn) => Rotate(st, tok, drawn, e.at)
  }

  function Run(history: seq<Event>): Store {
    if history == [] then map[] else Step(Run(history[..|history| - 1]), history[|history| - 1])
  }

  /** Every token is drawn once: it is not in the store when it is handed out. */
  predicate FreshTokens(history: seq<Event>) {
    history != [] ==>
      var before := Run(history[..|history| - 1]);
      var act := history[|history| - 1].act;
      && FreshTokens(history[..|history| - 1])
      && (act.Login? ==> act.tok !in before)
      && (act.Shown? ==> act.drawn !in before)
  }

  /** How often a token was presented while its record was unexpired. */
  function Presentations(history: seq<Event>, tok: string): nat {
    if history == [] then 0
    else
      var before := history[..|history| - 1];
      var e := history[|history| - 1];
      Presentations(before, tok)
        + if e.act.Shown? && e.act.tok == tok && Present(Run(before), tok, e.at) then 1 else 0
  }

  /** The tokens a token was rotated into, in order. */
  function Successors(history: seq<Event>, tok: string): seq<string> {
    if history == [] then []
    else
      var before := history[..|history| - 1];
      var e := history[|history| - 1];
      Successors(before, tok)
        + if e.act.Shown? && e.act.tok == tok && Accepts(Run(before), tok, e.at) then [e.act.drawn] else []
  }

  function StateAfter(k: nat): TokenState {
    if k == 0 then Live else if k % 2 == 1 then Used else Compromised
  }

  /** A token's state and its successors are determined by how often it was presented. */
  lemma {:induction false} StateByPresentations(history: seq<Event>, tok: string)
    requires FreshTokens(history)
    ensures var st := Run(history); var k := Presentations(history, tok);
      && (tok in st ==> st[tok].state == StateAfter(k))
      && (tok !in st ==> k == 0)
      && |Successors(history, tok)| == (k + 1) / 2
  {
    if history != [] {
      StateByPresentations(history[..|history| - 1], tok);
    }
  }

  /** The law of reuse: the k-th presentation of an unexpired token succeeds exactly when k is odd. A used
      token is refused once; the record then says `compromised`, which is not refused. */
  lemma AcceptsOddPresentations(history: seq<Event>, tok: string, now: nat)
    requires FreshTokens(history) && Present(Run(history), tok, now)
    ensures var k := Presentations(history, tok) + 1;
      Accepts(Run(history), tok, now) <==> k % 2 == 1
  {
    StateByPresentations(history, tok);
  }

  /** One-time use holds of exactly the tokens presented at most twice. */
  lemma OneSuccessorExactly(history: seq<Event>, tok: string)
    requires FreshTokens(history)
    ensures |Successors(history, tok)| <= 1 <==> Presentations(history, tok) <= 2
  {
    StateByPresentations(history, tok);
  }

  /** A token that is rotated into two different tokens: presented three times within its life. */
  lemma ThirdPresentationSucceeds()
    ensures var history := [
        Event(Login("a", "u", "s"), 0), Event(Shown("a", "b"), 1),
        Event(Shown("a", "c"), 2), Event(Shown("a", "d"), 3)];
      FreshTokens(history) && Successors(history, "a") == ["b", "d"]
  {
    var h0: seq<Event> := [];
    var h1 := h0 + [Event(Login("a", "u", "s"), 0)];
    var h2 := h1 + [Event(Shown("a", "b"), 1)];
    var h3 := h2 + [Event(Shown("a", "c"), 2)];
    var h4 := h3 + [Event(Shown("a", "d"), 3)];
    Append(h0, Event(Login("a", "u", "s"), 0), "a");
    Append(h1, Event(Shown("a", "b"), 1), "a");
    Append(h2, Event(Shown("a", "c"), 2), "a");
    Append(h3, Event(Shown("a", "d"), 3), "a");
    assert h4 == [Event(Login("a", "u", "s"), 0), Event(Shown("a", "b"), 1), Event(Shown("a", "c"), 2),
        Event(Shown("a", "d"), 3)];
    assert Run(h0) == map[] && FreshTokens(h0) && Successors(h0, "a") == [];
  }

  lemma Append(history: seq<Event>, e: Event, tok: string)
    ensures Run(history + [e]) == Step(Run(history), e)
    ensures FreshTokens(history + [e]) <==> (
      && FreshTokens(history)
      && (e.act.Login? ==> e.act.tok !in Run(history))
      && (e.act.Shown? ==> e.act.drawn !in Run(history)))
    ensures Successors(history + [e], tok) == Successors(history, tok)
      + if e.act.Shown? && e.act.tok == tok && Accepts(Run(history), tok, e.at) then [e.act.drawn] else []
  {
  }

  /** When the record of a token was last written: when it was handed out, or at the last presentation since
      that found it unexpired. */
  function LastWritten(history: seq<Event>, tok: string): Option<nat> {
    if history == [] then None
    else
      var before := history[..|history| - 1];
      var e := history[|history| - 1];
      match e.act
      case Login(t, _, _) => if t == tok then Some(e.at) else LastWritten(before, tok)
      case Shown(t, drawn) =>
        var was := LastWritten(before, t);
        var found := was.Some? && e.at < was.value + 604800;
        if found && t == tok then Some(e.at)
        else if found && drawn == tok && Presentations(before, t) % 2 == 0 then Some(e.at)
        else LastWritten(before, tok)
  }

  /** A record lives for seven days from when it was last written. */
  lemma {:induction false} LivesSevenDays(history: seq<Event>, tok: string, now: nat)
    requires FreshTokens(history)
    ensures var last := LastWritten(history, tok);
      && (tok in Run(history) <==> last.Some?)
      && (Present(Run(history), tok, now) <==> last.Some? && now < last.value + 604800)
  {
    if history != [] {
      var before := history[..|history| - 1];
      var e := history[|history| - 1];
      LivesSevenDays(before, tok, now);
      if e.act.Shown? {
        LivesSevenDays(before, e.act.tok, e.at);
        StateByPresentations(before, e.act.tok);
      }
    }
  }

  // ----- Families -----

  /** The live records of a session. */
  function LiveTokens(st: Store, sid: string): set<string> {
    set tok | tok in st && st[tok].sid == sid && st[tok].state == Live
  }

  /** How many tokens were issued to a session at login, and how many presentations of compromised
      tokens of it succeeded. */
  function Logins(history: seq<Event>, sid: string): nat {
    if history == [] then 0
    else
      var act := history[|history| - 1].act;
      Logins(history[..|history| - 1], sid) + if act.Login? && act.sid == sid then 1 else 0
  }

  function Replays(history: seq<Event>, sid: string): nat {
    if history == [] then 0
    else
      var before := Run(history[..|history| - 1]);
      var e := history[|history| - 1];
      Replays(history[..|history| - 1], sid)
        + if e.act.Shown? && Accepts(before, e.act.tok, e.at) && before[e.act.tok].state == Compromised
             && before[e.act.tok].sid == sid then 1 else 0
  }

  lemma IssueAddsLive(st: Store, tok: string, userId: string, sid: string, now: nat, other: string)
    requires tok !in st
    ensures |LiveTokens(Issue(st, tok, userId, sid, now), other)| == |LiveTokens(st, other)|
        + if other == sid then 1 else 0
  {
    var before, after := LiveTokens(st, other), LiveTokens(Issue(st, tok, userId, sid, now), other);
    if other == sid {
      assert after == before + {tok} && tok !in before;
    } else {
      assert after == before;
    }
  }

  lemma RotateLive(st: Store, presented: string, drawn: string, now: nat, sid: string)
    requires drawn !in st
    ensures |LiveTokens(Rotate(st, presented, drawn, now), sid)| == |LiveTokens(st, sid)| +
      if Accepts(st, presented, now) && st[presented].state == Compromised && st[presented].sid == sid then 1 else 0
  {
    if Accepts(st, presented, now) {
      var r := st[presented];
      var mid := st[presented := r.(state := Used, expires := now + REFRESH_TTL)];
      assert LiveTokens(mid, sid) == LiveTokens(st, sid) - {presented};
      assert presented in LiveTokens(st, sid) <==> r.state == Live && r.sid == sid;
      IssueAddsLive(mid, drawn, r.userId, r.sid, now, sid);
    } else {
      assert LiveTokens(Rotate(st, presented, drawn, now), sid) == LiveTokens(st, sid);
    }
  }

  /** Each session has one live token for every login into it and one more for every accepted replay. */
  lemma {:induction false} LiveTokensCounted(history: seq<Event>, sid: string)
    requires FreshTokens(history)
    ensures |LiveTokens(Run(history), sid)| == Logins(history, sid) + Replays(history, sid)
  {
    if history != [] {
      var before := history[..|history| - 1];
      var e := history[|history| - 1];
      LiveTokensCounted(before, sid);
      assert Run(history) == Step(Run(before), e);
      match e.act
      case Login(tok, user, s) => IssueAddsLive(Run(before), tok, user, s, e.at, sid);
      case Shown(tok, drawn) => RotateLive(Run(before), tok, drawn, e.at, sid);
    }
  }

  lemma {:induction false} NoReplays(history: seq<Event>, sid: string)
    requires FreshTokens(history) && forall tok :: Presentations(history, tok) <= 2
    ensures Replays(history, sid) == 0
  {
    if history != [] {
      var before := history[..|history| - 1];
      var e := history[|history| - 1];
      forall tok ensures Presentations(before, tok) <= 2 {
        assert Presentations(before, tok) <= Presentations(history, tok);
      }
      NoReplays(before, sid);
      if e.act.Shown? {
        StateByPresentations(before, e.act.tok);
        assert Presentations(history, e.act.tok) <= 2;
      }
    }
  }

  datatype Issued = Issued(token: string, at: nat)

  /** The token last issued to a session, at login or by a rotation, and when. */
  function LastIssued(history: seq<Event>, sid: string): Option<Issued> {
    if history == [] then None
    else
      var before := Run(history[..|history| - 1]);
      var e := history[|history| - 1];
      match e.act
      case Login(tok, _, s) => if s == sid then Some(Issued(tok, e.at)) else LastIssued(history[..|history| - 1], sid)
      case Shown(tok, drawn) =>
        if Accepts(before, tok, e.at) && before[tok].sid == sid then Some(Issued(drawn, e.at))
        else LastIssued(history[..|history| - 1], sid)
  }

  /** The token last issued to a session is live, and lasts seven days from then. */
  lemma {:induction false} LastIssuedIsLive(history: seq<Event>, sid: string)
    requires FreshTokens(history)
    ensures Logins(history, sid) > 0 ==> LastIssued(history, sid).Some?
    ensures forall tok | tok in Run(history) && Run(history)[tok].sid == sid :: LastIssued(history, sid).Some?
    ensures var last := LastIssued(history, sid); var st := Run(history);
      last.Some? ==>
        && last.value.token in LiveTokens(st, sid)
        && st[last.value.token].expires == last.value.at + 604800
  {
    if history != [] {
      LastIssuedIsLive(history[..|history| - 1], sid);
    }
  }

  /** Reuse marks no more than the token presented. Whatever the history, when a used token is presented and
      refused, the session's last issued token stays the one it was, and a presentation of it is accepted
      from then on exactly as long as it is unexpired. */
  lemma ReuseLeavesSessionOpen(history: seq<Event>, tok: string, drawn: string, at: nat, now: nat)
    requires FreshTokens(history) && drawn !in Run(history)
    requires Present(Run(history), tok, at) && Run(history)[tok].state == Used
    ensures var sid := Run(history)[tok].sid; var after := history + [Event(Shown(tok, drawn), at)];
      && !Accepts(Run(history), tok, at)
      && Run(after) == Run(history)[tok := Run(after)[tok]] && Run(after)[tok].state == Compromised
      && LastIssued(history, sid).Some? && LastIssued(after, sid) == LastIssued(history, sid)
      && var last := LastIssued(history, sid).value;
      Accepts(Run(after), last.token, now) <==> now < last.at + 604800
  {
    var sid, e := Run(history)[tok].sid, Event(Shown(tok, drawn), at);
    Append(history, e, tok);
    assert (history + [e])[..|history|] == history;
    LastIssuedIsLive(history, sid);
    LastIssuedIsLive(history + [e], sid);
  }

  /** The tokens of a session that a rotation at the given time accepts without a replay. */
  function UsableTokens(st: Store, sid: string, now: nat): set<string> {
    set tok | tok in LiveTokens(st, sid) && Present(st, tok, now)
  }

  /** Where no token is presented more than twice, every session with one login has exactly one live
      token, the one last issued, until that expires and none after; and every token has at most one
      successor: the family is a chain. */
  lemma FamiliesAreChains(history: seq<Event>, sid: string, now: nat)
    requires FreshTokens(history) && Logins(history, sid) == 1
    requires forall tok :: Presentations(history, tok) <= 2
    ensures LastIssued(history, sid).Some?
    ensures var last := LastIssued(history, sid).value; var st := Run(history);
      && LiveTokens(st, sid) == {last.token}
      && UsableTokens(st, sid, now) == if now < last.at + 604800 then {last.token} else {}
    ensures forall tok :: |Successors(history, tok)| <= 1
  {
    NoReplays(history, sid);
    LiveTokensCounted(history, sid);
    LastIssuedIsLive(history, sid);
    OnlyElement(LiveTokens(Run(history), sid), LastIssued(history, sid).value.token);
    forall tok ensures |Successors(history, tok)| <= 1 {
      StateByPresentations(history, tok);
    }
  }

  lemma OnlyElement(s: set<string>, x: string)
    requires |s| == 1 && x in s
    ensures s == {x}
  {
    assert |s - {x}| == 0;
    assert s == (s - {x}) + {x};
  }
}
