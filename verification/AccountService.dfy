/** Credits and debits one call at a time: what a completed call does, and what the keys mean. */
module AccountService {
  import opened Prelude
  import opened Ledger

  // One call: its request, the policy decision, the time of its lookup and the time of its mark.
  datatype Input = Input(req: Request, allowed: bool, at: nat, doneAt: nat)

  datatype Store = Store(accounts: map<string, Account>, redis: map<Idem, nat>)

  predicate KeyPresent(st: Store, k: Idem, time: nat) { k in st.redis && time < st.redis[k] }

  predicate Repeats(st: Store, i: Input) { KeyPresent(st, i.req.Key(), i.at) }

  /** The outcome of a call, in the order the checks are made. */
  function Decide(st: Store, i: Input): Outcome {
    if Repeats(st, i) then Replayed
    else if !i.allowed then Forbidden
    else if i.req.Row() !in st.accounts then NotFound
    else if Refusal(st.accounts[i.req.Row()], i.req).Some? then Refusal(st.accounts[i.req.Row()], i.req).value
    else Success
  }

  function Serve(st: Store, i: Input): Store {
    if Decide(st, i).Success? then
      Store(st.accounts[i.req.Row() := After(st.accounts[i.req.Row()], i.req)], st.redis[i.req.Key() := i.doneAt + DAY])
    else st
  }

  /** The account a call returns: as it is at the end, of a call that took effect or that is replayed. */
  function Returned(st: Store, i: Input): Option<Account> {
    var after := Serve(st, i).accounts;
    if (Decide(st, i).Success? || Decide(st, i).Replayed?) && i.req.Row() in after then Some(after[i.req.Row()])
    else None
  }

  /** The replay comes before the policy: a caller the policy denies is shown an account if and only if the
      call repeats one that took effect. */
  lemma DeniedIsShownExactly(st: Store, i: Input)
    requires !i.allowed
    ensures Returned(st, i).Some? <==> Repeats(st, i) && i.req.Row() in st.accounts
    ensures Serve(st, i) == st
  {
  }

  /** The Redis key of a request, with the path as it is spelled. */
  function KeyText(r: Request): string {
    (if r.op == Credit then "idemp:credit:" else "idemp:debit:") + r.path + ":" + r.key
  }

  lemma KeyIsText(r: Request)
    ensures r.Key() == KeyText(r)
  {
    assert "idemp:" + "credit" + ":" == "idemp:credit:" && "idemp:" + "debit" + ":" == "idemp:debit:";
  }

  class Service {
    var accounts: map<string, Account>
    var redis: map<Idem, nat>

    function Contents(): Store
      reads this
    {
      Store(accounts, redis)
    }

    constructor (accounts: map<string, Account>)
      ensures Contents() == Store(accounts, map[])
    {
      this.accounts := accounts;
      redis := map[];
    }

    /** A call that nothing interleaves with. */
    method Mutate(i: Input) returns (outcome: Outcome, account: Option<Account>)
      modifies this
      ensures outcome == Decide(old(Contents()), i)
      ensures Contents() == Serve(old(Contents()), i)
      ensures account == Returned(old(Contents()), i)
      ensures var key := KeyText(i.req); var a := i.req.Row();
        outcome ==
          if key in old(redis) && i.at < old(redis)[key] then Replayed
          else if !i.allowed then Forbidden
          else if a !in old(accounts) then NotFound
          else if old(accounts)[a].status != "active" then NotActive
          else if i.req.op == Debit && old(accounts)[a].balance < i.req.amount then InsufficientFunds
          else Success
      ensures outcome.Success? ==>
        && i.req.Row() in old(accounts)
        && var row := old(accounts)[i.req.Row()];
        && accounts == old(accounts)[i.req.Row() := Account(
             if i.req.op == Credit then row.balance + i.req.amount else row.balance - i.req.amount,
             row.version + 1, row.status)]
        && redis == old(redis)[KeyText(i.req) := i.doneAt + 86400]
      ensures !outcome.Success? ==> accounts == old(accounts) && redis == old(redis)
    {
      KeyIsText(i.req);
      var key := i.req.Key();
      if key in redis && i.at < redis[key] {
        account := if i.req.Row() in accounts then Some(accounts[i.req.Row()]) else None;
        return Replayed, account;
      }
      if !i.allowed { return Forbidden, None; }
      var a := i.req.Row();
      if a !in accounts { return NotFound, None; }
      var row := accounts[a];
      if row.status != "active" { return NotActive, None; }
      if i.req.op == Credit {
        row := row.(balance := row.balance + i.req.amount);
      } else {
        if row.balance < i.req.amount { return InsufficientFunds, None; }
        row := row.(balance := row.balance - i.req.amount);
      }
      row := row.(version := row.version + 1);
      accounts := accounts[a := row];
      redis := redis[key := i.doneAt + DAY];
      outcome, account := Success, Some(row);
    }
  }

  // ----- One account under two spellings -----

  predicate IsHexDigit(c: char) { '0' <= c <= '9' || 'a' <= c <= 'f' }

  /** A path the database takes for a UUID: 32 hex digits, with up to four hyphens among them. */
  predicate SpellsUuid(path: string) {
    |path| <= 36 && |Identifier(path)| == 32 && forall i | 0 <= i < 32 :: IsHexDigit(Identifier(path)[i])
  }

  /** Another spelling: one more hyphen where there is room for it, and none where there is not. */
  function Respelled(path: string): string {
    if |path| < 36 then "-" + path else Identifier(path)
  }

  lemma RespelledIsAnother(path: string)
    requires SpellsUuid(path)
    ensures SpellsUuid(Respelled(path)) && Respelled(path) != path && Identifier(Respelled(path)) == Identifier(path)
  {
    if |path| < 36 {
      assert ("-" + path)[1..] == path;
    } else {
      BareExactly(Identifier(path));
    }
  }

  /** The idempotency key does not stop a repetition under another spelling. Whatever UUID the path of a
      request spells, and at whatever time, the request and the same request under the other spelling both
      take effect, when the policy permits them, neither has a mark yet and the account can bear them both. */
  lemma OtherSpellingTakesEffect(st: Store, i: Input, at: nat, doneAt: nat) returns (j: Input)
    requires SpellsUuid(i.req.path) && i.allowed && i.req.Row() in st.accounts
    requires !KeyPresent(st, i.req.Key(), i.at) && !KeyPresent(st, i.req.(path := Respelled(i.req.path)).Key(), at)
    requires var row := st.accounts[i.req.Row()];
      Refusal(row, i.req).None? && Refusal(After(row, i.req), i.req).None?
    ensures j == Input(i.req.(path := Respelled(i.req.path)), true, at, doneAt)
    ensures j.req != i.req && SpellsUuid(j.req.path) && j.req.Row() == i.req.Row()
    ensures Decide(st, i).Success? && Decide(Serve(st, i), j).Success?
    ensures var twice := Serve(Serve(st, i), j);
      && i.req.Row() in twice.accounts
      && twice.accounts[i.req.Row()].balance
           == st.accounts[i.req.Row()].balance + (if i.req.op.Credit? then 2 * i.req.amount else -2 * i.req.amount)
  {
    j := Input(i.req.(path := Respelled(i.req.path)), true, at, doneAt);
    RespelledIsAnother(i.req.path);
    assert j.req.Key() != i.req.Key() by { OtherPathOtherKey(i.req, j.req.path); }
  }

  lemma OtherPathOtherKey(r: Request, path: string)
    requires path != r.path
    ensures r.(path := path).Key() != r.Key()
  {
    KeysExactly(r, r.(path := path));
    SameEnding(r.path, path, ":" + r.key);
    assert r.path + ":" + r.key == r.path + (":" + r.key) && path + ":" + r.key == path + (":" + r.key);
  }

  lemma SameEnding(a: string, b: string, tail: string)
    ensures a + tail == b + tail <==> a == b
  {
    if a + tail == b + tail { assert (a + tail)[..|a|] == a && (b + tail)[..|b|] == b; }
  }

  /** After a call that took effect, exactly which calls are taken for repetitions: those of its operation
      whose path and client's key, joined by a colon, are the same, until 24 h after its end; and of all others
      those that were repetitions before. One that is not, on the same account, is decided anew. Where the two
      paths have no colon, as no spelling of a UUID has, the path and the key are both the same. */
  lemma RepeatedExactly(st: Store, i: Input, j: Input)
    requires Decide(st, i).Success?
    ensures NoColon(i.req.path) && NoColon(j.req.path) ==>
      (i.req.path + ":" + i.req.key == j.req.path + ":" + j.req.key <==>
        i.req.path == j.req.path && i.req.key == j.req.key)
    ensures var same := i.req.op == j.req.op && i.req.path + ":" + i.req.key == j.req.path + ":" + j.req.key;
      && (Decide(Serve(st, i), j).Replayed? <==>
            if same then j.at < i.doneAt + 86400 else Decide(st, j).Replayed?)
      && (!Decide(Serve(st, i), j).Replayed? && j.allowed && i.req.Row() == j.req.Row() ==>
            Decide(Serve(st, i), j) ==
              var refusal := Refusal(After(st.accounts[i.req.Row()], i.req), j.req);
              if refusal.Some? then refusal.value else Success)
  {
    KeysExactly(i.req, j.req);
    KeysExactly(i.req, j.req.(op := i.req.op));
  }

  /** A call that repeats none and is taken for one: a client's key with a colon in it, after whose first part
      another path ends. What is asked for there is never done. */
  lemma ColonTakenForRepetition(st: Store, i: Input, x: string, y: string, at: nat) returns (j: Input)
    requires Decide(st, i).Success? && i.req.key == x + ":" + y && at < i.doneAt + 86400
    ensures j == Input(i.req.(path := i.req.path + ":" + x, key := y), true, at, at)
    ensures Decide(Serve(st, i), j).Replayed? && Serve(Serve(st, i), j) == Serve(st, i)
  {
    j := Input(i.req.(path := i.req.path + ":" + x, key := y), true, at, at);
    assert i.req.path + ":" + i.req.key == j.req.path + ":" + j.req.key;
    RepeatedExactly(st, i, j);
  }

  // ----- The same call on the machine -----

  function CallSteps(c: nat, i: Input): seq<Step>
    requires i.at <= i.doneAt
  {
    [Begin(i.req)] + (Ask(c, i.allowed) + (Write(c) + ([Tick(i.doneAt - i.at)] + ([SetMark(c)] + []))))
  }

  /** Running the steps of one call with nothing in between does what `Serve` says, for every outcome. */
  lemma AloneIsServe(s: State, i: Input)
    requires s.now == i.at <= i.doneAt && i.req.Row() !in s.locks
    ensures var t := Run(s, CallSteps(|s.calls|, i)); var st := Store(s.accounts, s.redis);
      && Store(t.accounts, t.redis) == Serve(st, i)
      && |t.calls| == |s.calls| + 1 && t.calls[|s.calls|].pc == Finished(Decide(st, i))
      && t.locks == s.locks && t.now == i.doneAt
  {
    var c := |s.calls|;
    var tail := [Tick(i.doneAt - i.at)] + ([SetMark(c)] + []);
    var s1 := Next(s, Begin(i.req));
    RunStep(s, Begin(i.req), Ask(c, i.allowed) + (Write(c) + tail));
    RunConcat(s1, Ask(c, i.allowed), Write(c) + tail);
    RunConcat(Run(s1, Ask(c, i.allowed)), Write(c), tail);
    AskWriteOutcome(s1, c, i);
    MarkOutcome(s1, Run(Run(s1, Ask(c, i.allowed)), Write(c)), c, i);
  }

  lemma MarkOutcome(s: State, t: State, c: nat, i: Input)
    requires Decided(s, t, c, i) && i.at == s.now <= i.doneAt
    ensures var u := Run(t, [Tick(i.doneAt - i.at)] + ([SetMark(c)] + [])); var st := Store(s.accounts, s.redis);
      && Store(u.accounts, u.redis) == Serve(st, i) && u.locks == s.locks && u.now == i.doneAt
      && |u.calls| == |s.calls| && u.calls[c].pc == Finished(Decide(st, i))
  {
    TailRuns(t, c, i.doneAt - i.at);
  }

  /** Where a call and the store stand before the mark is set. */
  ghost predicate Decided(s: State, t: State, c: nat, i: Input) {
    var st := Store(s.accounts, s.redis);
    && t.redis == s.redis && t.locks == s.locks && t.now == s.now
    && |t.calls| == |s.calls| && c < |t.calls| && t.calls[c].req == i.req
    && t.accounts == Serve(st, i).accounts
    && t.calls[c].pc == if Decide(st, i).Success? then Committed else Finished(Decide(st, i))
  }

  lemma AskWriteOutcome(s: State, c: nat, i: Input)
    requires c < |s.calls| && s.calls[c] == Call(i.req, Ready, 0, 0) && s.now == i.at && i.req.Row() !in s.locks
    ensures Decided(s, Run(Run(s, Ask(c, i.allowed)), Write(c)), c, i)
  {
    AskOutcome(s, c, i);
    var t := Run(s, Ask(c, i.allowed));
    if t.calls[c].pc.Authorized? { WriteOutcome(t, c, i); } else { WriteIdle(t, c); }
  }

  lemma AskOutcome(s: State, c: nat, i: Input)
    requires c < |s.calls| && s.calls[c] == Call(i.req, Ready, 0, 0) && s.now == i.at
    ensures var t := Run(s, Ask(c, i.allowed)); var st := Store(s.accounts, s.redis);
      && t.accounts == s.accounts && t.redis == s.redis && t.locks == s.locks && t.now == s.now
      && |t.calls| == |s.calls| && t.calls[c].req == i.req
      && t.calls[c].pc ==
        if Repeats(st, i) then Finished(Replayed) else if !i.allowed then Finished(Forbidden) else Authorized
  {
    var s1 := DoLookup(s, c);
    RunStep(s, Lookup(c), [Authorize(c, i.allowed)] + []);
    RunStep(s1, Authorize(c, i.allowed), []);
  }

  lemma WriteOutcome(s: State, c: nat, i: Input)
    requires c < |s.calls| && s.calls[c].pc.Authorized? && s.calls[c].req == i.req && i.req.Row() !in s.locks
    ensures var t := Run(s, Write(c)); var a := i.req.Row();
      && t.redis == s.redis && t.locks == s.locks && t.now == s.now && |t.calls| == |s.calls| && t.calls[c].req == i.req
      && if a !in s.accounts then t.accounts == s.accounts && t.calls[c].pc == Finished(NotFound)
         else if Refusal(s.accounts[a], i.req).Some? then
           t.accounts == s.accounts && t.calls[c].pc == Finished(Refusal(s.accounts[a], i.req).value)
         else t.accounts == s.accounts[a := After(s.accounts[a], i.req)] && t.calls[c].pc == Committed
  {
    var a := i.req.Row();
    if a in s.accounts && Refusal(s.accounts[a], i.req).None? {
      WriteRuns(s, c);
    } else {
      var s1 := DoAcquire(s, c);
      RunStep(s, Acquire(c), [Apply(c)] + ([Commit(c)] + []));
      var s2 := if a in s.accounts then DoApply(s1, c) else s1;
      RunStep(s1, Apply(c), [Commit(c)] + []);
      RunStep(s2, Commit(c), []);
      assert s.locks[a := c] - {a} == s.locks;
    }
  }

  lemma WriteIdle(s: State, c: nat)
    requires c < |s.calls| && s.calls[c].pc.Finished?
    ensures Run(s, Write(c)) == s
  {
    RunStep(s, Acquire(c), [Apply(c)] + ([Commit(c)] + []));
    RunStep(s, Apply(c), [Commit(c)] + []);
    RunStep(s, Commit(c), []);
  }

  lemma TailRuns(s: State, c: nat, d: nat)
    requires c < |s.calls| && (s.calls[c].pc.Finished? || s.calls[c].pc.Committed?)
    ensures var t := Run(s, [Tick(d)] + ([SetMark(c)] + []));
      && t.accounts == s.accounts && t.locks == s.locks && t.now == s.now + d && |t.calls| == |s.calls|
      && (s.calls[c].pc.Finished? ==> t.redis == s.redis && t.calls[c].pc == s.calls[c].pc)
      && (s.calls[c].pc.Committed? ==>
            && t.redis == s.redis[s.calls[c].req.Key() := s.now + d + DAY]
            && t.calls[c].pc == Finished(Success))
  {
    var s1 := Next(s, Tick(d));
    RunStep(s, Tick(d), [SetMark(c)] + []);
    RunStep(s1, SetMark(c), []);
  }

  // ----- What the keys mean: a history in which repetitions are ignored -----

  function ServeAll(init: map<string, Account>, inputs: seq<Input>): Store {
    if inputs == [] then Store(init, map[])
    else Serve(ServeAll(init, inputs[..|inputs| - 1]), inputs[|inputs| - 1])
  }

  /** The accounts after applying, in order, the calls that take effect. */
  ghost function Applied(init: map<string, Account>, inputs: seq<Input>): map<string, Account>
    decreases |inputs|, 1
  {
    if inputs == [] then init
    else
      var i := inputs[|inputs| - 1];
      var before := Applied(init, inputs[..|inputs| - 1]);
      if TakesEffect(init, inputs) then before[i.req.Row() := After(before[i.req.Row()], i.req)] else before
  }

  /** The last call takes effect: it is permitted, its account can bear it, and no call with its key that
      took effect ended less than a day before it. */
  ghost predicate TakesEffect(init: map<string, Account>, inputs: seq<Input>)
    requires inputs != []
    ensures TakesEffect(init, inputs) ==> inputs[|inputs| - 1].req.Row() in Applied(init, inputs[..|inputs| - 1])
    decreases |inputs|, 0
  {
    var n := |inputs| - 1;
    var i := inputs[n];
    var before := Applied(init, inputs[..n]);
    && i.allowed && i.req.Row() in before && Refusal(before[i.req.Row()], i.req).None?
    && !RecentlyDone(init, inputs[..n], KeyText(i.req), i.at)
  }

  predicate Names(k: Idem, r: Request) { k == KeyText(r) }

  /** Some call with the key took effect and ended less than a day before the given time. */
  ghost predicate RecentlyDone(init: map<string, Account>, inputs: seq<Input>, k: Idem, time: nat)
    decreases |inputs|, 1
  {
    exists j :: 0 <= j < |inputs| && Names(k, inputs[j].req) && time < inputs[j].doneAt + 86400
        && TakesEffect(init, inputs[..j + 1])
  }

  lemma StillDone(init: map<string, Account>, inputs: seq<Input>, k: Idem, time: nat, n: nat)
    requires n <= |inputs| && RecentlyDone(init, inputs[..n], k, time)
    ensures RecentlyDone(init, inputs, k, time)
  {
    var before := inputs[..n];
    var j :| 0 <= j < n && Names(k, before[j].req) && time < before[j].doneAt + 86400
        && TakesEffect(init, before[..j + 1]);
    assert before[..j + 1] == inputs[..j + 1];
    assert Names(k, inputs[j].req) && time < inputs[j].doneAt + 86400 && TakesEffect(init, inputs[..j + 1]);
  }

  lemma DoneEarlierOrLast(init: map<string, Account>, inputs: seq<Input>, k: Idem, time: nat)
    requires inputs != [] && RecentlyDone(init, inputs, k, time)
    ensures var n := |inputs| - 1;
      || RecentlyDone(init, inputs[..n], k, time)
      || (Names(k, inputs[n].req) && time < inputs[n].doneAt + 86400 && TakesEffect(init, inputs))
  {
    var n := |inputs| - 1;
    var before := inputs[..n];
    var j :| 0 <= j < |inputs| && Names(k, inputs[j].req) && time < inputs[j].doneAt + 86400
        && TakesEffect(init, inputs[..j + 1]);
    if j < n {
      assert before[..j + 1] == inputs[..j + 1];
      assert Names(k, before[j].req) && time < before[j].doneAt + 86400 && TakesEffect(init, before[..j + 1]);
    } else {
      assert inputs[..j + 1] == inputs;
    }
  }

  lemma RecentlyDoneStep(init: map<string, Account>, inputs: seq<Input>, k: Idem, time: nat)
    requires inputs != []
    ensures var n := |inputs| - 1; RecentlyDone(init, inputs, k, time) <==>
      RecentlyDone(init, inputs[..n], k, time)
      || (Names(k, inputs[n].req) && time < inputs[n].doneAt + 86400 && TakesEffect(init, inputs))
  {
    var n := |inputs| - 1;
    assert inputs[..n + 1] == inputs;
    if RecentlyDone(init, inputs[..n], k, time) { StillDone(init, inputs, k, time, n); }
    if RecentlyDone(init, inputs, k, time) { DoneEarlierOrLast(init, inputs, k, time); }
  }

  /** Calls are served one after the other. */
  predicate Sequential(inputs: seq<Input>) {
    && (forall i | 0 <= i < |inputs| :: inputs[i].at <= inputs[i].doneAt)
    && (forall i, j | 0 <= i < j < |inputs| :: inputs[i].doneAt <= inputs[j].at)
  }

  lemma SequentialPrefix(inputs: seq<Input>)
    requires Sequential(inputs) && inputs != []
    ensures Sequential(inputs[..|inputs| - 1])
    ensures forall i | 0 <= i < |inputs| - 1 :: inputs[i].doneAt <= inputs[|inputs| - 1].at
  {
  }

  /** From the end of the last call on, a key is present exactly when it was recently done. */
  ghost predicate KeysAgree(init: map<string, Account>, inputs: seq<Input>) {
    forall k, time: nat | inputs != [] ==> inputs[|inputs| - 1].doneAt <= time ::
      KeyPresent(ServeAll(init, inputs), k, time) <==> RecentlyDone(init, inputs, k, time)
  }

  /** Serving calls through the store of expiring keys refines the history in which a call is ignored
      while a call with its key that took effect is less than a day old.
      Calls turned down for any reason leave the key free. */
  lemma {:induction false} ServingRefinesHistory(init: map<string, Account>, inputs: seq<Input>)
    requires Sequential(inputs)
    ensures ServeAll(init, inputs).accounts == Applied(init, inputs)
    ensures KeysAgree(init, inputs)
    ensures inputs != [] ==> var n := |inputs| - 1;
      (Decide(ServeAll(init, inputs[..n]), inputs[n]).Success? <==> TakesEffect(init, inputs))
    decreases |inputs|
  {
    if inputs != [] {
      var n := |inputs| - 1;
      var i := inputs[n];
      var st := ServeAll(init, inputs[..n]);
      SequentialPrefix(inputs);
      ServingRefinesHistory(init, inputs[..n]);
      KeyIsText(i.req);
      assert Repeats(st, i) <==> RecentlyDone(init, inputs[..n], KeyText(i.req), i.at) by {
        if n > 0 { assert inputs[..n][n - 1].doneAt <= i.at; }
      }
      assert Decide(st, i).Success? <==> TakesEffect(init, inputs);
      forall k, time: nat | i.doneAt <= time
        ensures KeyPresent(ServeAll(init, inputs), k, time) <==> RecentlyDone(init, inputs, k, time)
      {
        if n > 0 { assert inputs[..n][n - 1].doneAt <= time; }
        KeyAgreesStep(init, inputs, k, time);
      }
    }
  }

  lemma KeyAgreesStep(init: map<string, Account>, inputs: seq<Input>, k: Idem, time: nat)
    requires Sequential(inputs) && inputs != []
    requires var n := |inputs| - 1; var st := ServeAll(init, inputs[..n]);
      && (Decide(st, inputs[n]).Success? <==> TakesEffect(init, inputs))
      && (KeyPresent(st, k, time) <==> RecentlyDone(init, inputs[..n], k, time))
    ensures KeyPresent(ServeAll(init, inputs), k, time) <==> RecentlyDone(init, inputs, k, time)
  {
    var n := |inputs| - 1;
    RecentlyDoneStep(init, inputs, k, time);
    KeyStep(ServeAll(init, inputs[..n]), inputs[n], k, time);
    KeyIsText(inputs[n].req);
    OlderExpires(init, inputs, k, time);
  }

  lemma KeyStep(st: Store, i: Input, k: Idem, time: nat)
    ensures KeyPresent(Serve(st, i), k, time) <==>
      if Decide(st, i).Success? && k == i.req.Key() then time < i.doneAt + 86400 else KeyPresent(st, k, time)
  {
  }

  /** A key that takes effect again is present at least as long as before. */
  lemma OlderExpires(init: map<string, Account>, inputs: seq<Input>, k: Idem, time: nat)
    requires Sequential(inputs) && inputs != []
    ensures var n := |inputs| - 1;
      RecentlyDone(init, inputs[..n], k, time) ==> time < inputs[n].doneAt + 86400
  {
  }
}
