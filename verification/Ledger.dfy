/** Credits and debits under a row lock with idempotency keys, as interleaved steps. */
module Ledger {
  import opened Prelude

  const DAY := 86400

  datatype Op = Credit | Debit {
    function Name(): string { if Credit? then "credit" else "debit" }
  }

  // Money is in whole paisa; the bounds are those of the validated amount.
  type Amount = a: int | 0 < a <= 99999999999 witness 1

  // A request names its account by the text in its path. The Redis key is built from that text, while the
  // row is found by the identifier the text spells.
  datatype Request = Request(op: Op, path: string, amount: Amount, key: string) {
    function Key(): Idem { "idemp:" + op.Name() + ":" + path + ":" + key }

    function Row(): string { Identifier(path) }
  }

  type Idem = string

  function Lower(c: char): char { if 'A' <= c <= 'F' then c - 'A' + 'a' else c }

  /** The UUID a text spells, as bare hex digits: hyphens and the case of the digits do not matter. */
  function Identifier(path: string): string {
    if path == "" then ""
    else if path[0] == '-' then Identifier(path[1..])
    else [Lower(path[0])] + Identifier(path[1..])
  }

  lemma {:induction false} IdentifierJoins(a: string, b: string)
    ensures Identifier(a + b) == Identifier(a) + Identifier(b)
  {
    if a == "" {
      assert a + b == b;
    } else {
      assert (a + b)[1..] == a[1..] + b;
      IdentifierJoins(a[1..], b);
    }
  }

  predicate IsBare(path: string) { forall i | 0 <= i < |path| :: path[i] != '-' && !('A' <= path[i] <= 'F') }

  /** An identifier has no hyphens and no capital hex digits, and a text without them is its own. */
  lemma {:induction false} BareExactly(path: string)
    ensures IsBare(Identifier(path)) && (IsBare(path) <==> Identifier(path) == path)
  {
    if path != "" {
      BareExactly(path[1..]);
      IdentifierShrinks(path[1..]);
      assert path == [path[0]] + path[1..];
      if Identifier(path) == path { assert Identifier(path)[1..] == path[1..]; }
    }
  }

  lemma {:induction false} IdentifierShrinks(path: string)
    ensures |Identifier(path)| <= |path|
  {
    if path != "" { IdentifierShrinks(path[1..]); }
  }

  /** Wherever it stands, a hyphen makes no difference to the row that is found, nor does the case of a hex digit. */
  lemma SpellingExactly(a: string, b: string, i: nat)
    requires i < 6
    ensures Identifier(a + "-" + b) == Identifier(a + b)
    ensures Identifier(a + ["ABCDEF"[i]] + b) == Identifier(a + ["abcdef"[i]] + b)
  {
    IdentifierJoins(a, b);
    OneWithin(a, '-', b);
    OneWithin(a, "ABCDEF"[i], b);
    OneWithin(a, "abcdef"[i], b);
  }

  lemma OneWithin(a: string, c: char, b: string)
    ensures Identifier(a + [c] + b) == Identifier(a) + (if c == '-' then "" else [Lower(c)]) + Identifier(b)
  {
    IdentifierJoins(a + [c], b);
    IdentifierJoins(a, [c]);
    assert [c][1..] == "";
    assert Identifier([c]) == if c == '-' then "" else [Lower(c)];
  }

  datatype Account = Account(balance: int, version: int, status: string)

  datatype Outcome =
    | Success | Replayed | Forbidden | NotFound | NotActive | InsufficientFunds
    | Crashed(committed: bool)

  /** The row a request writes. */
  function After(row: Account, r: Request): Account {
    row.(balance := if r.op.Credit? then row.balance + r.amount else row.balance - r.amount, version := row.version + 1)
  }

  predicate NoColon(s: string) { forall i | 0 <= i < |s| :: s[i] != ':' }

  /** What follows a colon, and what stands before it, are told by the text where there is no other before it. */
  lemma FirstColon(a: string, x: string, b: string, y: string)
    requires NoColon(a) && NoColon(b) && a + ":" + x == b + ":" + y
    ensures a == b && x == y
  {
    var s, t := a + ":" + x, b + ":" + y;
    assert s[|a|] == ':' && t[|b|] == ':';
    assert |a| == |b|;
    assert s[..|a|] == a && t[..|b|] == b && s[|a| + 1..] == x && t[|b| + 1..] == y;
  }

  lemma KeyParts(r: Request)
    ensures r.Key() == "idemp" + ":" + (r.op.Name() + ":" + (r.path + ":" + r.key))
    ensures NoColon(r.op.Name())
  {
    assert "idemp:" == "idemp" + ":";
  }

  /** What makes one idempotency key of two requests: the operation and the path, as it is spelled, joined to
      the client's key; where the paths have no colon, the operation, the path and the client's key, all three. */
  lemma KeysExactly(r: Request, s: Request)
    ensures r.Key() == s.Key() <==> r.op == s.op && r.path + ":" + r.key == s.path + ":" + s.key
    ensures NoColon(r.path) && NoColon(s.path) ==>
      (r.Key() == s.Key() <==> r.op == s.op && r.path == s.path && r.key == s.key)
    ensures r.path == s.path ==> (r.Key() == s.Key() <==> r.op == s.op && r.key == s.key)
  {
    KeyParts(r);
    KeyParts(s);
    if r.Key() == s.Key() {
      FirstColon("idemp", r.op.Name() + ":" + (r.path + ":" + r.key),
        "idemp", s.op.Name() + ":" + (s.path + ":" + s.key));
      FirstColon(r.op.Name(), r.path + ":" + r.key, s.op.Name(), s.path + ":" + s.key);
      if NoColon(r.path) && NoColon(s.path) { FirstColon(r.path, r.key, s.path, s.key); }
      if r.path == s.path { assert (r.path + ":" + r.key)[|r.path| + 1..] == r.key; }
      if r.path == s.path { assert (s.path + ":" + s.key)[|s.path| + 1..] == s.key; }
    }
  }

  /** Why a request is turned down after its row is read, if it is. */
  function Refusal(row: Account, r: Request): Option<Outcome> {
    if row.status != "active" then Some(NotActive)
    else if r.op.Debit? && row.balance < r.amount then Some(InsufficientFunds)
    else None
  }

  // ----- The machine -----

  // Where a call stands: before the Redis lookup, after it, after the policy decision, holding the row
  // lock with the row read, holding it with the new row written, committed but not marked, or over.
  datatype Pc =
    | Ready | Checked | Authorized | Holding(row: Account) | Staged(row: Account) | Committed
    | Finished(outcome: Outcome)

  // `lookedUpAt` is the time of the lookup and `marksSeen` the number of marks set before it.
  datatype Call = Call(req: Request, pc: Pc, lookedUpAt: nat, marksSeen: nat)

  // What the run has done so far: every commit and every idempotency mark.
  datatype Entry = Entry(call: nat, req: Request, lookedUpAt: nat, marksSeen: nat, at: nat)
  datatype Mark = Mark(call: nat, idem: Idem, at: nat)

  datatype State = State(
    now: nat,
    accounts: map<string, Account>,
    locks: map<string, nat>,
    redis: map<Idem, nat>,
    calls: seq<Call>,
    log: seq<Entry>,
    marks: seq<Mark>)

  datatype Step =
    | Begin(req: Request)
    | Lookup(c: nat)
    | Authorize(c: nat, allowed: bool)
    | Acquire(c: nat)
    | Apply(c: nat)
    | Commit(c: nat)
    | SetMark(c: nat)
    | Crash(c: nat)
    | Tick(d: nat)

  function Init(accounts: map<string, Account>): State {
    State(0, accounts, map[], map[], [], [], [])
  }

  /** A Redis key is present until its expiry. */
  predicate Present(s: State, k: Idem) { k in s.redis && s.now < s.redis[k] }

  function Goto(s: State, c: nat, pc: Pc): State
    requires c < |s.calls|
  {
    s.(calls := s.calls[c := s.calls[c].(pc := pc)])
  }

  function Release(s: State, a: string): State { s.(locks := s.locks - {a}) }

  /** A row takes a request exactly when it is active and, for a debit, holds the amount. */
  lemma RefusalExactly(row: Account, r: Request)
    ensures Refusal(row, r) == Some(NotActive) <==> row.status != "active"
    ensures Refusal(row, r) == Some(InsufficientFunds) <==>
      row.status == "active" && r.op == Debit && row.balance < r.amount
    ensures Refusal(row, r).None? <==> row.status == "active" && (r.op == Debit ==> r.amount <= row.balance)
  {
  }

  predicate HasLock(pc: Pc) { pc.Holding? || pc.Staged? }

  predicate Enabled(s: State, step: Step) {
    match step
    case Begin(_) => true
    case Tick(_) => true
    case Lookup(c) => c < |s.calls| && s.calls[c].pc.Ready?
    case Authorize(c, _) => c < |s.calls| && s.calls[c].pc.Checked?
    case Acquire(c) => c < |s.calls| && s.calls[c].pc.Authorized? && s.calls[c].req.Row() !in s.locks
    case Apply(c) => c < |s.calls| && s.calls[c].pc.Holding?
    case Commit(c) => c < |s.calls| && s.calls[c].pc.Staged?
    case SetMark(c) => c < |s.calls| && s.calls[c].pc.Committed?
    case Crash(c) => c < |s.calls| && !s.calls[c].pc.Finished?
  }

  function DoLookup(s: State, c: nat): State
    requires Enabled(s, Lookup(c))
  {
    var call := s.calls[c];
    if Present(s, call.req.Key()) then Goto(s, c, Finished(Replayed))
    else s.(calls := s.calls[c := call.(pc := Checked, lookedUpAt := s.now, marksSeen := |s.marks|)])
  }

  function DoAcquire(s: State, c: nat): State
    requires Enabled(s, Acquire(c))
  {
    var a := s.calls[c].req.Row();
    if a !in s.accounts then Goto(s, c, Finished(NotFound))
    else Goto(s, c, Holding(s.accounts[a])).(locks := s.locks[a := c])
  }

  function DoApply(s: State, c: nat): State
    requires Enabled(s, Apply(c))
  {
    var call := s.calls[c];
    var refusal := Refusal(call.pc.row, call.req);
    if refusal.Some? then Release(Goto(s, c, Finished(refusal.value)), call.req.Row())
    else Goto(s, c, Staged(After(call.pc.row, call.req)))
  }

  function DoCommit(s: State, c: nat): State
    requires Enabled(s, Commit(c))
  {
    var call := s.calls[c];
    Release(Goto(s, c, Committed), call.req.Row()).(
      accounts := s.accounts[call.req.Row() := call.pc.row],
      log := s.log + [Entry(c, call.req, call.lookedUpAt, call.marksSeen, s.now)])
  }

  function DoMark(s: State, c: nat): State
    requires Enabled(s, SetMark(c))
  {
    var k := s.calls[c].req.Key();
    Goto(s, c, Finished(Success)).(redis := s.redis[k := s.now + DAY], marks := s.marks + [Mark(c, k, s.now)])
  }

  /** A crash loses the call; an open transaction is rolled back and its row lock released. */
  function DoCrash(s: State, c: nat): State
    requires Enabled(s, Crash(c))
  {
    var pc := s.calls[c].pc;
    var t := Goto(s, c, Finished(Crashed(pc.Committed?)));
    if HasLock(pc) then Release(t, s.calls[c].req.Row()) else t
  }

  function Next(s: State, step: Step): State
    requires Enabled(s, step)
  {
    match step
    case Begin(r) => s.(calls := s.calls + [Call(r, Ready, 0, 0)])
    case Tick(d) => s.(now := s.now + d)
    case Lookup(c) => DoLookup(s, c)
    case Authorize(c, allowed) => Goto(s, c, if allowed then Authorized else Finished(Forbidden))
    case Acquire(c) => DoAcquire(s, c)
    case Apply(c) => DoApply(s, c)
    case Commit(c) => DoCommit(s, c)
    case SetMark(c) => DoMark(s, c)
    case Crash(c) => DoCrash(s, c)
  }

  /** Any interleaving is a sequence of steps; one that is not enabled where it stands does nothing. */
  function Run(s: State, steps: seq<Step>): State
    decreases |steps|
  {
    if steps == [] then s
    else Run(if Enabled(s, steps[0]) then Next(s, steps[0]) else s, steps[1..])
  }

  // ----- Conservation -----

  /** The amounts of one kind that a log commits to an account, and how many commits are on it. */
  function Total(log: seq<Entry>, op: Op, a: string): nat {
    if log == [] then 0
    else
      var e := log[|log| - 1];
      Total(log[..|log| - 1], op, a) + if e.req.Row() == a && e.req.op == op then e.req.amount else 0
  }

  function Commits(log: seq<Entry>, a: string): nat {
    if log == [] then 0
    else Commits(log[..|log| - 1], a) + if log[|log| - 1].req.Row() == a then 1 else 0
  }

  ghost predicate Conserved(init: map<string, Account>, s: State) {
    && s.accounts.Keys == init.Keys
    && forall a | a in init :: AccountConserved(init[a], s.accounts[a], s.log, a)
  }

  ghost predicate AccountConserved(first: Account, row: Account, log: seq<Entry>, a: string) {
    && row.balance == first.balance + Total(log, Credit, a) - Total(log, Debit, a)
    && row.version == first.version + Commits(log, a)
    && row.status == first.status
    && row.balance >= 0
  }

  /** A row lock belongs to the one call that has the row, and that call's copy is up to date. */
  ghost predicate LocksHeld(s: State) {
    && (forall a | a in s.locks :: s.locks[a] < |s.calls| && HasLock(s.calls[s.locks[a]].pc)
          && s.calls[s.locks[a]].req.Row() == a)
    && (forall c | 0 <= c < |s.calls| && HasLock(s.calls[c].pc) :: HoldsRow(s, c))
  }

  ghost predicate HoldsRow(s: State, c: nat)
    requires c < |s.calls| && HasLock(s.calls[c].pc)
  {
    var r := s.calls[c].req;
    && r.Row() in s.locks && s.locks[r.Row()] == c
    && r.Row() in s.accounts
    && (s.calls[c].pc.Holding? ==> s.calls[c].pc.row == s.accounts[r.Row()])
    && (s.calls[c].pc.Staged? ==> s.calls[c].pc.row == After(s.accounts[r.Row()], r) && s.calls[c].pc.row.balance >= 0)
  }

  // ----- Idempotency -----

  /** The time of the last mark of a key. */
  function LastMark(marks: seq<Mark>, k: Idem): Option<nat> {
    if marks == [] then None
    else if marks[|marks| - 1].idem == k then Some(marks[|marks| - 1].at)
    else LastMark(marks[..|marks| - 1], k)
  }

  /** Redis holds the last mark of every key, to expire a day later. */
  ghost predicate RedisHoldsMarks(s: State) {
    && (forall i, j | 0 <= i < j < |s.marks| :: s.marks[i].at <= s.marks[j].at)
    && (forall i | 0 <= i < |s.marks| :: s.marks[i].at <= s.now)
    && (forall k :: k in s.redis <==> LastMark(s.marks, k).Some?)
    && (forall k | k in s.redis :: s.redis[k] == LastMark(s.marks, k).value + DAY)
  }

  /** A lookup that missed saw only marks that had expired. */
  ghost predicate SawOnlyExpired(marks: seq<Mark>, k: Idem, lookedUpAt: nat, marksSeen: nat) {
    && marksSeen <= |marks|
    && forall j | 0 <= j < marksSeen && marks[j].idem == k :: marks[j].at + DAY <= lookedUpAt
  }

  /** Looked up without finding its key, and not over yet. */
  predicate InFlight(pc: Pc) { !pc.Ready? && !pc.Finished? }

  predicate HasCommitted(pc: Pc) { pc.Committed? || pc == Finished(Success) || pc == Finished(Crashed(true)) }

  ghost predicate LookupsMissed(s: State) {
    && (forall c | 0 <= c < |s.calls| && InFlight(s.calls[c].pc) :: CallMissed(s, c))
    && (forall i | 0 <= i < |s.log| :: EntryMissed(s, i))
  }

  /** Every commit in the log is that of one call, no call has two, and marks come after their commits. */
  ghost predicate LogMatchesCalls(s: State) {
    && (forall i | 0 <= i < |s.log| :: EntryOf(s, i))
    && (forall i, j | 0 <= i < j < |s.log| :: s.log[i].call != s.log[j].call)
    && (forall c | 0 <= c < |s.calls| && HasCommitted(s.calls[c].pc) ::
          exists i :: 0 <= i < |s.log| && s.log[i].call == c)
    && (forall j | 0 <= j < |s.marks| :: MarkOf(s, j))
  }

  ghost predicate EntryOf(s: State, i: nat)
    requires i < |s.log|
  {
    var e := s.log[i];
    && e.call < |s.calls| && HasCommitted(s.calls[e.call].pc) && s.calls[e.call].req == e.req
    && e.lookedUpAt == s.calls[e.call].lookedUpAt && e.marksSeen == s.calls[e.call].marksSeen
    && e.at <= s.now
  }

  ghost predicate MarkOf(s: State, j: nat)
    requires j < |s.marks|
  {
    var m := s.marks[j];
    m.call < |s.calls| && s.calls[m.call].pc == Finished(Success) && s.calls[m.call].req.Key() == m.idem
  }

  ghost predicate Invariant(init: map<string, Account>, s: State) {
    Conserved(init, s) && LocksHeld(s) && RedisHoldsMarks(s) && LookupsMissed(s) && LogMatchesCalls(s)
  }

  // ----- Every step keeps the invariant -----

  /** The call a step is about, if it is about one. */
  predicate About(step: Step, c: nat) {
    match step
    case Begin(_) => false
    case Tick(_) => false
    case Lookup(d) => c == d
    case Authorize(d, _) => c == d
    case Acquire(d) => c == d
    case Apply(d) => c == d
    case Commit(d) => c == d
    case SetMark(d) => c == d
    case Crash(d) => c == d
  }

  /** How a step moves its own call on. */
  ghost predicate Moved(s: State, step: Step, before: Call, after: Call) {
    match step
    case Lookup(_) =>
      before.pc.Ready? && after ==
        if Present(s, before.req.Key()) then before.(pc := Finished(Replayed))
        else before.(pc := Checked, lookedUpAt := s.now, marksSeen := |s.marks|)
    case _ => after == before.(pc := after.pc) && MovedOn(step, before.pc, after.pc)
  }

  ghost predicate MovedOn(step: Step, before: Pc, after: Pc) {
    match step
    case Authorize(_, _) => before.Checked? && (after.Authorized? || after == Finished(Forbidden))
    case Acquire(_) => before.Authorized? && (after.Holding? || after == Finished(NotFound))
    case Apply(_) => before.Holding?
        && (after.Staged? || after == Finished(NotActive) || after == Finished(InsufficientFunds))
    case Commit(_) => before.Staged? && after.Committed?
    case SetMark(_) => before.Committed? && after == Finished(Success)
    case Crash(_) => !before.Finished? && after == Finished(Crashed(before.Committed?))
    case _ => false
  }

  /** What a step does to the records of commits and marks. */
  ghost predicate Recorded(s: State, step: Step, t: State) {
    && (if step.Commit? then
          && step.c < |s.calls|
          && t.log == s.log + [Entry(step.c, s.calls[step.c].req, s.calls[step.c].lookedUpAt,
              s.calls[step.c].marksSeen, s.now)]
        else t.log == s.log)
    && (if step.SetMark? then
          step.c < |s.calls| && t.marks == s.marks + [Mark(step.c, s.calls[step.c].req.Key(), s.now)]
        else t.marks == s.marks)
  }

  /** What a step does to calls and records, without the rows and the locks. */
  ghost predicate Stepped(s: State, step: Step, t: State) {
    && s.now <= t.now && |s.calls| <= |t.calls| && Recorded(s, step, t)
    && (forall c | 0 <= c < |s.calls| ::
          if About(step, c) then Moved(s, step, s.calls[c], t.calls[c]) else t.calls[c] == s.calls[c])
    && (forall c | |s.calls| <= c < |t.calls| :: t.calls[c].pc.Ready?)
  }

  lemma StepRecorded(s: State, step: Step)
    requires Enabled(s, step)
    ensures Recorded(s, step, Next(s, step)) && s.now <= Next(s, step).now && |s.calls| <= |Next(s, step).calls|
  {
  }

  lemma OwnMoved(s: State, step: Step, c: nat)
    requires Enabled(s, step) && About(step, c)
    ensures c < |s.calls| && |Next(s, step).calls| == |s.calls|
    ensures Moved(s, step, s.calls[c], Next(s, step).calls[c])
  {
  }

  lemma OtherStays(s: State, step: Step, c: nat)
    requires Enabled(s, step) && c < |Next(s, step).calls| && !About(step, c)
    ensures if c < |s.calls| then Next(s, step).calls[c] == s.calls[c] else Next(s, step).calls[c].pc.Ready?
  {
  }

  lemma StepIsStepped(s: State, step: Step)
    requires Enabled(s, step)
    ensures Stepped(s, step, Next(s, step))
  {
    StepRecorded(s, step);
    forall c | 0 <= c < |Next(s, step).calls| && !About(step, c)
      ensures if c < |s.calls| then Next(s, step).calls[c] == s.calls[c] else Next(s, step).calls[c].pc.Ready?
    {
      OtherStays(s, step, c);
    }
    forall c | 0 <= c < |s.calls| && About(step, c) ensures Moved(s, step, s.calls[c], Next(s, step).calls[c]) {
      OwnMoved(s, step, c);
    }
  }

  lemma TotalAppend(log: seq<Entry>, e: Entry, a: string)
    ensures forall op ::
      Total(log + [e], op, a) == Total(log, op, a) + if e.req.Row() == a && e.req.op == op then e.req.amount else 0
    ensures Commits(log + [e], a) == Commits(log, a) + if e.req.Row() == a then 1 else 0
  {
  }

  lemma CommitConserves(init: map<string, Account>, s: State, c: nat)
    requires Conserved(init, s) && LocksHeld(s) && Enabled(s, Commit(c))
    ensures Conserved(init, DoCommit(s, c))
  {
    var t := DoCommit(s, c);
    assert HoldsRow(s, c);
    forall a | a in init ensures AccountConserved(init[a], t.accounts[a], t.log, a) {
      TotalAppend(s.log, t.log[|s.log|], a);
      assert AccountConserved(init[a], s.accounts[a], s.log, a);
    }
  }

  lemma RowsUntouched(s: State, step: Step)
    requires Enabled(s, step) && !step.Commit?
    ensures Next(s, step).accounts == s.accounts && Next(s, step).log == s.log
  {
  }

  lemma StepConserves(init: map<string, Account>, s: State, step: Step)
    requires Conserved(init, s) && LocksHeld(s) && Enabled(s, step)
    ensures Conserved(init, Next(s, step))
  {
    if step.Commit? { CommitConserves(init, s, step.c); } else { RowsUntouched(s, step); }
  }

  /** The locks and the calls holding them are left alone. */
  ghost predicate KeepsHolders(s: State, t: State) {
    && t.locks == s.locks && t.accounts == s.accounts && |s.calls| <= |t.calls|
    && (forall c | 0 <= c < |t.calls| :: HasLock(t.calls[c].pc) ==> c < |s.calls| && t.calls[c] == s.calls[c])
    && (forall c | 0 <= c < |s.calls| :: HasLock(s.calls[c].pc) ==> t.calls[c] == s.calls[c])
  }

  predicate WithoutLock(s: State, step: Step)
    requires Enabled(s, step)
  {
    !step.Acquire? && !step.Apply? && !step.Commit? && !(step.Crash? && HasLock(s.calls[step.c].pc))
  }

  lemma QuietKeepsHolders(s: State, step: Step)
    requires Enabled(s, step) && WithoutLock(s, step)
    ensures KeepsHolders(s, Next(s, step))
  {
  }

  lemma QuietHoldsLocks(s: State, t: State)
    requires LocksHeld(s) && KeepsHolders(s, t)
    ensures LocksHeld(t)
  {
  }

  /** A step that ends a call's hold on its row, whatever it writes there. */
  lemma ReleaseHoldsLocks(s: State, t: State, c: nat)
    requires LocksHeld(s) && c < |s.calls| && HasLock(s.calls[c].pc)
    requires |t.calls| == |s.calls| && !HasLock(t.calls[c].pc)
    requires forall d | 0 <= d < |s.calls| && d != c :: t.calls[d] == s.calls[d]
    requires t.locks == s.locks - {s.calls[c].req.Row()}
    requires t.accounts.Keys == s.accounts.Keys
    requires forall a | a in s.accounts && a != s.calls[c].req.Row() :: t.accounts[a] == s.accounts[a]
    ensures LocksHeld(t)
  {
  }

  lemma AcquireHoldsLocks(s: State, c: nat)
    requires LocksHeld(s) && Enabled(s, Acquire(c))
    ensures LocksHeld(DoAcquire(s, c))
  {
    var t := DoAcquire(s, c);
    if s.calls[c].req.Row() !in s.accounts {
      QuietHoldsLocks(s, t);
    } else {
      forall d | 0 <= d < |t.calls| && HasLock(t.calls[d].pc) ensures HoldsRow(t, d) {
        if d != c { assert HoldsRow(s, d); }
      }
    }
  }

  lemma ApplyHoldsLocks(s: State, c: nat)
    requires LocksHeld(s) && Enabled(s, Apply(c))
    requires forall a | a in s.accounts :: s.accounts[a].balance >= 0
    ensures LocksHeld(DoApply(s, c))
  {
    var t := DoApply(s, c);
    assert HoldsRow(s, c);
    if Refusal(s.calls[c].pc.row, s.calls[c].req).Some? {
      ReleaseHoldsLocks(s, t, c);
    } else {
      forall d | 0 <= d < |t.calls| && HasLock(t.calls[d].pc) ensures HoldsRow(t, d) {
        assert HoldsRow(s, d);
      }
    }
  }

  lemma CommitHoldsLocks(s: State, c: nat)
    requires LocksHeld(s) && Enabled(s, Commit(c))
    ensures LocksHeld(DoCommit(s, c))
  {
  }

  lemma CrashHoldsLocks(s: State, c: nat)
    requires LocksHeld(s) && Enabled(s, Crash(c)) && HasLock(s.calls[c].pc)
    ensures LocksHeld(DoCrash(s, c))
  {
  }

  lemma StepHoldsLocks(s: State, step: Step)
    requires LocksHeld(s) && Enabled(s, step)
    requires forall a | a in s.accounts :: s.accounts[a].balance >= 0
    ensures LocksHeld(Next(s, step))
  {
    if WithoutLock(s, step) {
      QuietKeepsHolders(s, step);
      QuietHoldsLocks(s, Next(s, step));
    } else {
      match step
      case Acquire(c) => AcquireHoldsLocks(s, c);
      case Apply(c) => ApplyHoldsLocks(s, c);
      case Commit(c) => CommitHoldsLocks(s, c);
      case Crash(c) => CrashHoldsLocks(s, c);
    }
  }

  lemma LastMarkAppend(marks: seq<Mark>, m: Mark, k: Idem)
    ensures LastMark(marks + [m], k) == if m.idem == k then Some(m.at) else LastMark(marks, k)
  {
  }

  lemma MarkKeepsRedis(s: State, t: State, m: Mark)
    requires RedisHoldsMarks(s) && m.at == s.now == t.now
    requires t.marks == s.marks + [m] && t.redis == s.redis[m.idem := s.now + DAY]
    ensures RedisHoldsMarks(t)
  {
    forall k ensures LastMark(t.marks, k) == if m.idem == k then Some(m.at) else LastMark(s.marks, k) {
      LastMarkAppend(s.marks, m, k);
    }
  }

  lemma RedisUntouched(s: State, step: Step)
    requires Enabled(s, step) && !step.SetMark?
    ensures var t := Next(s, step); t.redis == s.redis && t.marks == s.marks && s.now <= t.now
  {
  }

  lemma StepKeepsRedis(s: State, step: Step)
    requires RedisHoldsMarks(s) && Enabled(s, step)
    ensures RedisHoldsMarks(Next(s, step))
  {
    if step.SetMark? {
      MarkKeepsRedis(s, DoMark(s, step.c), Mark(step.c, s.calls[step.c].req.Key(), s.now));
    } else {
      RedisUntouched(s, step);
    }
  }

  lemma {:induction false} LastMarkIsLatest(marks: seq<Mark>, k: Idem)
    requires forall i, j | 0 <= i < j < |marks| :: marks[i].at <= marks[j].at
    ensures LastMark(marks, k).Some? <==> exists j :: 0 <= j < |marks| && marks[j].idem == k
    ensures LastMark(marks, k).Some? ==>
      && (exists j :: 0 <= j < |marks| && marks[j].idem == k && marks[j].at == LastMark(marks, k).value)
      && (forall j | 0 <= j < |marks| && marks[j].idem == k :: marks[j].at <= LastMark(marks, k).value)
  {
    if marks != [] {
      var n := |marks| - 1;
      var before := marks[..n];
      LastMarkIsLatest(before, k);
      assert forall j | 0 <= j < n :: before[j] == marks[j];
      assert marks[n].idem == k ==> LastMark(marks, k) == Some(marks[n].at);
    }
  }

  /** A lookup finds its key exactly when some mark of it is less than a day old. */
  lemma LookupExact(s: State, k: Idem)
    requires RedisHoldsMarks(s)
    ensures Present(s, k) <==> exists j :: 0 <= j < |s.marks| && s.marks[j].idem == k && s.now < s.marks[j].at + 86400
  {
    LastMarkIsLatest(s.marks, k);
  }

  ghost predicate CallMissed(s: State, c: nat)
    requires c < |s.calls|
  {
    SawOnlyExpired(s.marks, s.calls[c].req.Key(), s.calls[c].lookedUpAt, s.calls[c].marksSeen)
  }

  ghost predicate EntryMissed(s: State, i: nat)
    requires i < |s.log|
  {
    SawOnlyExpired(s.marks, s.log[i].req.Key(), s.log[i].lookedUpAt, s.log[i].marksSeen)
  }

  lemma LookupMisses(s: State, c: nat)
    requires RedisHoldsMarks(s) && c < |s.calls| && !Present(s, s.calls[c].req.Key())
    ensures SawOnlyExpired(s.marks, s.calls[c].req.Key(), s.now, |s.marks|)
  {
    LookupExact(s, s.calls[c].req.Key());
  }

  lemma StepMissesLookups(s: State, step: Step, t: State)
    requires RedisHoldsMarks(s) && LookupsMissed(s) && Stepped(s, step, t)
    requires step.Commit? ==> step.c < |s.calls| && s.calls[step.c].pc.Staged?
    ensures LookupsMissed(t)
  {
    forall c | 0 <= c < |t.calls| && InFlight(t.calls[c].pc) ensures CallMissed(t, c) {
      if step == Lookup(c) {
        LookupMisses(s, c);
      } else {
        assert CallMissed(s, c);
      }
    }
    forall i | 0 <= i < |t.log| ensures EntryMissed(t, i) {
      if i < |s.log| { assert EntryMissed(s, i); } else { assert CallMissed(s, step.c); }
    }
  }

  /** The commits, the marks and the calls that have committed are left alone. */
  ghost predicate KeepsCommitted(s: State, t: State) {
    && t.log == s.log && t.marks == s.marks && s.now <= t.now && |s.calls| <= |t.calls|
    && (forall c | 0 <= c < |s.calls| && HasCommitted(s.calls[c].pc) ::
          && t.calls[c] == s.calls[c].(pc := t.calls[c].pc) && HasCommitted(t.calls[c].pc)
          && (s.calls[c].pc == Finished(Success) ==> t.calls[c].pc == Finished(Success)))
    && (forall c | 0 <= c < |t.calls| && HasCommitted(t.calls[c].pc) :: c < |s.calls| && HasCommitted(s.calls[c].pc))
  }

  lemma QuietKeepsCommitted(s: State, step: Step, t: State)
    requires Stepped(s, step, t) && !step.Commit? && !step.SetMark?
    ensures KeepsCommitted(s, t)
  {
  }

  lemma QuietMatchesLog(s: State, t: State)
    requires LogMatchesCalls(s) && KeepsCommitted(s, t)
    ensures LogMatchesCalls(t)
  {
    forall i | 0 <= i < |t.log| ensures EntryOf(t, i) { assert EntryOf(s, i); }
    forall j | 0 <= j < |t.marks| ensures MarkOf(t, j) { assert MarkOf(s, j); }
  }

  lemma CommitMatchesLog(s: State, c: nat)
    requires LogMatchesCalls(s) && Enabled(s, Commit(c))
    ensures LogMatchesCalls(DoCommit(s, c))
  {
    var t := DoCommit(s, c);
    forall i | 0 <= i < |s.log| ensures EntryOf(t, i) && s.log[i].call != c { assert EntryOf(s, i); }
    forall j | 0 <= j < |t.marks| ensures MarkOf(t, j) { assert MarkOf(s, j); }
    forall d | 0 <= d < |t.calls| && HasCommitted(t.calls[d].pc)
      ensures exists i :: 0 <= i < |t.log| && t.log[i].call == d
    {
      if d == c {
        assert t.log[|s.log|].call == c;
      } else {
        var i :| 0 <= i < |s.log| && s.log[i].call == d;
        assert t.log[i] == s.log[i];
      }
    }
  }

  lemma MarkMatchesLog(s: State, c: nat)
    requires LogMatchesCalls(s) && Enabled(s, SetMark(c))
    ensures LogMatchesCalls(DoMark(s, c))
  {
    var t := DoMark(s, c);
    forall i | 0 <= i < |t.log| ensures EntryOf(t, i) { assert EntryOf(s, i); }
    forall j | 0 <= j < |s.marks| ensures MarkOf(t, j) { assert MarkOf(s, j); }
  }

  lemma StepMatchesLog(s: State, step: Step)
    requires LogMatchesCalls(s) && Enabled(s, step)
    ensures LogMatchesCalls(Next(s, step))
  {
    if step.Commit? {
      CommitMatchesLog(s, step.c);
    } else if step.SetMark? {
      MarkMatchesLog(s, step.c);
    } else {
      StepIsStepped(s, step);
      QuietKeepsCommitted(s, step, Next(s, step));
      QuietMatchesLog(s, Next(s, step));
    }
  }

  lemma StepKeepsInvariant(init: map<string, Account>, s: State, step: Step)
    requires Invariant(init, s) && Enabled(s, step)
    ensures Invariant(init, Next(s, step))
  {
    StepConserves(init, s, step);
    forall a | a in s.accounts ensures s.accounts[a].balance >= 0 {
      assert AccountConserved(init[a], s.accounts[a], s.log, a);
    }
    StepHoldsLocks(s, step);
    StepKeepsRedis(s, step);
    StepIsStepped(s, step);
    StepMissesLookups(s, step, Next(s, step));
    StepMatchesLog(s, step);
  }

  /** No interleaving of any number of calls, on any accounts, with crashes between any two steps,
      breaks the books: balances add up, stay non-negative, and versions count the commits. */
  lemma {:induction false} RunsKeepInvariant(init: map<string, Account>, s: State, steps: seq<Step>)
    requires Invariant(init, s)
    ensures Invariant(init, Run(s, steps))
    decreases |steps|
  {
    if steps != [] {
      if Enabled(s, steps[0]) {
        StepKeepsInvariant(init, s, steps[0]);
        RunsKeepInvariant(init, Next(s, steps[0]), steps[1..]);
      } else {
        RunsKeepInvariant(init, s, steps[1..]);
      }
    }
  }

  // ----- Main results over all interleavings -----

  lemma InitialInvariant(init: map<string, Account>)
    requires forall a | a in init :: init[a].balance >= 0
    ensures Invariant(init, Init(init))
  {
  }

  /** In every interleaving, every account's balance is its first balance plus what was committed,
      and is not negative; its version has grown by the number of commits. */
  lemma BooksBalance(init: map<string, Account>, steps: seq<Step>, a: string)
    requires a in init && forall b | b in init :: init[b].balance >= 0
    ensures var s := Run(Init(init), steps);
      && a in s.accounts
      && s.accounts[a].balance == init[a].balance + Total(s.log, Credit, a) - Total(s.log, Debit, a) >= 0
      && s.accounts[a].version == init[a].version + Commits(s.log, a)
      && s.accounts[a].status == init[a].status
  {
    InitialInvariant(init);
    RunsKeepInvariant(init, Init(init), steps);
    var s := Run(Init(init), steps);
    assert AccountConserved(init[a], s.accounts[a], s.log, a);
  }

  /** Whatever commits within a day of a mark of its key had looked the key up before that mark was set;
      one call commits once. */
  lemma IdempotencyWindow(init: map<string, Account>, steps: seq<Step>, i: nat, j: nat)
    requires forall b | b in init :: init[b].balance >= 0
    requires var s := Run(Init(init), steps); i < |s.log| && j < |s.marks|
    ensures var s := Run(Init(init), steps);
      s.log[i].req.Key() == s.marks[j].idem && s.log[i].lookedUpAt < s.marks[j].at + 86400 ==> s.log[i].marksSeen <= j
    ensures var s := Run(Init(init), steps);
      forall k | 0 <= k < |s.log| && k != i :: s.log[k].call != s.log[i].call
  {
    InitialInvariant(init);
    RunsKeepInvariant(init, Init(init), steps);
    var s := Run(Init(init), steps);
    assert EntryMissed(s, i);
  }

  // ----- Two calls with one key -----

  lemma RunStep(s: State, step: Step, rest: seq<Step>)
    ensures Run(s, [step] + rest) == Run(if Enabled(s, step) then Next(s, step) else s, rest)
  {
  }

  /** The steps of one call up to its policy decision, and from the row lock to the commit. */
  function Ask(c: nat, allowed: bool): seq<Step> { [Lookup(c)] + ([Authorize(c, allowed)] + []) }

  function Write(c: nat): seq<Step> { [Acquire(c)] + ([Apply(c)] + ([Commit(c)] + [])) }

  lemma {:induction false} RunConcat(s: State, a: seq<Step>, b: seq<Step>)
    ensures Run(s, a + b) == Run(Run(s, a), b)
    decreases |a|
  {
    if a == [] {
      assert a + b == b;
    } else {
      assert a + b == [a[0]] + (a[1..] + b);
      RunStep(s, a[0], a[1..] + b);
      RunConcat(if Enabled(s, a[0]) then Next(s, a[0]) else s, a[1..], b);
    }
  }

  lemma AskRuns(s: State, c: nat)
    requires c < |s.calls| && s.calls[c].pc.Ready? && !Present(s, s.calls[c].req.Key())
    ensures Run(s, Ask(c, true)) == s.(calls := s.calls[c := Call(s.calls[c].req, Authorized, s.now, |s.marks|)])
  {
    var s1 := DoLookup(s, c);
    RunStep(s, Lookup(c), [Authorize(c, true)] + []);
    RunStep(s1, Authorize(c, true), []);
  }

  lemma WriteRuns(s: State, c: nat)
    requires c < |s.calls| && s.calls[c].pc.Authorized?
    requires var a := s.calls[c].req.Row();
      a !in s.locks && a in s.accounts && Refusal(s.accounts[a], s.calls[c].req).None?
    ensures var call := s.calls[c]; var a := call.req.Row(); var t := Run(s, Write(c));
      && t.accounts == s.accounts[a := After(s.accounts[a], call.req)]
      && t.calls == s.calls[c := call.(pc := Committed)]
      && t.log == s.log + [Entry(c, call.req, call.lookedUpAt, call.marksSeen, s.now)]
      && t.locks == s.locks && t.redis == s.redis && t.marks == s.marks && t.now == s.now
  {
    var a := s.calls[c].req.Row();
    var s1 := DoAcquire(s, c);
    var s2 := DoApply(s1, c);
    RunStep(s, Acquire(c), [Apply(c)] + ([Commit(c)] + []));
    RunStep(s1, Apply(c), [Commit(c)] + []);
    RunStep(s2, Commit(c), []);
    assert s.locks[a := c] - {a} == s.locks;
  }

  /** One call, from its beginning to its commit. */
  lemma CallCommits(s: State, r: Request) returns (steps: seq<Step>)
    requires !Present(s, r.Key()) && r.Row() !in s.locks && r.Row() in s.accounts
    requires Refusal(s.accounts[r.Row()], r).None?
    ensures var n := |s.calls|; Run(s, steps) == s.(
      accounts := s.accounts[r.Row() := After(s.accounts[r.Row()], r)],
      calls := s.calls + [Call(r, Committed, s.now, |s.marks|)],
      log := s.log + [Entry(n, r, s.now, |s.marks|, s.now)])
  {
    var c := |s.calls|;
    var s1 := Next(s, Begin(r));
    AskRuns(s1, c);
    var s2 := Run(s1, Ask(c, true));
    WriteRuns(s2, c);
    steps := [Begin(r)] + (Ask(c, true) + Write(c));
    RunStep(s, Begin(r), Ask(c, true) + Write(c));
    RunConcat(s1, Ask(c, true), Write(c));
  }

  /** The key does not stop two calls that overlap: from every state where the row is free and can bear
      the request twice and the key is absent, two calls with the same key can both commit, one of them
      after the other has set its mark. */
  lemma OverlapCommitsTwice(s: State, r: Request) returns (steps: seq<Step>)
    requires !Present(s, r.Key()) && r.Row() !in s.locks && r.Row() in s.accounts
    requires Refusal(s.accounts[r.Row()], r).None? && Refusal(After(s.accounts[r.Row()], r), r).None?
    ensures var t := Run(s, steps); var n := |s.log|;
      && |t.log| == n + 2 && t.log[..n] == s.log
      && t.log[n].req == r && t.log[n + 1].req == r && t.log[n].call != t.log[n + 1].call
      && |t.marks| == |s.marks| + 1 && t.marks[|s.marks|].idem == r.Key() && t.now == s.now
      && r.Row() in t.accounts
      && t.accounts[r.Row()].balance
           == s.accounts[r.Row()].balance + (if r.op.Credit? then 2 * r.amount else -2 * r.amount)
  {
    var d, c := |s.calls|, |s.calls| + 1;
    var s1 := Next(s, Begin(r));
    AskRuns(s1, d);
    var s2 := Run(s1, Ask(d, true));
    var whole := CallCommits(s2, r);
    var s3 := Run(s2, whole);
    var s4 := Next(s3, SetMark(c));
    WriteRuns(s4, d);
    var rest := whole + ([SetMark(c)] + Write(d));
    steps := [Begin(r)] + (Ask(d, true) + rest);
    RunStep(s, Begin(r), Ask(d, true) + rest);
    RunConcat(s1, Ask(d, true), rest);
    RunConcat(s2, whole, [SetMark(c)] + Write(d));
    RunStep(s3, SetMark(c), Write(d));
  }

  /** Nor does it stop a retry after a crash between the commit and the mark. */
  lemma CrashCommitsTwice(s: State, r: Request) returns (steps: seq<Step>)
    requires !Present(s, r.Key()) && r.Row() !in s.locks && r.Row() in s.accounts
    requires Refusal(s.accounts[r.Row()], r).None? && Refusal(After(s.accounts[r.Row()], r), r).None?
    ensures var t := Run(s, steps); var n := |s.log|;
      && |t.log| == n + 2 && t.log[..n] == s.log
      && t.log[n].req == r && t.log[n + 1].req == r && t.log[n].call != t.log[n + 1].call
      && t.log[n].call < |t.calls| && t.calls[t.log[n].call].pc == Finished(Crashed(true))
      && t.marks == s.marks && t.now == s.now
  {
    var first := CallCommits(s, r);
    var t := Run(s, first);
    var u := Next(t, Crash(|s.calls|));
    var second := CallCommits(u, r);
    steps := first + ([Crash(|s.calls|)] + second);
    RunConcat(s, first, [Crash(|s.calls|)] + second);
    RunStep(t, Crash(|s.calls|), second);
  }

  // ----- When a key commits once -----

  /** Looked up without finding its key, and not committed: the call may still commit. */
  predicate Pending(pc: Pc) { InFlight(pc) && !pc.Committed? }

  ghost predicate NoneElsePending(s: State, c: nat)
    requires c < |s.calls|
  {
    forall d | 0 <= d < |s.calls| && d != c && s.calls[d].req.Key() == s.calls[c].req.Key() ::
      !Pending(s.calls[d].pc)
  }

  /** A call about to look up its key is clear to do so: no other call with the key may still commit, and
      every commit of the key is a day old. */
  ghost predicate Clear(s: State, c: nat)
    requires c < |s.calls|
  {
    && NoneElsePending(s, c)
    && (forall i | 0 <= i < |s.log| && s.log[i].req.Key() == s.calls[c].req.Key() :: s.log[i].at + 86400 <= s.now)
  }

  /** A lookup in the run is clear unless it finds its key. */
  ghost predicate StepIsClear(s: State, step: Step) {
    step.Lookup? && step.c < |s.calls| && !Present(s, s.calls[step.c].req.Key()) ==> Clear(s, step.c)
  }

  /** Every lookup of the run that misses its key is clear. */
  ghost predicate Serialized(s: State, steps: seq<Step>)
    decreases |steps|
  {
    steps != [] ==>
      if Enabled(s, steps[0]) then
        StepIsClear(s, steps[0]) && Serialized(Next(s, steps[0]), steps[1..])
      else Serialized(s, steps[1..])
  }

  // What serialized lookups maintain.

  /** No two calls with one key may still commit. */
  ghost predicate OnePending(s: State) {
    forall c, d | 0 <= c < |s.calls| && 0 <= d < |s.calls| && c != d :: !Rivals(s.calls[c], s.calls[d])
  }

  predicate Rivals(c: Call, d: Call) { c.req.Key() == d.req.Key() && Pending(c.pc) && Pending(d.pc) }

  /** A call that may still commit looked its key up a day or more after every commit of the key. */
  ghost predicate LookedUpLate(s: State) {
    forall i, c | 0 <= i < |s.log| && 0 <= c < |s.calls| && Pending(s.calls[c].pc)
      && s.log[i].req.Key() == s.calls[c].req.Key() :: s.log[i].at + 86400 <= s.calls[c].lookedUpAt
  }

  /** Of two commits of one key, the later one's lookup came a day after the earlier one. */
  ghost predicate CommitsApart(log: seq<Entry>) {
    forall i, j | 0 <= i < j < |log| && log[i].req.Key() == log[j].req.Key() :: log[i].at + 86400 <= log[j].lookedUpAt
  }

  ghost predicate Apart(s: State) { OnePending(s) && LookedUpLate(s) && CommitsApart(s.log) }

  /** A step other than a lookup lets no call become pending and changes no lookup. */
  lemma PendingBefore(s: State, step: Step, t: State, c: nat)
    requires Stepped(s, step, t) && c < |t.calls| && Pending(t.calls[c].pc)
    ensures c < |s.calls| && t.calls[c].req == s.calls[c].req
    ensures if step == Lookup(c) then !Present(s, s.calls[c].req.Key()) && t.calls[c].lookedUpAt == s.now
            else Pending(s.calls[c].pc) && t.calls[c].lookedUpAt == s.calls[c].lookedUpAt
    ensures step != Commit(c)
  {
  }

  lemma StepOnePending(s: State, step: Step, t: State)
    requires OnePending(s) && Stepped(s, step, t) && StepIsClear(s, step)
    ensures OnePending(t)
  {
    forall c, d | 0 <= c < |t.calls| && 0 <= d < |t.calls| && c != d ensures !Rivals(t.calls[c], t.calls[d]) {
      if Pending(t.calls[c].pc) && Pending(t.calls[d].pc) {
        PendingBefore(s, step, t, c);
        PendingBefore(s, step, t, d);
        assert !Rivals(s.calls[c], s.calls[d]);
      }
    }
  }

  lemma StepLooksLate(s: State, step: Step, t: State)
    requires OnePending(s) && LookedUpLate(s) && Stepped(s, step, t) && StepIsClear(s, step)
    requires step.Commit? ==> step.c < |s.calls| && s.calls[step.c].pc.Staged?
    ensures LookedUpLate(t)
  {
    forall i, c | 0 <= i < |t.log| && 0 <= c < |t.calls| && Pending(t.calls[c].pc)
        && t.log[i].req.Key() == t.calls[c].req.Key()
      ensures t.log[i].at + 86400 <= t.calls[c].lookedUpAt
    {
      PendingBefore(s, step, t, c);
      if step.Commit? { assert !Rivals(s.calls[c], s.calls[step.c]); }
    }
  }

  lemma StepCommitsApart(s: State, step: Step, t: State)
    requires LookedUpLate(s) && CommitsApart(s.log) && Recorded(s, step, t)
    requires step.Commit? ==> step.c < |s.calls| && s.calls[step.c].pc.Staged?
    ensures CommitsApart(t.log)
  {
  }

  lemma StepStaysApart(s: State, step: Step)
    requires Apart(s) && Enabled(s, step) && StepIsClear(s, step)
    ensures Apart(Next(s, step))
  {
    StepIsStepped(s, step);
    StepOnePending(s, step, Next(s, step));
    StepLooksLate(s, step, Next(s, step));
    StepCommitsApart(s, step, Next(s, step));
  }

  lemma {:induction false} SerializedRuns(s: State, steps: seq<Step>)
    requires Apart(s) && Serialized(s, steps)
    ensures Apart(Run(s, steps))
    decreases |steps|
  {
    if steps != [] {
      if Enabled(s, steps[0]) {
        StepStaysApart(s, steps[0]);
        SerializedRuns(Next(s, steps[0]), steps[1..]);
      } else {
        SerializedRuns(s, steps[1..]);
      }
    }
  }

  /** When every missing lookup is clear, each key commits at most once a day, in every interleaving and
      with any crashes. */
  lemma SerializedCommitsOnce(init: map<string, Account>, steps: seq<Step>)
    requires Serialized(Init(init), steps)
    ensures CommitsApart(Run(Init(init), steps).log)
  {
    SerializedRuns(Init(init), steps);
  }

  // ----- And when it does not -----

  predicate BearsOne(accounts: map<string, Account>, r: Request) {
    r.Row() in accounts && Refusal(accounts[r.Row()], r).None?
  }

  /** The rows can bear one request and then another. */
  predicate BearsTwo(accounts: map<string, Account>, q: Request, r: Request) {
    BearsOne(accounts, q) && BearsOne(accounts[q.Row() := After(accounts[q.Row()], q)], r)
  }

  lemma BearsTwoExactly(accounts: map<string, Account>, q: Request, r: Request)
    requires q.op == r.op && q.Row() == r.Row()
    ensures BearsTwo(accounts, q, r) <==>
      && r.Row() in accounts && accounts[r.Row()].status == "active"
      && (r.op == Debit ==> q.amount + r.amount <= accounts[r.Row()].balance)
  {
  }

  /** The row of a call can bear it, and also after any one other call with its key that may still commit. */
  ghost predicate Bears(s: State, c: nat)
    requires c < |s.calls|
  {
    && BearsOne(s.accounts, s.calls[c].req)
    && forall d | 0 <= d < |s.calls| && d != c && Pending(s.calls[d].pc)
         && s.calls[d].req.Key() == s.calls[c].req.Key() ::
         BearsTwo(s.accounts, s.calls[d].req, s.calls[c].req)
  }

  predicate NoLookups(steps: seq<Step>) { forall i | 0 <= i < |steps| :: !steps[i].Lookup? }

  lemma {:induction false} NoLookupsSerialized(s: State, steps: seq<Step>)
    requires NoLookups(steps)
    ensures Serialized(s, steps)
    decreases |steps|
  {
    if steps != [] {
      NoLookupsSerialized(if Enabled(s, steps[0]) then Next(s, steps[0]) else s, steps[1..]);
    }
  }

  /** Only calls that hold a row differ, and only locks. */
  ghost predicate SameButLocks(s: State, t: State) {
    && t == s.(locks := t.locks, calls := t.calls) && |t.calls| == |s.calls|
    && forall c | 0 <= c < |s.calls| && !HasLock(s.calls[c].pc) :: t.calls[c] == s.calls[c]
  }

  /** A row can be freed by a crash of the call that holds it. */
  lemma FreeRow(s: State, a: string) returns (steps: seq<Step>)
    requires LocksHeld(s)
    ensures NoLookups(steps) && a !in Run(s, steps).locks && SameButLocks(s, Run(s, steps))
  {
    if a in s.locks {
      var e := s.locks[a];
      steps := [Crash(e)] + [];
      RunStep(s, Crash(e), []);
    } else {
      steps := [];
    }
  }

  /** What a commit of a call leaves: its entry, its change of the row, and the row free. */
  ghost predicate CommittedNow(s: State, t: State, d: nat)
    requires d < |s.calls|
  {
    var call := s.calls[d];
    && call.req.Row() in s.accounts && call.req.Row() !in t.locks && t.now == s.now
    && t.accounts == s.accounts[call.req.Row() := After(s.accounts[call.req.Row()], call.req)]
    && t.log == s.log + [Entry(d, call.req, call.lookedUpAt, call.marksSeen, s.now)]
    && |t.calls| == |s.calls|
    && forall c | 0 <= c < |s.calls| && c != d && !HasLock(s.calls[c].pc) :: t.calls[c] == s.calls[c]
  }

  lemma CommitAuthorized(s: State, d: nat) returns (steps: seq<Step>)
    requires LocksHeld(s) && d < |s.calls| && s.calls[d].pc.Authorized? && s.calls[d].req.Row() in s.accounts
    requires Refusal(s.accounts[s.calls[d].req.Row()], s.calls[d].req).None?
    ensures NoLookups(steps) && CommittedNow(s, Run(s, steps), d)
  {
    var free := FreeRow(s, s.calls[d].req.Row());
    var t := Run(s, free);
    RunConcat(s, free, Write(d));
    WriteRuns(t, d);
    steps := free + Write(d);
  }

  lemma CommitHolding(s: State, d: nat) returns (steps: seq<Step>)
    requires LocksHeld(s) && d < |s.calls| && HasLock(s.calls[d].pc) && s.calls[d].req.Row() in s.accounts
    requires Refusal(s.accounts[s.calls[d].req.Row()], s.calls[d].req).None?
    ensures NoLookups(steps) && CommittedNow(s, Run(s, steps), d)
  {
    assert HoldsRow(s, d);
    if s.calls[d].pc.Staged? {
      steps := [Commit(d)] + [];
      RunStep(s, Commit(d), []);
    } else {
      var t := DoApply(s, d);
      steps := [Apply(d)] + ([Commit(d)] + []);
      RunStep(s, Apply(d), [Commit(d)] + []);
      RunStep(t, Commit(d), []);
    }
  }

  /** Any call that may still commit can do so next, if its row can bear it. */
  lemma CommitPending(s: State, d: nat) returns (steps: seq<Step>)
    requires LocksHeld(s) && d < |s.calls| && Pending(s.calls[d].pc) && s.calls[d].req.Row() in s.accounts
    requires Refusal(s.accounts[s.calls[d].req.Row()], s.calls[d].req).None?
    ensures NoLookups(steps) && CommittedNow(s, Run(s, steps), d)
  {
    if HasLock(s.calls[d].pc) {
      steps := CommitHolding(s, d);
    } else if s.calls[d].pc.Authorized? {
      steps := CommitAuthorized(s, d);
    } else {
      var t := Next(s, Authorize(d, true));
      QuietKeepsHolders(s, Authorize(d, true));
      QuietHoldsLocks(s, t);
      var rest := CommitAuthorized(t, d);
      steps := [Authorize(d, true)] + rest;
      RunStep(s, Authorize(d, true), rest);
    }
  }

  /** A commit of the key less than a day ago, and a call just after its lookup. */
  lemma RecentCommitted(init: map<string, Account>, s: State, c: nat, i: nat) returns (rest: seq<Step>)
    requires Invariant(init, s) && c < |s.calls| && i < |s.log| && s.log[i].req.Key() == s.calls[c].req.Key()
    requires s.calls[c].pc.Checked? && s.calls[c].lookedUpAt == s.now < s.log[i].at + 86400 && Bears(s, c)
    ensures NoLookups(rest) && !CommitsApart(Run(s, rest).log)
  {
    rest := CommitPending(s, c);
    var log := Run(s, rest).log;
    assert log[i] == s.log[i] && log[|s.log|].lookedUpAt == s.now && log[|s.log|].req == s.calls[c].req;
  }

  /** Two calls with one key that may both still commit, the one just after its lookup. */
  lemma RivalsCommit(init: map<string, Account>, s: State, c: nat, d: nat) returns (rest: seq<Step>)
    requires Invariant(init, s) && c < |s.calls| && d < |s.calls| && c != d && Rivals(s.calls[c], s.calls[d])
    requires s.calls[c].pc.Checked? && s.calls[c].lookedUpAt == s.now && Bears(s, c)
    ensures NoLookups(rest) && !CommitsApart(Run(s, rest).log)
  {
    assert BearsTwo(s.accounts, s.calls[d].req, s.calls[c].req);
    var first := CommitPending(s, d);
    var t := Run(s, first);
    assert LocksHeld(t) by { RunsKeepInvariant(init, s, first); }
    var second := CommitPending(t, c);
    rest := first + second;
    RunConcat(s, first, second);
    TwoCommits(s, t, Run(t, second), c, d);
  }

  lemma TwoCommits(s: State, t: State, u: State, c: nat, d: nat)
    requires c < |s.calls| && d < |s.calls| && CommittedNow(s, t, d) && CommittedNow(t, u, c)
    requires s.calls[c].req.Key() == s.calls[d].req.Key() && t.calls[c] == s.calls[c] && s.calls[c].lookedUpAt == s.now
    ensures !CommitsApart(u.log)
  {
    var n := |s.log|;
    assert u.log[n].req == s.calls[d].req && u.log[n].at == s.now;
    assert u.log[n + 1].req == s.calls[c].req && u.log[n + 1].lookedUpAt == s.now;
  }

  /** A lookup that misses changes nothing but where its call stands. */
  lemma LookedUp(s: State, c: nat)
    requires Enabled(s, Lookup(c)) && !Present(s, s.calls[c].req.Key()) && Bears(s, c)
    ensures var t := Next(s, Lookup(c));
      && t == s.(calls := t.calls) && |t.calls| == |s.calls|
      && t.calls[c].req == s.calls[c].req && t.calls[c].pc.Checked? && t.calls[c].lookedUpAt == t.now
      && (forall d | 0 <= d < |s.calls| && d != c :: t.calls[d] == s.calls[d])
      && Bears(t, c)
  {
  }

  /** A lookup that is not clear is harmful: from any reachable state, when it misses and the row can bear
      it, some continuation without further lookups commits the key twice within a day. */
  lemma UnclearCommitsTwice(init: map<string, Account>, s: State, c: nat) returns (rest: seq<Step>)
    requires Invariant(init, s) && Enabled(s, Lookup(c)) && !Present(s, s.calls[c].req.Key())
    requires !Clear(s, c) && Bears(s, c)
    ensures NoLookups(rest) && !CommitsApart(Run(Next(s, Lookup(c)), rest).log)
  {
    var t := Next(s, Lookup(c));
    StepKeepsInvariant(init, s, Lookup(c));
    LookedUp(s, c);
    if i :| 0 <= i < |s.log| && s.log[i].req.Key() == s.calls[c].req.Key() && s.log[i].at + 86400 > s.now {
      rest := RecentCommitted(init, t, c, i);
    } else {
      var d :| 0 <= d < |s.calls| && d != c && s.calls[d].req.Key() == s.calls[c].req.Key() && Pending(s.calls[d].pc);
      rest := RivalsCommit(init, t, c, d);
    }
  }

  /** The guard is exact. After any serialized run, a lookup that misses and whose row can bear it is clear
      if and only if every way to go on with serialized lookups keeps the commits of each key a day apart. */
  lemma LookupSafeExactly(init: map<string, Account>, steps: seq<Step>, c: nat)
    requires (forall b | b in init :: init[b].balance >= 0) && Serialized(Init(init), steps)
    requires var s := Run(Init(init), steps);
      Enabled(s, Lookup(c)) && !Present(s, s.calls[c].req.Key()) && Bears(s, c)
    ensures var s := Run(Init(init), steps);
      Clear(s, c) <==>
        forall rest | Serialized(Next(s, Lookup(c)), rest) :: CommitsApart(Run(Next(s, Lookup(c)), rest).log)
  {
    var s := Run(Init(init), steps);
    var t := Next(s, Lookup(c));
    if Clear(s, c) {
      SerializedRuns(Init(init), steps);
      StepStaysApart(s, Lookup(c));
      forall rest | Serialized(t, rest) ensures CommitsApart(Run(t, rest).log) { SerializedRuns(t, rest); }
    } else {
      InitialInvariant(init);
      RunsKeepInvariant(init, Init(init), steps);
      var rest := UnclearCommitsTwice(init, s, c);
      NoLookupsSerialized(t, rest);
    }
  }

  // ----- What the mark is for: only unmarked commits are to be waited for -----

  ghost predicate Followed(s: State, i: nat)
    requires i < |s.log|
  {
    exists j :: 0 <= j < |s.marks| && s.marks[j].idem == s.log[i].req.Key() && s.log[i].at <= s.marks[j].at
  }

  /** A call that ran to its end after committing has a mark from then on. */
  ghost predicate MarksFollow(s: State) {
    forall i | 0 <= i < |s.log| && s.log[i].call < |s.calls| && s.calls[s.log[i].call].pc == Finished(Success) ::
      Followed(s, i)
  }

  lemma StillFollowed(s: State, t: State, i: nat)
    requires i < |s.log| && Followed(s, i) && s.log <= t.log && s.marks <= t.marks
    ensures Followed(t, i)
  {
  }

  lemma StepMarksFollow(s: State, step: Step)
    requires LogMatchesCalls(s) && MarksFollow(s) && Enabled(s, step)
    ensures MarksFollow(Next(s, step))
  {
    StepIsStepped(s, step);
    SteppedMarksFollow(s, step, Next(s, step));
  }

  /** Only setting its mark brings a call to a successful end. */
  lemma SteppedMarksFollow(s: State, step: Step, t: State)
    requires LogMatchesCalls(s) && MarksFollow(s) && Stepped(s, step, t)
    ensures MarksFollow(t)
  {
    forall i | 0 <= i < |t.log| && t.log[i].call < |t.calls| && t.calls[t.log[i].call].pc == Finished(Success)
      ensures Followed(t, i)
    {
      if step == SetMark(t.log[i].call) {
        assert EntryOf(s, i);
        assert t.marks[|s.marks|].idem == t.log[i].req.Key() && t.log[i].at <= t.marks[|s.marks|].at;
      } else if i < |s.log| {
        assert Followed(s, i);
        StillFollowed(s, t, i);
      }
    }
  }

  lemma {:induction false} RunMarksFollow(init: map<string, Account>, s: State, steps: seq<Step>)
    requires Invariant(init, s) && MarksFollow(s)
    ensures MarksFollow(Run(s, steps))
    decreases |steps|
  {
    if steps != [] {
      if Enabled(s, steps[0]) {
        StepKeepsInvariant(init, s, steps[0]);
        StepMarksFollow(s, steps[0]);
        RunMarksFollow(init, Next(s, steps[0]), steps[1..]);
      } else {
        RunMarksFollow(init, s, steps[1..]);
      }
    }
  }

  /** No call with the key may still commit, and those that committed without a mark did so a day ago. */
  ghost predicate ClearOfUnmarked(s: State, c: nat)
    requires c < |s.calls| && forall i | 0 <= i < |s.log| :: s.log[i].call < |s.calls|
  {
    && NoneElsePending(s, c)
    && (forall i | 0 <= i < |s.log| && s.log[i].req.Key() == s.calls[c].req.Key()
          && s.calls[s.log[i].call].pc != Finished(Success) :: s.log[i].at + 86400 <= s.now)
  }

  /** For a lookup that misses, the calls that ran to their end need not be asked about: in every reachable
      state it is clear exactly when it is clear of unmarked commits. */
  lemma ClearExactly(init: map<string, Account>, steps: seq<Step>, c: nat)
    requires forall b | b in init :: init[b].balance >= 0
    requires var s := Run(Init(init), steps); Enabled(s, Lookup(c)) && !Present(s, s.calls[c].req.Key())
    ensures var s := Run(Init(init), steps);
      && (forall i | 0 <= i < |s.log| :: s.log[i].call < |s.calls|)
      && (Clear(s, c) <==> ClearOfUnmarked(s, c))
  {
    var s := Run(Init(init), steps);
    InitialInvariant(init);
    RunsKeepInvariant(init, Init(init), steps);
    RunMarksFollow(init, Init(init), steps);
    MarkedAreOld(s, c);
  }

  lemma MarkedAreOld(s: State, c: nat)
    requires RedisHoldsMarks(s) && LogMatchesCalls(s) && MarksFollow(s)
    requires c < |s.calls| && !Present(s, s.calls[c].req.Key())
    ensures forall i | 0 <= i < |s.log| :: s.log[i].call < |s.calls|
    ensures forall i | 0 <= i < |s.log| && s.log[i].req.Key() == s.calls[c].req.Key()
      && s.calls[s.log[i].call].pc == Finished(Success) :: s.log[i].at + 86400 <= s.now
  {
    forall i | 0 <= i < |s.log| ensures s.log[i].call < |s.calls| { assert EntryOf(s, i); }
    LookupExact(s, s.calls[c].req.Key());
    forall i | 0 <= i < |s.log| && s.log[i].req.Key() == s.calls[c].req.Key()
        && s.calls[s.log[i].call].pc == Finished(Success)
      ensures s.log[i].at + 86400 <= s.now
    {
      assert Followed(s, i);
      var j :| 0 <= j < |s.marks| && s.marks[j].idem == s.log[i].req.Key() && s.log[i].at <= s.marks[j].at;
    }
  }
}
