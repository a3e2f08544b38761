/** The consuming loop: verify a message, hand it over, commit its offset. */
module Consumer {
  import opened Prelude
  import opened Text
  import opened Json
  import opened Envelope

  // Between two messages; about to commit past an invalid one; in the loop body; about to commit after it.
  datatype Phase = Idle | Skipping | Running | Ran

  // One partition and its consumer: the offset committed to the broker, the consumer's own position, and
  // what the run has done: offsets handed to the loop body, offsets whose body completed, and crashes.
  datatype State = State(log: seq<string>, committed: nat, position: nat, phase: Phase,
                         handed: seq<nat>, completed: set<nat>, crashes: nat)

  datatype Step = Append(raw: string) | Fetch | Complete | Commit | Crash

  // How messages are read: the data of an accepted message, nothing for one that raises an error.
  type Reader = string -> Option<Value>

  function EnvelopeReader(mac: Mac, key: Key): Reader {
    raw => if Open(mac, key, raw).Ok? then Some(Open(mac, key, raw).value) else None
  }

  predicate Accepts(read: Reader, raw: string) { read(raw).Some? }

  function Init(log: seq<string>): State { State(log, 0, 0, Idle, [], {}, 0) }

  predicate Enabled(s: State, step: Step) {
    match step
    case Append(_) => true
    case Fetch => s.phase.Idle? && s.position < |s.log|
    case Complete => s.phase.Running? && s.position > 0
    case Commit => s.phase.Skipping? || s.phase.Ran?
    case Crash => true
  }

  function Next(read: Reader, s: State, step: Step): State
    requires Enabled(s, step)
  {
    match step
    case Append(raw) => s.(log := s.log + [raw])
    case Fetch =>
      if Accepts(read, s.log[s.position])
          then s.(position := s.position + 1, phase := Running, handed := s.handed + [s.position])
      else s.(position := s.position + 1, phase := Skipping)
    case Complete => s.(phase := Ran, completed := s.completed + {s.position - 1})
    case Commit => s.(phase := Idle, committed := s.position)
    // A restarted consumer begins at the committed offset.
    case Crash => s.(phase := Idle, position := s.committed, crashes := s.crashes + 1)
  }

  /** A run is any sequence of steps; one that is not enabled where it stands does nothing. */
  function Run(read: Reader, s: State, steps: seq<Step>): State
    decreases |steps|
  {
    if steps == [] then s
    else Run(read, if Enabled(s, steps[0]) then Next(read, s, steps[0]) else s, steps[1..])
  }

  /** The number of accepted messages below an offset. */
  function AcceptedBelow(read: Reader, log: seq<string>, n: nat): nat
    requires n <= |log|
  {
    if n == 0 then 0 else AcceptedBelow(read, log, n - 1) + if Accepts(read, log[n - 1]) then 1 else 0
  }

  lemma {:induction false} AcceptedBelowAppend(read: Reader, log: seq<string>, raw: string, n: nat)
    requires n <= |log|
    ensures AcceptedBelow(read, log + [raw], n) == AcceptedBelow(read, log, n)
  {
    if n > 0 { AcceptedBelowAppend(read, log, raw, n - 1); }
  }

  /** The position is at most one message past the committed offset. */
  ghost predicate Positioned(s: State) {
    && s.committed <= s.position <= |s.log|
    && (s.phase.Idle? ==> s.position == s.committed)
    && (!s.phase.Idle? ==> s.position == s.committed + 1)
  }

  /** Everything accepted below the committed offset has been worked off. */
  ghost predicate WorkedOff(read: Reader, s: State) {
    && s.position <= |s.log| && s.committed <= |s.log|
    && (forall o | 0 <= o < s.committed && Accepts(read, s.log[o]) :: o in s.completed)
    && (s.phase.Ran? ==> s.position > 0 && s.position - 1 in s.completed)
    && (s.phase.Skipping? ==> s.position > 0 && !Accepts(read, s.log[s.position - 1]))
    && (s.phase.Running? ==> s.handed != [] && s.handed[|s.handed| - 1] == s.position - 1)
    && (forall o | o in s.completed :: o in s.handed)
  }

  /** Only accepted messages are handed over, in offset order, and none is left out. */
  ghost predicate HandedInOrder(read: Reader, s: State) {
    && s.position <= |s.log|
    && (forall i | 0 <= i < |s.handed| :: s.handed[i] < |s.log| && Accepts(read, s.log[s.handed[i]]))
    && (forall i | 0 <= i < |s.handed| :: s.handed[i] <= s.committed)
    && (forall i, j | 0 <= i < j < |s.handed| :: s.handed[i] <= s.handed[j])
    && (forall o | 0 <= o < s.position && Accepts(read, s.log[o]) :: o in s.handed)
    && (forall i, o | 0 <= i < |s.handed| && 0 <= o < s.handed[i] && Accepts(read, s.log[o]) :: o in s.handed[..i])
  }

  ghost predicate FewRepeats(read: Reader, s: State) {
    s.position <= |s.log| && |s.handed| <= AcceptedBelow(read, s.log, s.position) + s.crashes
  }

  ghost predicate Invariant(read: Reader, s: State) {
    Positioned(s) && WorkedOff(read, s) && HandedInOrder(read, s) && FewRepeats(read, s)
  }

  lemma FetchKeepsOrder(read: Reader, s: State)
    requires Positioned(s) && HandedInOrder(read, s) && Enabled(s, Fetch)
    ensures HandedInOrder(read, Next(read, s, Fetch))
  {
    var t := Next(read, s, Fetch);
    if Accepts(read, s.log[s.position]) {
      var n := |s.handed|;
      assert t.handed[n] == s.position;
      assert t.handed[..n] == s.handed;
      forall i, o | 0 <= i < |t.handed| && 0 <= o < t.handed[i] && Accepts(read, t.log[o]) ensures o in t.handed[..i] {
        if i < n { assert t.handed[..i] == s.handed[..i]; }
      }
      forall o | 0 <= o < t.position && Accepts(read, t.log[o]) ensures o in t.handed {
        if o == s.position { assert t.handed[n] == o; }
      }
    }
  }

  lemma StepKeepsOrder(read: Reader, s: State, step: Step)
    requires Positioned(s) && HandedInOrder(read, s) && Enabled(s, step)
    ensures HandedInOrder(read, Next(read, s, step))
  {
    if step.Fetch? { FetchKeepsOrder(read, s); }
  }

  lemma StepWorksOff(read: Reader, s: State, step: Step)
    requires Positioned(s) && WorkedOff(read, s) && Enabled(s, step)
    ensures WorkedOff(read, Next(read, s, step))
  {
  }

  lemma StepFewRepeats(read: Reader, s: State, step: Step)
    requires Positioned(s) && FewRepeats(read, s) && Enabled(s, step)
    ensures FewRepeats(read, Next(read, s, step))
  {
    if step.Append? { AcceptedBelowAppend(read, s.log, step.raw, s.position); }
  }

  lemma {:induction false} RunKeepsInvariant(read: Reader, s: State, steps: seq<Step>)
    requires Invariant(read, s)
    ensures Invariant(read, Run(read, s, steps))
    decreases |steps|
  {
    if steps != [] {
      if Enabled(s, steps[0]) {
        StepKeepsOrder(read, s, steps[0]);
        StepWorksOff(read, s, steps[0]);
        StepFewRepeats(read, s, steps[0]);
        RunKeepsInvariant(read, Next(read, s, steps[0]), steps[1..]);
      } else {
        RunKeepsInvariant(read, s, steps[1..]);
      }
    }
  }

  /** At least once, with any number of crashes: the body has completed for every accepted message below
      the committed offset; only accepted messages are handed over; no message is handed over before an
      accepted one below it has been; and each crash repeats at most one message. */
  lemma AtLeastOnce(read: Reader, log: seq<string>, steps: seq<Step>)
    ensures var s := Run(read, Init(log), steps);
      && s.committed <= s.position <= |s.log|
      && (forall o | 0 <= o < s.committed && Accepts(read, s.log[o]) :: o in s.completed && o in s.handed)
      && (forall i | 0 <= i < |s.handed| :: s.handed[i] < |s.log| && Accepts(read, s.log[s.handed[i]]))
      && (forall i, o | 0 <= i < |s.handed| && 0 <= o < s.handed[i] && Accepts(read, s.log[o]) :: o in s.handed[..i])
      && |s.handed| <= AcceptedBelow(read, s.log, s.position) + s.crashes
  {
    RunKeepsInvariant(read, Init(log), steps);
  }

  // ----- The loop itself -----

  /** The data of the accepted messages from an offset on, in order. */
  function Payloads(read: Reader, log: seq<string>): seq<Value> {
    if log == [] then []
    else
      Payloads(read, log[..|log| - 1])
        + if Accepts(read, log[|log| - 1]) then [read(log[|log| - 1]).value] else []
  }

  method ReadMessage(mac: Mac, key: Key, raw: string) returns (data: Option<Value>)
    ensures data == EnvelopeReader(mac, key)(raw)
  {
    var r := OpenEnvelope(mac, key, raw);
    data := if r.Ok? then Some(r.value) else None;
  }

  class SecureConsumer {
    const mac: Mac
    const key: Key
    var log: seq<string>
    var committed: nat
    var position: nat
    ghost var handed: seq<nat>
    ghost var completed: set<nat>
    ghost var crashes: nat

    /** The consumer between two messages, as a state of the machine. */
    ghost function Between(): State
      reads this
    {
      State(log, committed, position, Idle, handed, completed, crashes)
    }

    constructor (mac: Mac, key: Key, log: seq<string>)
      ensures this.mac == mac && this.key == key && Between() == Init(log)
    {
      this.mac, this.key := mac, key;
      this.log := log;
      committed, position, handed, completed, crashes := 0, 0, [], {}, 0;
    }

    /** One turn of the loop, undisturbed: nothing is handed over when the message is not accepted, and the
        offset is committed either way, after the hand-over. */
    method Turn() returns (data: Option<Value>)
      requires Positioned(Between()) && position < |log|
      modifies this
      ensures var raw := old(log[position]); data == if Genuine(mac, key, raw) then Some(Carried(raw)) else None
      ensures log == old(log) && committed == position == old(position) + 1
      ensures handed == old(handed) + if data.Some? then [old(position)] else []
      ensures Between() == AfterTurn(EnvelopeReader(mac, key), old(Between()))
    {
      ghost var before := Between();
      var raw := log[position];
      position := position + 1;
      data := ReadMessage(mac, key, raw);
      if data.Some? {
        handed := handed + [before.position];
        completed := completed + {before.position};
      }
      committed := position;
      AcceptedExactly(mac, key, raw);
    }

    /** The loop over the messages that are there, undisturbed: it yields the data of all accepted ones from
        the committed offset on, in order and once each, and commits past the last message. It is a run of
        the machine. */
    method Stream() returns (yielded: seq<Value>)
      requires Positioned(Between())
      modifies this
      ensures yielded == GenuineData(mac, key, old(log)[old(committed)..])
      ensures log == old(log) && committed == position == |log|
      ensures exists steps :: Between() == Run(EnvelopeReader(mac, key), old(Between()), steps)
    {
      ghost var read := EnvelopeReader(mac, key);
      yielded := [];
      ghost var start := Between();
      ghost var steps: seq<Step> := [];
      while position < |log|
        invariant Streamed(read, start, Between(), steps, yielded)
        decreases |log| - position
      {
        ghost var before := Between();
        var data := Turn();
        ghost var had := yielded;
        if data.Some? {
          yielded := yielded + [data.value];
        }
        ReaderExactly(mac, key, before.log[before.position]);
        steps := TurnExtends(read, start, before, steps, had);
      }
      assert start.log[start.committed..committed] == start.log[start.committed..];
      PayloadsAreGenuine(mac, key, start.log[start.committed..]);
    }
  }

  /** The loop's reader hands over what is genuine. */
  lemma ReaderExactly(mac: Mac, key: Key, raw: string)
    ensures EnvelopeReader(mac, key)(raw) == if Genuine(mac, key, raw) then Some(Carried(raw)) else None
  {
    AcceptedExactly(mac, key, raw);
  }

  /** The data of the genuine messages of a log, in order. */
  function GenuineData(mac: Mac, key: Key, log: seq<string>): seq<Value> {
    if log == [] then []
    else
      var raw := log[|log| - 1];
      GenuineData(mac, key, log[..|log| - 1]) + if Genuine(mac, key, raw) then [Carried(raw)] else []
  }

  lemma {:induction false} PayloadsAreGenuine(mac: Mac, key: Key, log: seq<string>)
    ensures Payloads(EnvelopeReader(mac, key), log) == GenuineData(mac, key, log)
  {
    if log != [] {
      PayloadsAreGenuine(mac, key, log[..|log| - 1]);
      ReaderExactly(mac, key, log[|log| - 1]);
    }
  }

  // What was sent: sealed data, or a text that is not genuine.
  datatype Sent = Sealed(issuer: Text, ts: int, data: Value) | Junk(raw: string)

  predicate Delivered(mac: Mac, key: Key, sent: Sent, raw: string) {
    match sent
    case Sealed(issuer, ts, data) => raw == Seal(mac, key, issuer, ts, data)
    case Junk(text) => raw == text && !Genuine(mac, key, raw)
  }

  function DataOf(sent: seq<Sent>): seq<Value> {
    if sent == [] then []
    else DataOf(sent[..|sent| - 1]) + if sent[|sent| - 1].Sealed? then [sent[|sent| - 1].data] else []
  }

  /** From one end to the other: of a log of sealed messages with clean data, mixed with any texts that are
      not genuine, what comes through is exactly the sealed data, in order. */
  lemma {:induction false} SealedComesThrough(mac: Mac, key: Key, sent: seq<Sent>, log: seq<string>)
    requires |log| == |sent| && forall i | 0 <= i < |log| :: Delivered(mac, key, sent[i], log[i])
    requires forall i | 0 <= i < |log| :: sent[i].Sealed? ==> CleanValue(sent[i].data)
    ensures GenuineData(mac, key, log) == DataOf(sent)
  {
    if log != [] {
      var n := |log| - 1;
      SealedComesThrough(mac, key, sent[..n], log[..n]);
      if sent[n].Sealed? { SealedIsGenuine(mac, key, sent[n].issuer, sent[n].ts, sent[n].data); }
    }
  }

  lemma SealedIsGenuine(mac: Mac, key: Key, issuer: Text, ts: int, data: Value)
    requires CleanValue(data)
    ensures var raw := Seal(mac, key, issuer, ts, data); Genuine(mac, key, raw) && Carried(raw) == data
  {
    RoundTripExactly(mac, key, issuer, ts, data);
    AcceptedExactly(mac, key, Seal(mac, key, issuer, ts, data));
  }

  /** How many messages below an offset are genuine. */
  function GenuineBelow(mac: Mac, key: Key, log: seq<string>, n: nat): nat
    requires n <= |log|
  {
    |set o | 0 <= o < n && Genuine(mac, key, log[o])|
  }

  lemma {:induction false} AcceptedIsCount(read: Reader, log: seq<string>, n: nat)
    requires n <= |log|
    ensures AcceptedBelow(read, log, n) == |set o | 0 <= o < n && Accepts(read, log[o])|
  {
    var below := set o | 0 <= o < n && Accepts(read, log[o]);
    if n == 0 {
      assert below == {};
    } else {
      var before := set o | 0 <= o < n - 1 && Accepts(read, log[o]);
      AcceptedIsCount(read, log, n - 1);
      assert below == if Accepts(read, log[n - 1]) then before + {n - 1} else before;
    }
  }

  lemma AcceptedAreGenuine(mac: Mac, key: Key, log: seq<string>, n: nat)
    requires n <= |log|
    ensures AcceptedBelow(EnvelopeReader(mac, key), log, n) == GenuineBelow(mac, key, log, n)
  {
    var read := EnvelopeReader(mac, key);
    AcceptedIsCount(read, log, n);
    forall o | 0 <= o < n ensures Accepts(read, log[o]) <==> Genuine(mac, key, log[o]) {
      ReaderExactly(mac, key, log[o]);
    }
    assert (set o | 0 <= o < n && Accepts(read, log[o])) == set o | 0 <= o < n && Genuine(mac, key, log[o]);
  }

  /** The delivery promises of the loop as it is, with any number of crashes: the body has completed for every
      genuine message below the committed offset; no message that is not genuine is ever handed over; first
      hand-overs are in order; and each crash repeats at most one message. */
  lemma GenuineAtLeastOnce(mac: Mac, key: Key, log: seq<string>, steps: seq<Step>)
    ensures var s := Run(EnvelopeReader(mac, key), Init(log), steps);
      && s.committed <= s.position <= |s.log|
      && (forall o | 0 <= o < s.committed && Genuine(mac, key, s.log[o]) :: o in s.completed && o in s.handed)
      && (forall i | 0 <= i < |s.handed| :: s.handed[i] < |s.log| && Genuine(mac, key, s.log[s.handed[i]]))
      && (forall i, o | 0 <= i < |s.handed| && 0 <= o < s.handed[i] && Genuine(mac, key, s.log[o]) ::
            o in s.handed[..i])
      && |s.handed| <= GenuineBelow(mac, key, s.log, s.position) + s.crashes
  {
    var read := EnvelopeReader(mac, key);
    AtLeastOnce(read, log, steps);
    var s := Run(read, Init(log), steps);
    AcceptedAreGenuine(mac, key, s.log, s.position);
    forall o | 0 <= o < |s.log| ensures Accepts(read, s.log[o]) <==> Genuine(mac, key, s.log[o]) {
      ReaderExactly(mac, key, s.log[o]);
    }
  }

  /** The state between two messages after the message at the position has been worked off. */
  function AfterTurn(read: Reader, s: State): State
    requires s.position < |s.log|
  {
    var t := s.(position := s.position + 1, committed := s.position + 1);
    if Accepts(read, s.log[s.position]) then
      t.(handed := s.handed + [s.position], completed := s.completed + {s.position})
    else t
  }

  /** What the loop has done since `start`: a run of the machine, and the data yielded. */
  ghost predicate Streamed(read: Reader, start: State, now: State, steps: seq<Step>, yielded: seq<Value>) {
    && now == Run(read, start, steps)
    && now.phase.Idle? && now.log == start.log && start.committed <= now.committed == now.position <= |now.log|
    && yielded == Payloads(read, start.log[start.committed..now.committed])
  }

  lemma PayloadsStep(read: Reader, log: seq<string>, first: nat, n: nat)
    requires first <= n < |log|
    ensures Payloads(read, log[first..n + 1])
         == Payloads(read, log[first..n]) + if Accepts(read, log[n]) then [read(log[n]).value] else []
  {
    var s := log[first..n + 1];
    assert s[..|s| - 1] == log[first..n] && s[|s| - 1] == log[n];
  }

  lemma {:induction false} RunAppend(read: Reader, s: State, a: seq<Step>, b: seq<Step>)
    ensures Run(read, s, a + b) == Run(read, Run(read, s, a), b)
    decreases |a|
  {
    if a == [] {
      assert a + b == b;
    } else {
      assert (a + b)[0] == a[0] && (a + b)[1..] == a[1..] + b;
      RunAppend(read, if Enabled(s, a[0]) then Next(read, s, a[0]) else s, a[1..], b);
    }
  }

  lemma TurnExtends(read: Reader, start: State, s: State, steps: seq<Step>, yielded: seq<Value>)
    returns (more: seq<Step>)
    requires Streamed(read, start, s, steps, yielded) && s.position < |s.log|
    ensures
      var data := read(s.log[s.position]);
      Streamed(read, start, AfterTurn(read, s), more, yielded + if data.Some? then [data.value] else [])
  {
    var turn := if Accepts(read, s.log[s.position]) then [Fetch, Complete, Commit] else [Fetch, Commit];
    more := steps + turn;
    RunAppend(read, start, steps, turn);
    PayloadsStep(read, s.log, start.committed, s.committed);
    if Accepts(read, s.log[s.position]) { HandOverRuns(read, s); } else { SkipRuns(read, s); }
  }

  lemma SkipRuns(read: Reader, s: State)
    requires Enabled(s, Fetch) && !Accepts(read, s.log[s.position])
    ensures Run(read, s, [Fetch, Commit]) == AfterTurn(read, s)
  {
  }

  lemma HandOverRuns(read: Reader, s: State)
    requires Enabled(s, Fetch) && Accepts(read, s.log[s.position])
    ensures Run(read, s, [Fetch, Complete, Commit]) == AfterTurn(read, s)
  {
  }
}
