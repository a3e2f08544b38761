/** The Bell-LaPadula policy, and what it means for the flow of information over whole runs. */
module BellLapadula {
  import opened Prelude

  const LEVELS: seq<string> := ["unclassified", "restricted", "confidential", "secret"]

  // A label is absent when the input document does not define it.
  type Label = Option<string>

  function LevelValue(name: string): (v: Option<nat>)
    ensures v.Some? <==> name in LEVELS
    ensures v.Some? ==> v.value in {0, 1, 2, 3} && LEVELS[v.value] == name
  {
    if name == LEVELS[0] then Some(0)
    else if name == LEVELS[1] then Some(1)
    else if name == LEVELS[2] then Some(2)
    else if name == LEVELS[3] then Some(3)
    else None
  }

  /** Missing and unknown labels count as the lowest level. */
  function Level(mark: Label): nat {
    if mark.Some? && LevelValue(mark.value).Some? then LevelValue(mark.value).value else 0
  }

  predicate AllowRead(operation: string, clearance: Label, classification: Label) {
    operation == "read" && Level(clearance) >= Level(classification)
  }

  predicate AllowWrite(operation: string, clearance: Label, classification: Label) {
    operation == "write" && Level(clearance) <= Level(classification)
  }

  predicate Allow(operation: string, clearance: Label, classification: Label) {
    if operation == "read" && AllowRead(operation, clearance, classification) then true
    else if operation == "write" && AllowWrite(operation, clearance, classification) then true
    else false
  }

  predicate Unknown(mark: Label) { mark.None? || mark.value !in LEVELS }

  /** Decisions follow the position in the list; a label outside it decides like the first one;
      operations other than read and write are denied. */
  lemma DecisionByPosition(i: nat, j: nat)
    requires i < 4 && j < 4
    ensures Allow("read", Some(LEVELS[i]), Some(LEVELS[j])) <==> i >= j
    ensures Allow("write", Some(LEVELS[i]), Some(LEVELS[j])) <==> i <= j
    ensures forall u, operation, r | Unknown(u) ::
      && (Allow(operation, u, r) <==> Allow(operation, Some(LEVELS[0]), r))
      && (Allow(operation, r, u) <==> Allow(operation, r, Some(LEVELS[0])))
    ensures forall operation, c, r | operation != "read" && operation != "write" :: !Allow(operation, c, r)
  {
  }

  predicate IsName(name: string) {
    name == "unclassified" || name == "restricted" || name == "confidential" || name == "secret"
  }

  /** The same by name: unclassified is below restricted, that below confidential, and that below secret. */
  lemma DecisionByName(c: string, r: string)
    ensures LevelValue("unclassified") == Some(0) && LevelValue("restricted") == Some(1)
    ensures LevelValue("confidential") == Some(2) && LevelValue("secret") == Some(3)
    ensures IsName(c) && IsName(r) ==>
      (Allow("read", Some(c), Some(r)) <==>
        c == r || c == "secret" || r == "unclassified" || (c == "confidential" && r == "restricted"))
    ensures IsName(c) && IsName(r) ==>
      (Allow("write", Some(c), Some(r)) <==>
        c == r || r == "secret" || c == "unclassified" || (c == "restricted" && r == "confidential"))
    ensures !IsName(c) ==> Level(Some(c)) == 0 && Level(None) == 0
  {
    assert LEVELS[0] == "unclassified" && LEVELS[1] == "restricted";
    assert LEVELS[2] == "confidential" && LEVELS[3] == "secret";
  }

  // ----- Runs -----

  type Policy = (string, Label, Label) -> bool

  datatype Labels = Labels(clearance: string -> Label, classification: string -> Label)

  // What a subject remembers after reading, and what a resource holds after a write: any functions.
  datatype Effects<!D> = Effects(recall: (D, D) -> D, replace: (D, D) -> D)

  datatype State<!D> = State(memory: string -> D, store: string -> D)

  datatype Request = Request(subject: string, operation: string, resource: string)

  predicate Permitted(p: Policy, labels: Labels, q: Request) {
    p(q.operation, labels.clearance(q.subject), labels.classification(q.resource))
  }

  function Step<D>(p: Policy, labels: Labels, fx: Effects<D>, s: State<D>, q: Request): State<D> {
    if !Permitted(p, labels, q) then s
    else if q.operation == "read" then
      var known := fx.recall(s.memory(q.subject), s.store(q.resource));
      s.(memory := x => if x == q.subject then known else s.memory(x))
    else if q.operation == "write" then
      var held := fx.replace(s.store(q.resource), s.memory(q.subject));
      s.(store := x => if x == q.resource then held else s.store(x))
    else s
  }

  function Run<D>(p: Policy, labels: Labels, fx: Effects<D>, s: State<D>, run: seq<Request>): State<D>
    decreases |run|
  {
    if run == [] then s else Run(p, labels, fx, Step(p, labels, fx, s, run[0]), run[1..])
  }

  predicate IsLow(labels: Labels, l: nat, q: Request) { Level(labels.clearance(q.subject)) <= l }

  /** The run without the requests of subjects above level `l`. */
  function Purge(labels: Labels, l: nat, run: seq<Request>): seq<Request> {
    if run == [] then []
    else if IsLow(labels, l, run[0]) then [run[0]] + Purge(labels, l, run[1..])
    else Purge(labels, l, run[1..])
  }

  /** Subjects and resources at or below level `l` cannot tell the two states apart. */
  ghost predicate LowEqual<D(!new)>(labels: Labels, l: nat, s: State<D>, t: State<D>) {
    && (forall x :: Level(labels.clearance(x)) <= l ==> s.memory(x) == t.memory(x))
    && (forall x :: Level(labels.classification(x)) <= l ==> s.store(x) == t.store(x))
  }

  /** The policy permits no read or write that Bell-LaPadula denies. */
  ghost predicate Within(p: Policy) {
    forall operation, c, r ::
        p(operation, c, r) && (operation == "read" || operation == "write") ==> Allow(operation, c, r)
  }

  // ----- Non-interference -----

  lemma HighStepInvisible<D(!new)>(p: Policy, labels: Labels, fx: Effects<D>, l: nat, s: State<D>, q: Request)
    requires Within(p) && !IsLow(labels, l, q)
    ensures LowEqual(labels, l, Step(p, labels, fx, s, q), s)
  {
  }

  lemma LowStepAgrees<D(!new)>(p: Policy, labels: Labels, fx: Effects<D>, l: nat, s: State<D>, t: State<D>, q: Request)
    requires Within(p) && IsLow(labels, l, q) && LowEqual(labels, l, s, t)
    ensures LowEqual(labels, l, Step(p, labels, fx, s, q), Step(p, labels, fx, t, q))
  {
  }

  /** Deleting every request made above level `l` changes nothing at or below it. */
  lemma {:induction false} NonInterference<D(!new)>(
      p: Policy, labels: Labels, fx: Effects<D>, l: nat, s: State<D>, t: State<D>, run: seq<Request>)
    requires Within(p) && LowEqual(labels, l, s, t)
    ensures LowEqual(labels, l, Run(p, labels, fx, s, run), Run(p, labels, fx, t, Purge(labels, l, run)))
    decreases |run|
  {
    if run != [] {
      var q := run[0];
      var s' := Step(p, labels, fx, s, q);
      if IsLow(labels, l, q) {
        LowStepAgrees(p, labels, fx, l, s, t, q);
        NonInterference(p, labels, fx, l, s', Step(p, labels, fx, t, q), run[1..]);
        assert Purge(labels, l, run)[1..] == Purge(labels, l, run[1..]);
      } else {
        HighStepInvisible(p, labels, fx, l, s, q);
        NonInterference(p, labels, fx, l, s', t, run[1..]);
      }
    }
  }

  /** The policy as written: whatever high subjects do, and in whatever order, low ones see the same. */
  lemma LowViewIgnoresHighRequests<D(!new)>(
      labels: Labels, fx: Effects<D>, l: nat, s: State<D>, run: seq<Request>, other: seq<Request>)
    requires Purge(labels, l, run) == Purge(labels, l, other)
    ensures LowEqual(labels, l, Run(Allow, labels, fx, s, run), Run(Allow, labels, fx, s, other))
  {
    NonInterference(Allow, labels, fx, l, s, s, run);
    NonInterference(Allow, labels, fx, l, s, s, other);
  }

  /** A run that shows level `l` something about what is above it. */
  ghost predicate Leaks(p: Policy, labels: Labels, fx: Effects<int>, l: nat, s: State<int>, t: State<int>,
      run: seq<Request>) {
    && LowEqual(labels, l, s, t)
    && !LowEqual(labels, l, Run(p, labels, fx, s, run), Run(p, labels, fx, t, Purge(labels, l, run)))
  }

  /** The policy cannot be relaxed: permitting any one request it denies opens a leak. */
  lemma RelaxingLeaks(p: Policy, operation: string, c: Label, r: Label)
      returns (labels: Labels, fx: Effects<int>, l: nat, s: State<int>, t: State<int>, run: seq<Request>)
    requires operation == "read" || operation == "write"
    requires p(operation, c, r) && !Allow(operation, c, r)
    ensures Leaks(p, labels, fx, l, s, t, run)
  {
    labels := Labels(x => c, x => r);
    fx := Effects((known, content) => content, (content, known) => known);
    var q := Request("s", operation, "r");
    run := [q];
    assert run[1..] == [];
    if operation == "read" {
      l := Level(c);
      s, t := State(x => 0, x => 0), State(x => 0, x => 1);
      assert Purge(labels, l, run) == [q] + Purge(labels, l, []);
      assert Run(p, labels, fx, s, run).memory("s") == 0;
      assert Run(p, labels, fx, t, run).memory("s") == 1;
    } else {
      l := Level(r);
      s := State(x => 0, x => 1);
      t := s;
      assert Purge(labels, l, run) == [];
      assert Run(p, labels, fx, s, run).store("r") == 0;
    }
  }

  /** Non-interference holds of exactly the policies within the Bell-LaPadula rules. */
  lemma SecureExactlyWithin(p: Policy)
    ensures Within(p) <==>
      forall labels, fx: Effects<int>, l, s, t, run :: !Leaks(p, labels, fx, l, s, t, run)
  {
    if Within(p) {
      forall labels, fx: Effects<int>, l, s, t, run ensures !Leaks(p, labels, fx, l, s, t, run) {
        if LowEqual(labels, l, s, t) { NonInterference(p, labels, fx, l, s, t, run); }
      }
    } else {
      var operation, c, r :| p(operation, c, r) && (operation == "read" || operation == "write")
          && !Allow(operation, c, r);
      var labels, fx, l, s, t, run := RelaxingLeaks(p, operation, c, r);
    }
  }
}
