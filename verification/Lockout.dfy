/** The failure counter and lock of a user row. */
module Lockout {
  import opened Prelude

  // The two columns; a row not yet flushed has no counter.
  datatype Row = Row(failedLogins: Option<nat>, lockUntil: Option<int>)

  // A limit below one acts like one: every failure reaches it.
  function Limit(maxFails: int): nat { if maxFails < 1 then 1 else maxFails }

  function AfterFailure(r: Row, maxFails: int, lockSeconds: int, now: int): Row {
    var count := (if r.failedLogins.Some? then r.failedLogins.value else 0) + 1;
    if count >= maxFails then Row(Some(0), Some(now + lockSeconds)) else Row(Some(count), r.lockUntil)
  }

  class User {
    var failedLogins: Option<nat>
    var lockUntil: Option<int>

    ghost function Contents(): Row
      reads this
    {
      Row(failedLogins, lockUntil)
    }

    constructor (failedLogins: Option<nat>, lockUntil: Option<int>)
      ensures Contents() == Row(failedLogins, lockUntil)
    {
      this.failedLogins, this.lockUntil := failedLogins, lockUntil;
    }

    method RecordLoginFailure(maxFails: int, lockMinutes: int, now: int)
      modifies this
      ensures Contents() == AfterFailure(old(Contents()), maxFails, 60 * lockMinutes, now)
      ensures var count := 1 + if old(failedLogins) == None then 0 else old(failedLogins).value;
        if maxFails <= count then failedLogins == Some(0) && lockUntil == Some(now + 60 * lockMinutes)
        else failedLogins == Some(count) && lockUntil == old(lockUntil)
    {
      failedLogins := Some((if failedLogins.Some? then failedLogins.value else 0) + 1);
      if failedLogins.value >= maxFails {
        lockUntil := Some(now + 60 * lockMinutes);
        failedLogins := Some(0);
      }
    }

    method ClearLoginFailures()
      modifies this
      ensures Contents() == Row(Some(0), None)
    {
      failedLogins := Some(0);
      lockUntil := None;
    }
  }

  datatype Call = Failure(at: int) | Clear

  function Run(start: Row, maxFails: int, lockSeconds: int, calls: seq<Call>): Row {
    if calls == [] then start
    else
      var before := Run(start, maxFails, lockSeconds, calls[..|calls| - 1]);
      match calls[|calls| - 1]
      case Failure(at) => AfterFailure(before, maxFails, lockSeconds, at)
      case Clear => Row(Some(0), None)
  }

  /** The times of the failures since the last clear, or since the start. */
  function Failures(calls: seq<Call>): seq<int> {
    if calls == [] || calls[|calls| - 1].Clear? then [] else Failures(calls[..|calls| - 1]) + [calls[|calls| - 1].at]
  }

  predicate Unlocked(r: Row) { r.lockUntil.None? && (r.failedLogins.Some? ==> r.failedLogins.value == 0) }

  function Count(r: Row): nat { if r.failedLogins.Some? then r.failedLogins.value else 0 }

  /** How many of `n` failures were counted before the counter last stood at zero. */
  function Full(n: nat, m: nat): nat
    requires m > 0
  {
    n - n % m
  }

  lemma Divides(n: nat, q: nat, r: nat, m: nat)
    requires 0 <= r < m && n == q * m + r
    ensures n % m == r
  {
    var d := n / m - q;
    assert n == (n / m) * m + n % m;
    assert d * m == r - n % m by { assert (n / m - q) * m == (n / m) * m - q * m; }
    assert d >= 1 ==> d * m >= m;
    assert d <= -1 ==> d * m + m <= 0;
  }

  lemma NextRemainder(n: nat, m: nat)
    requires m > 0
    ensures (n + 1) % m == (if n % m + 1 == m then 0 else n % m + 1)
  {
    var q, r := n / m, n % m;
    assert n == q * m + r;
    assert (q + 1) * m == q * m + m;
    if r + 1 == m { Divides(n + 1, q + 1, 0, m); } else { Divides(n + 1, q, r + 1, m); }
  }

  predicate Completes(k: nat, m: nat) requires m > 0 { (k + 1) % m == 0 }

  /** The last failure to complete the limit is the one before the counter last stood at zero. */
  lemma {:induction false} LastToComplete(n: nat, m: nat)
    requires n >= m > 0
    ensures 0 < Full(n, m) <= n && Completes(Full(n, m) - 1, m)
  {
    if n == m { Divides(n, 1, 0, m); }
    else {
      LastToComplete(n - 1, m);
      NextRemainder(n - 1, m);
    }
  }

  lemma {:induction false} CompletedBefore(k: nat, n: nat, m: nat)
    requires m > 0 && k < n && Completes(k, m)
    ensures n >= m && k < Full(n, m)
  {
    if k == n - 1 {
      if n < m { Divides(n, 0, n, m); }
    } else {
      CompletedBefore(k, n - 1, m);
      NextRemainder(n - 1, m);
    }
  }

  /** The counter is the number of failures since the last clear modulo the limit, and the lock ends its
      period after the latest failure that completed the limit; before such a failure there is no lock. */
  lemma {:induction false} CounterLaw(start: Row, maxFails: int, lockSeconds: int, calls: seq<Call>)
    requires Unlocked(start)
    ensures var r, f := Run(start, maxFails, lockSeconds, calls), Failures(calls);
      var m := if maxFails < 1 then 1 else maxFails;
      && Count(r) == |f| % m
      && r.lockUntil == if |f| < m then None else Some(f[|f| - |f| % m - 1] + lockSeconds)
    decreases |calls|
  {
    var m := Limit(maxFails);
    if calls == [] {
      Divides(0, 0, 0, m);
    } else if calls[|calls| - 1].Clear? {
      Divides(0, 0, 0, m);
    } else {
      var before := calls[..|calls| - 1];
      CounterLaw(start, maxFails, lockSeconds, before);
      var f := Failures(before);
      NextRemainder(|f|, m);
      if |f| < m { Divides(|f|, 0, |f|, m); } else { LastToComplete(|f|, m); }
    }
  }

  predicate InOrder(times: seq<int>) { forall i, j | 0 <= i < j < |times| :: times[i] <= times[j] }

  /** While the clock does not go back, the account is locked exactly during the lock period after some
      failure that completed the limit: a later failure never ends a lock. */
  lemma LockedExactly(start: Row, maxFails: int, lockSeconds: int, calls: seq<Call>, now: int)
    requires Unlocked(start) && InOrder(Failures(calls))
    ensures var r, f := Run(start, maxFails, lockSeconds, calls), Failures(calls);
      var m := if maxFails < 1 then 1 else maxFails;
      (r.lockUntil.Some? && r.lockUntil.value > now)
        <==> exists k :: 0 <= k < |f| && (k + 1) % m == 0 && now < f[k] + lockSeconds
  {
    var f, m := Failures(calls), Limit(maxFails);
    CounterLaw(start, maxFails, lockSeconds, calls);
    if |f| >= m { LastToComplete(|f|, m); }
    if k :| 0 <= k < |f| && (k + 1) % m == 0 && now < f[k] + lockSeconds { CompletedBefore(k, |f|, m); }
  }
}
