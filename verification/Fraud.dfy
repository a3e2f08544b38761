/** The velocity and amount features of the fraud worker. */
module Fraud {
  const DAY := 86400
  const HOUR := 3600
  const KEPT_AMOUNTS := 101

  // One call of the worker's handler, at a whole second of the clock.
  datatype Event = Event(user: string, tx: string, amount: real, now: nat)

  // A score z as its numerator and the square of its denominator: z = num / sqrt(denSquared).
  datatype ZScore = ZScore(num: real, denSquared: real) {
    function Square(): real
      requires denSquared > 0.0
    {
      num * num / denSquared
    }
  }

  const ZERO_SCORE := ZScore(0.0, 1.0)

  // ----- Reference: the full history -----

  /** For every transaction of the user, the time it was last handled. */
  function LastTimes(history: seq<Event>, user: string): map<string, nat> {
    if history == [] then map[]
    else
      var e := history[|history| - 1];
      var before := LastTimes(history[..|history| - 1], user);
      if e.user == user then before[e.tx := e.now] else before
  }

  /** The transactions last handled in the day up to `now`, the moment a day ago excluded. */
  function LastDay(times: map<string, nat>, now: nat): set<string> {
    set tx | tx in times && now - 86400 < times[tx] <= now
  }

  /** The transactions last handled in the hour up to `now`, the moment an hour ago included. */
  function LastHour(times: map<string, nat>, now: nat): set<string> {
    set tx | tx in times && now - 3600 <= times[tx] <= now
  }

  /** All amounts of the user, the newest first. */
  function Amounts(history: seq<Event>, user: string): seq<real> {
    if history == [] then []
    else
      var e := history[|history| - 1];
      var before := Amounts(history[..|history| - 1], user);
      if e.user == user then [e.amount] + before else before
  }

  /** The latest time the user's events were handled. */
  function LatestOf(history: seq<Event>, user: string): (t: int)
    ensures t >= -1
  {
    if history == [] then -1
    else
      var e := history[|history| - 1];
      if e.user == user then e.now else LatestOf(history[..|history| - 1], user)
  }

  predicate InOrder(history: seq<Event>) {
    forall i, j | 0 <= i < j < |history| :: history[i].now <= history[j].now
  }

  /** A transaction's entry is the time of its last event, and only handled transactions have one. */
  lemma {:induction false} LastTimesMeaning(history: seq<Event>, user: string, tx: string)
    ensures tx in LastTimes(history, user) <==>
      exists i :: 0 <= i < |history| && history[i].user == user && history[i].tx == tx
    ensures tx in LastTimes(history, user) ==>
      exists i :: 0 <= i < |history| && history[i].user == user && history[i].tx == tx
        && LastTimes(history, user)[tx] == history[i].now
        && forall j | i < j < |history| :: !(history[j].user == user && history[j].tx == tx)
  {
    if history != [] {
      var n := |history| - 1;
      var before := history[..n];
      LastTimesMeaning(before, user, tx);
      assert forall i | 0 <= i < n :: before[i] == history[i];
      if history[n].user == user && history[n].tx == tx {
        assert LastTimes(history, user)[tx] == history[n].now;
      } else {
        assert tx in LastTimes(history, user) <==> tx in LastTimes(before, user);
        if tx in LastTimes(before, user) {
          var i :| 0 <= i < n && before[i].user == user && before[i].tx == tx
            && LastTimes(before, user)[tx] == before[i].now
            && forall j | i < j < n :: !(before[j].user == user && before[j].tx == tx);
          assert history[i] == before[i];
          forall j | i < j < |history| ensures !(history[j].user == user && history[j].tx == tx) {
            if j < n { assert history[j] == before[j]; }
          }
        }
      }
    }
  }

  // ----- The z-score -----

  function Sum(s: seq<real>): real {
    if s == [] then 0.0 else s[0] + Sum(s[1..])
  }

  function SquaredDeviations(s: seq<real>, mean: real): real {
    if s == [] then 0.0 else (s[0] - mean) * (s[0] - mean) + SquaredDeviations(s[1..], mean)
  }

  function Mean(s: seq<real>): real
    requires s != []
  {
    Sum(s) / |s| as real
  }

  /** The population variance, the square of `pstdev`. */
  function Variance(s: seq<real>): real
    requires s != []
  {
    SquaredDeviations(s, Mean(s)) / |s| as real
  }

  /** The score of an amount in a sample; a zero deviation is replaced by one. */
  function Score(amount: real, sample: seq<real>): ZScore {
    if |sample| < 5 then ZERO_SCORE
    else ZScore(amount - Mean(sample), if Variance(sample) == 0.0 then 1.0 else Variance(sample))
  }

  function SumSquares(s: seq<real>): real {
    if s == [] then 0.0 else s[0] * s[0] + SumSquares(s[1..])
  }

  /** The sum of the squared differences of all pairs of values. */
  function Spread(s: seq<real>): real {
    if s == [] then 0.0 else SquaredDeviations(s[1..], s[0]) + Spread(s[1..])
  }

  // The quadratic relations between the sums, named so that each is proved about plain numbers.

  /** `e` is the sum of squared deviations from `x` of `k` values with sum `t` and sum of squares `q`. */
  ghost predicate IsDeviations(e: real, x: real, k: real, t: real, q: real) { e == q - 2.0 * x * t + k * x * x }

  ghost predicate IsSpread(b: real, k: real, t: real, q: real) { b == k * q - t * t }

  ghost predicate IsSplit(n: real, e: real, d: real, b: real) { n * e == d * d + b }

  ghost predicate IsSquareMore(q': real, x: real, q: real) { q' == x * x + q }

  ghost predicate IsScaled(v: real, n: real, b: real) { v * (n * n) == b }

  ghost predicate IsQuotient(v: real, e: real, n: real)
    requires n != 0.0
  {
    v == e / n
  }

  ghost predicate IsOffset(d: real, n: real, x: real, t: real) { d == n * x - t }

  ghost predicate IsProduct(x: real, y: real, p: real) { x * y == p }

  lemma SumsStep(s: seq<real>, m: real)
    requires s != []
    ensures |s| as real == |s[1..]| as real + 1.0 && Sum(s) == s[0] + Sum(s[1..])
    ensures IsSquareMore(SumSquares(s), s[0], SumSquares(s[1..]))
    ensures IsSquareMore(SquaredDeviations(s, m), s[0] - m, SquaredDeviations(s[1..], m))
  {
  }

  lemma {:induction false} DeviationsExpand(s: seq<real>, m: real)
    ensures IsDeviations(SquaredDeviations(s, m), m, |s| as real, Sum(s), SumSquares(s))
  {
    if s != [] {
      DeviationsExpand(s[1..], m);
      SumsStep(s, m);
      DeviationsStep(s[0], m, SumSquares(s[1..]), Sum(s[1..]), |s[1..]| as real, SquaredDeviations(s[1..], m),
        SumSquares(s), Sum(s), |s| as real, SquaredDeviations(s, m));
    }
  }

  lemma DeviationsStep(x: real, m: real, q: real, t: real, k: real, e: real, q': real, t': real, k': real, e': real)
    requires IsDeviations(e, m, k, t, q)
    requires k' == k + 1.0 && t' == x + t && IsSquareMore(q', x, q) && IsSquareMore(e', x - m, e)
    ensures IsDeviations(e', m, k', t', q')
  {
  }

  /** The spread is n times the sum of squares minus the square of the sum. */
  lemma {:induction false} SpreadExpand(s: seq<real>)
    ensures IsSpread(Spread(s), |s| as real, Sum(s), SumSquares(s))
  {
    if s != [] {
      SpreadExpand(s[1..]);
      DeviationsExpand(s[1..], s[0]);
      SumsStep(s, 0.0);
      SpreadStep(s[0], SumSquares(s[1..]), Sum(s[1..]), |s[1..]| as real, SquaredDeviations(s[1..], s[0]),
        Spread(s[1..]), |s| as real, SumSquares(s), Sum(s), Spread(s));
    }
  }

  lemma SpreadStep(x: real, q: real, t: real, k: real, e: real, b: real, k': real, q': real, t': real, b': real)
    requires IsDeviations(e, x, k, t, q) && IsSpread(b, k, t, q)
    requires k' == k + 1.0 && IsSquareMore(q', x, q) && t' == x + t && b' == e + b
    ensures IsSpread(b', k', t', q')
  {
  }

  /** How far n times a point is from the sum. */
  function Offset(s: seq<real>, x: real): real { |s| as real * x - Sum(s) }

  lemma OffsetExpand(s: seq<real>, x: real)
    ensures IsOffset(Offset(s, x), |s| as real, x, Sum(s))
  {
  }

  /** Deviations from any point: what the mean contributes, and the spread. */
  lemma DeviationsSplit(s: seq<real>, x: real)
    ensures IsSplit(|s| as real, SquaredDeviations(s, x), Offset(s, x), Spread(s))
  {
    SpreadExpand(s);
    DeviationsExpand(s, x);
    OffsetExpand(s, x);
    SplitStep(x, SumSquares(s), Sum(s), |s| as real, SquaredDeviations(s, x), Spread(s), Offset(s, x));
  }

  lemma SplitStep(x: real, q: real, t: real, n: real, e: real, b: real, d: real)
    requires IsDeviations(e, x, n, t, q) && IsSpread(b, n, t, q) && IsOffset(d, n, x, t)
    ensures IsSplit(n, e, d, b)
  {
  }

  lemma {:induction false} DeviationsNonNegative(s: seq<real>, x: real)
    ensures SquaredDeviations(s, x) >= 0.0
    ensures SquaredDeviations(s, x) == 0.0 <==> forall i | 0 <= i < |s| :: s[i] == x
  {
    if s != [] {
      DeviationsNonNegative(s[1..], x);
      Square(s[0] - x);
      assert forall i | 1 <= i < |s| :: s[i] == s[1..][i - 1];
    }
  }

  lemma Square(d: real)
    ensures d * d >= 0.0 && (d * d == 0.0 <==> d == 0.0)
  {
    if d > 0.0 {
      Product(d, d);
    } else if d < 0.0 {
      Product(-d, -d);
      assert d * d == (-d) * (-d);
    }
  }

  ghost predicate AllEqual(s: seq<real>) { forall i | 0 < i < |s| :: s[i] == s[0] }

  /** The spread is never negative, and zero exactly when all values are equal. */
  lemma {:induction false} SpreadNonNegative(s: seq<real>)
    ensures Spread(s) >= 0.0
    ensures Spread(s) == 0.0 <==> AllEqual(s)
  {
    if s != [] {
      SpreadNonNegative(s[1..]);
      DeviationsNonNegative(s[1..], s[0]);
      assert forall i | 1 <= i < |s| :: s[i] == s[1..][i - 1];
    }
  }

  lemma MeanTimesSize(s: seq<real>)
    requires s != []
    ensures IsProduct(Mean(s), |s| as real, Sum(s)) && Offset(s, Mean(s)) == 0.0
  {
  }

  lemma VarianceTimesSize(s: seq<real>)
    requires s != []
    ensures IsScaled(Variance(s), |s| as real, Spread(s))
  {
    DeviationsSplit(s, Mean(s));
    MeanTimesSize(s);
    VarianceQuotient(s);
    Rescale(Variance(s), SquaredDeviations(s, Mean(s)), |s| as real, Spread(s), Offset(s, Mean(s)));
  }

  lemma VarianceQuotient(s: seq<real>)
    requires s != []
    ensures IsQuotient(Variance(s), SquaredDeviations(s, Mean(s)), |s| as real)
  {
  }

  lemma Rescale(v: real, e: real, n: real, b: real, d: real)
    requires n > 0.0 && IsQuotient(v, e, n) && d == 0.0 && IsSplit(n, e, d, b)
    ensures IsScaled(v, n, b)
  {
  }

  /** The newest amount is in its own sample, so its score is bounded by the sample size: the square
      is at most n - 1, it reaches n - 1 exactly when all other amounts are equal and differ from the
      newest, and a sample without deviation scores zero. */
  lemma ScoreBound(sample: seq<real>)
    requires |sample| >= 5
    ensures var z := Score(sample[0], sample);
      && z.denSquared > 0.0
      && z.Square() <= (|sample| - 1) as real
      && (z.Square() == (|sample| - 1) as real <==> AllEqual(sample[1..]) && sample[0] != sample[1])
      && (AllEqual(sample) ==> z.num == 0.0)
  {
    SpreadNonNegative(sample);
    SpreadNonNegative(sample[1..]);
    assert AllEqual(sample) <==> AllEqual(sample[1..]) && sample[0] == sample[1] by {
      assert forall i | 1 <= i < |sample| :: sample[i] == sample[1..][i - 1];
    }
    assert |sample[1..]| as real == (|sample| - 1) as real;
    ScoreBySpread(sample);
  }

  lemma ScoreBySpread(s: seq<real>)
    requires |s| >= 5 && Spread(s) >= 0.0 && Spread(s[1..]) >= 0.0
    ensures BoundedBy(Score(s[0], s), |s[1..]| as real, Spread(s), Spread(s[1..]))
  {
    VarianceTimesSize(s);
    DeviationsSplit(s[1..], s[0]);
    NumeratorTimesSize(s);
    assert Spread(s) == SquaredDeviations(s[1..], s[0]) + Spread(s[1..]);
    BoundArithmetic(|s| as real, |s[1..]| as real, Offset(s[1..], s[0]), SquaredDeviations(s[1..], s[0]),
      Spread(s[1..]), s[0] - Mean(s), Variance(s));
  }

  /** The score's square is at most `m`, and reaches it exactly when the rest of the sample has no spread. */
  ghost predicate BoundedBy(z: ZScore, m: real, spread: real, restSpread: real) {
    && z.denSquared > 0.0
    && (spread == 0.0 ==> z.num == 0.0 && z.Square() == 0.0 && restSpread == 0.0)
    && (spread > 0.0 ==> z.Square() <= m && (z.Square() == m <==> restSpread == 0.0))
  }

  lemma NumeratorTimesSize(s: seq<real>)
    requires s != []
    ensures IsProduct(s[0] - Mean(s), |s| as real, Offset(s[1..], s[0]))
  {
  }

  lemma BoundArithmetic(n: real, m: real, d: real, e: real, b: real, num: real, v: real)
    requires n > 1.0 && n == m + 1.0 && e + b >= 0.0 && b >= 0.0
    requires IsSplit(m, e, d, b) && IsProduct(num, n, d) && IsScaled(v, n, e + b)
    ensures BoundedBy(ZScore(num, if v == 0.0 then 1.0 else v), m, e + b, b)
  {
    var k, a := n * n, e + b;
    Square(d);
    assert k > 0.0;
    assert m * a == d * d + n * b;
    if a == 0.0 {
      assert n * b >= 0.0;
      assert d * d == 0.0 && n * b == 0.0;
      assert v == 0.0 by { if v > 0.0 { Product(v, k); } else if v < 0.0 { Product(-v, k); } }
      assert num == 0.0;
    } else {
      assert v > 0.0 by { if v <= 0.0 { Product(-v, k); } }
      Squares(num, n, d);
      assert n * b >= 0.0 && (n * b == 0.0 <==> b == 0.0);
      assert (m * v) * k == m * a;
      CompareScaled(num * num, m * v, k);
      DivideBound(num * num, m, v);
    }
  }

  lemma Product(x: real, y: real)
    requires x >= 0.0 && y > 0.0
    ensures x * y >= 0.0 && (x * y == 0.0 <==> x == 0.0)
  {
  }

  lemma Squares(num: real, n: real, d: real)
    requires num * n == d
    ensures num * num * (n * n) == d * d
  {
  }

  lemma CompareScaled(x: real, y: real, k: real)
    requires k > 0.0
    ensures x * k <= y * k <==> x <= y
    ensures x * k == y * k <==> x == y
  {
  }

  lemma DivideBound(x: real, c: real, v: real)
    requires v > 0.0
    ensures x / v <= c <==> x <= c * v
    ensures x / v == c <==> x == c * v
  {
  }

  /** What the score of an amount in a sample is, by the sum and the spread of the sample alone: from five
      amounts on, n times the numerator is n times the amount less the sum, and n squared times the squared
      denominator is the spread, or n squared when there is none. Below five amounts the score is zero. */
  ghost predicate IsZScore(z: ZScore, amount: real, sample: seq<real>) {
    var n := |sample| as real;
    if |sample| < 5 then z.num == 0.0 && z.denSquared == 1.0
    else
      && n * z.num == n * amount - Sum(sample)
      && n * n * z.denSquared == (if Spread(sample) == 0.0 then n * n else Spread(sample))
      && z.denSquared > 0.0
      && (z.num > 0.0 <==> n * amount > Sum(sample))
      && (z.num < 0.0 <==> n * amount < Sum(sample))
  }

  lemma ScoreExactly(amount: real, sample: seq<real>)
    ensures IsZScore(Score(amount, sample), amount, sample)
  {
    if |sample| >= 5 {
      MeanTimesSize(sample);
      VarianceTimesSize(sample);
      SpreadNonNegative(sample);
      ScoreParts(amount, |sample| as real, Sum(sample), Mean(sample), Variance(sample), Spread(sample));
    }
  }

  lemma ScoreParts(amount: real, n: real, sum: real, mean: real, v: real, spread: real)
    requires n > 0.0 && IsProduct(mean, n, sum) && IsScaled(v, n, spread) && spread >= 0.0
    ensures var num, den := amount - mean, if v == 0.0 then 1.0 else v;
      && n * num == n * amount - sum
      && n * n * den == (if spread == 0.0 then n * n else spread)
      && den > 0.0
      && (num > 0.0 <==> n * amount > sum) && (num < 0.0 <==> n * amount < sum)
  {
    assert n * (amount - mean) == n * amount - mean * n;
    SignOf(n, amount - mean);
    Product(n, n);
    SignOf(n * n, v);
    assert n * n * v == v * (n * n);
  }

  lemma SignOf(n: real, x: real)
    requires n > 0.0
    ensures (n * x > 0.0 <==> x > 0.0) && (n * x < 0.0 <==> x < 0.0) && (n * x == 0.0 <==> x == 0.0)
  {
  }

  // ----- The worker's state -----

  function Pruned(times: map<string, nat>, cut: int): map<string, nat> {
    map tx | tx in times && times[tx] > cut :: times[tx]
  }

  function Newest(amounts: seq<real>): seq<real> {
    if |amounts| <= KEPT_AMOUNTS then amounts else amounts[..KEPT_AMOUNTS]
  }

  // The Redis commands the worker uses, on a sorted set as member -> score and on a list.

  function ZRemRangeByScore(s: map<string, nat>, lo: int, hi: int): map<string, nat> {
    map m | m in s && !(lo <= s[m] <= hi) :: s[m]
  }

  function ZCount(s: map<string, nat>, lo: int, hi: int): nat {
    |set m | m in s && lo <= s[m] <= hi|
  }

  function LTrim(l: seq<real>, first: nat, last: nat): seq<real> {
    var n := if last + 1 <= |l| then last + 1 else |l|;
    if first >= n then [] else l[first..n]
  }

  function ScoresOf(velocity: map<string, map<string, nat>>, user: string): map<string, nat> {
    if user in velocity then velocity[user] else map[]
  }

  function KeptBy(amounts: map<string, seq<real>>, user: string): seq<real> {
    if user in amounts then amounts[user] else []
  }

  /** Every sorted set is the full history cut off a day before the user's latest event, and every list
      holds the user's newest amounts. */
  ghost predicate Represents(velocity: map<string, map<string, nat>>, amounts: map<string, seq<real>>,
                             history: seq<Event>) {
    && InOrder(history)
    && (forall u :: ScoresAgree(velocity, history, u))
    && (forall u :: KeptAgree(amounts, history, u))
  }

  ghost predicate ScoresAgree(velocity: map<string, map<string, nat>>, history: seq<Event>, u: string) {
    ScoresOf(velocity, u) == Pruned(LastTimes(history, u), LatestOf(history, u) - DAY)
  }

  ghost predicate KeptAgree(amounts: map<string, seq<real>>, history: seq<Event>, u: string) {
    KeptBy(amounts, u) == Newest(Amounts(history, u))
  }

  ghost predicate SquareAtMost(z: ZScore, bound: real) { z.denSquared > 0.0 && z.Square() <= bound }

  class FeatureStore {
    // Redis sorted sets as member -> score, and lists, by user.
    var velocity: map<string, map<string, nat>>
    var amounts: map<string, seq<real>>
    ghost var history: seq<Event>

    ghost predicate Valid()
      reads this
    {
      Represents(velocity, amounts, history)
    }

    constructor ()
      ensures Valid() && history == []
    {
      velocity, amounts, history := map[], map[], [];
    }

    /** The features handed to the model, in terms of the full history of events. */
    method Handle(e: Event) returns (velocity1h: nat, velocity24h: nat, z: ZScore)
      requires Valid() && (history != [] ==> history[|history| - 1].now <= e.now)
      modifies this
      ensures Valid() && history == old(history) + [e]
      ensures velocity24h == |LastDay(LastTimes(history, e.user), e.now)|
      ensures velocity1h == |LastHour(LastTimes(history, e.user), e.now)|
      ensures 1 <= velocity1h <= velocity24h
      ensures z == Score(e.amount, Newest(Amounts(history, e.user)))
      ensures SquareAtMost(z, 100.0)
      ensures var all := Amounts(history, e.user); IsZScore(z, e.amount, if |all| <= 101 then all else all[..101])
    {
      var oneHour, oneDay := e.now - HOUR, e.now - DAY;

      var scores := ScoresOf(velocity, e.user)[e.tx := e.now];
      scores := ZRemRangeByScore(scores, 0, oneDay);
      velocity1h := ZCount(scores, oneHour, e.now);
      velocity24h := ZCount(scores, oneDay, e.now);

      var sample := [e.amount] + KeptBy(amounts, e.user);
      sample := LTrim(sample, 0, 100);
      z := Score(e.amount, sample);

      HandledScores(velocity, amounts, history, e);
      HandledCounts(history, e);
      HandledAmounts(velocity, amounts, history, e);
      ScoreExactly(e.amount, sample);
      HandledRepresents(velocity, amounts, history, e, scores, sample);

      velocity := velocity[e.user := scores];
      amounts := amounts[e.user := sample];
      history := history + [e];
    }
  }

  lemma HandledScores(velocity: map<string, map<string, nat>>, amounts: map<string, seq<real>>,
      history: seq<Event>, e: Event)
    requires Represents(velocity, amounts, history) && (history != [] ==> history[|history| - 1].now <= e.now)
    ensures ZRemRangeByScore(ScoresOf(velocity, e.user)[e.tx := e.now], 0, e.now - DAY)
         == Pruned(LastTimes(history + [e], e.user), e.now - DAY)
  {
    var before, cut := LastTimes(history, e.user), LatestOf(history, e.user) - DAY;
    assert cut <= e.now - DAY by { LatestIsPast(history, e.user, e.now); }
    assert ScoresOf(velocity, e.user) == Pruned(before, cut) by { assert ScoresAgree(velocity, history, e.user); }
    assert LastTimes(history + [e], e.user) == before[e.tx := e.now] by { Appended(history, e, e.user); }
    PruneStep(before, cut, e.tx, e.now);
  }

  lemma HandledCounts(history: seq<Event>, e: Event)
    ensures var full := LastTimes(history + [e], e.user); var s := Pruned(full, e.now - DAY);
      && ZCount(s, e.now - DAY, e.now) == |LastDay(full, e.now)|
      && ZCount(s, e.now - HOUR, e.now) == |LastHour(full, e.now)|
      && 1 <= |LastHour(full, e.now)| <= |LastDay(full, e.now)|
  {
    Appended(history, e, e.user);
    CountsAgree(LastTimes(history + [e], e.user), e.now, e.tx);
  }

  lemma HandledAmounts(velocity: map<string, map<string, nat>>, amounts: map<string, seq<real>>,
      history: seq<Event>, e: Event)
    requires Represents(velocity, amounts, history)
    ensures var s := LTrim([e.amount] + KeptBy(amounts, e.user), 0, 100);
      && s == Newest(Amounts(history + [e], e.user))
      && SquareAtMost(Score(e.amount, s), 100.0)
  {
    assert KeptAgree(amounts, history, e.user);
    Appended(history, e, e.user);
    NewestStep(e.amount, Amounts(history, e.user));
    ScoreAtMost100(Newest(Amounts(history + [e], e.user)));
  }

  lemma HandledRepresents(velocity: map<string, map<string, nat>>, amounts: map<string, seq<real>>, history: seq<Event>,
                          e: Event, scores: map<string, nat>, sample: seq<real>)
    requires Represents(velocity, amounts, history) && (history != [] ==> history[|history| - 1].now <= e.now)
    requires scores == Pruned(LastTimes(history + [e], e.user), e.now - DAY)
    requires sample == Newest(Amounts(history + [e], e.user))
    ensures Represents(velocity[e.user := scores], amounts[e.user := sample], history + [e])
  {
    var velocity', amounts', history' := velocity[e.user := scores], amounts[e.user := sample], history + [e];
    InOrderAppend(history, e);
    forall u ensures ScoresAgree(velocity', history', u) {
      ScoresAgreeStep(velocity, history, e, scores, u);
    }
    forall u ensures KeptAgree(amounts', history', u) {
      KeptAgreeStep(amounts, history, e, sample, u);
    }
  }

  lemma ScoresAgreeStep(velocity: map<string, map<string, nat>>, history: seq<Event>, e: Event,
      scores: map<string, nat>, u: string)
    requires ScoresAgree(velocity, history, u) || u == e.user
    requires scores == Pruned(LastTimes(history + [e], e.user), e.now - DAY)
    ensures ScoresAgree(velocity[e.user := scores], history + [e], u)
  {
  }

  lemma KeptAgreeStep(amounts: map<string, seq<real>>, history: seq<Event>, e: Event, sample: seq<real>, u: string)
    requires KeptAgree(amounts, history, u) || u == e.user
    requires sample == Newest(Amounts(history + [e], e.user))
    ensures KeptAgree(amounts[e.user := sample], history + [e], u)
  {
  }

  lemma InOrderAppend(history: seq<Event>, e: Event)
    requires InOrder(history) && (history != [] ==> history[|history| - 1].now <= e.now)
    ensures InOrder(history + [e])
  {
  }

  lemma Appended(history: seq<Event>, e: Event, u: string)
    ensures var h := history + [e];
      if u == e.user then
        && LastTimes(h, u) == LastTimes(history, u)[e.tx := e.now]
        && Amounts(h, u) == [e.amount] + Amounts(history, u)
        && LatestOf(h, u) == e.now
      else
        && LastTimes(h, u) == LastTimes(history, u)
        && Amounts(h, u) == Amounts(history, u)
        && LatestOf(h, u) == LatestOf(history, u)
  {
  }

  lemma {:induction false} LatestIsPast(history: seq<Event>, user: string, now: nat)
    requires InOrder(history) && (history != [] ==> history[|history| - 1].now <= now)
    ensures LatestOf(history, user) <= now
  {
    if history != [] { LatestIsPast(history[..|history| - 1], user, now); }
  }

  /** Adding to a pruned set and pruning it further is the same as pruning the full map. */
  lemma PruneStep(full: map<string, nat>, cut: int, tx: string, now: nat)
    requires cut <= now - DAY
    ensures ZRemRangeByScore(Pruned(full, cut)[tx := now], 0, now - DAY) == Pruned(full[tx := now], now - DAY)
  {
  }

  lemma CountsAgree(full: map<string, nat>, now: nat, tx: string)
    requires tx in full && full[tx] == now
    ensures var s := Pruned(full, now - DAY);
      && ZCount(s, now - DAY, now) == |LastDay(full, now)|
      && ZCount(s, now - HOUR, now) == |LastHour(full, now)|
      && 1 <= |LastHour(full, now)| <= |LastDay(full, now)|
  {
    var scores, day, hour := Pruned(full, now - DAY), LastDay(full, now), LastHour(full, now);
    assert (set t | t in scores && now - DAY <= scores[t] <= now) == day;
    assert (set t | t in scores && now - HOUR <= scores[t] <= now) == hour;
    assert tx in hour;
    SubsetSize(hour, day);
    SubsetSize({tx}, hour);
  }

  lemma {:induction false} SubsetSize(a: set<string>, b: set<string>)
    requires a <= b
    ensures |a| <= |b|
  {
    if a != {} {
      var x :| x in a;
      SubsetSize(a - {x}, b - {x});
    }
  }

  lemma NewestStep(amount: real, before: seq<real>)
    ensures LTrim([amount] + Newest(before), 0, 100) == Newest([amount] + before)
  {
  }

  lemma ScoreAtMost100(sample: seq<real>)
    requires 0 < |sample| <= KEPT_AMOUNTS
    ensures SquareAtMost(Score(sample[0], sample), 100.0)
  {
    if |sample| >= 5 { ScoreBound(sample); }
  }
}
