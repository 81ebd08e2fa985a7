/** The generic cell rate limiter of packages/node/src/reqresp/rate_limiter/rateLimiterGRCA.ts.
    Times are in milliseconds since the limiter was built, as reals. */
module Gcra {
  import opened Wrappers

  datatype Quota = Quota(quotaTimeMs: real, quota: real)

  /** `perBucket` is how long an empty bucket takes to fill, `perToken` how long one token takes. */
  datatype Rate = Rate(perBucket: real, perToken: real) {
    predicate Valid() {
      perBucket > 0.0 && perToken > 0.0
    }

    function Capacity(): real
      requires Valid()
    {
      perBucket / perToken
    }
  }

  function Max(a: real, b: real): real {
    if a < b then b else a
  }

  function Min(a: real, b: real): real {
    if a < b then a else b
  }

  /** `fromQuota`: only zero is rejected. */
  function RateFromQuota(q: Quota): Result<Rate, string> {
    if q.quota == 0.0 then Failure("Max number of tokens should be positive")
    else if q.quotaTimeMs == 0.0 then Failure("Replenish time must be positive")
    else Success(Rate(q.quotaTimeMs, q.quotaTimeMs / q.quota))
  }

  lemma RateFailsExactlyWhen(q: Quota)
    ensures q.quota == 0.0 ==> RateFromQuota(q) == Failure("Max number of tokens should be positive")
    ensures q.quota != 0.0 && q.quotaTimeMs == 0.0 ==> RateFromQuota(q) == Failure("Replenish time must be positive")
    ensures q.quota != 0.0 && q.quotaTimeMs != 0.0 ==> RateFromQuota(q).Success?
  {
  }

  /** A positive quota gives a bucket that holds exactly `quota` tokens. */
  lemma QuotaIsCapacity(q: Quota)
    requires q.quota > 0.0 && q.quotaTimeMs > 0.0
    ensures RateFromQuota(q).Success? && RateFromQuota(q).value.Valid()
    ensures RateFromQuota(q).value.Capacity() == q.quota
  {
    var perToken := q.quotaTimeMs / q.quota;
    assert perToken * q.quota == q.quotaTimeMs;
    assert q.quotaTimeMs / perToken == q.quota;
  }

  /** The stored theoretical arrival time of one key. */
  type Tat = Option<real>

  /** One request for one key that takes `additional` time to pay for: the answer and the arrival
      time left behind. */
  function DecideFor(perBucket: real, tat: Tat, additional: real, t: real): (bool, Tat) {
    if additional > perBucket then (false, tat)
    else
      var reset := tat.GetOr(t);
      if t < reset + additional - perBucket then (false, Some(reset))
      else (true, Some(Max(t, reset) + additional))
  }

  /** How long the tokens take to replenish. */
  function Cost(r: Rate, tokens: real): real {
    r.perToken * tokens
  }

  function Decide(r: Rate, tat: Tat, tokens: real, t: real): (bool, Tat) {
    DecideFor(r.perBucket, tat, Cost(r, tokens), t)
  }

  type Tats<Key> = map<Key, real>

  function Lookup<Key>(tats: Tats<Key>, k: Key): Tat {
    if k in tats then Some(tats[k]) else None
  }

  function Updated<Key>(tats: Tats<Key>, k: Key, tat: Tat): Tats<Key> {
    match tat
    case None => tats
    case Some(v) => tats[k := v]
  }

  /** One request against all keys. */
  function Request<Key>(r: Rate, tats: Tats<Key>, k: Key, tokens: real, t: real): (bool, Tats<Key>) {
    var (ok, tat) := Decide(r, Lookup(tats, k), tokens, t);
    (ok, Updated(tats, k, tat))
  }

  class RateLimiterGRCA<Key(==)> {
    const rate: Rate
    const startTimeMs: real
    var tatPerKey: Tats<Key>

    constructor (rate: Rate, dateNow: real)
      ensures this.rate == rate && startTimeMs == dateNow && tatPerKey == map[]
    {
      this.rate := rate;
      startTimeMs := dateNow;
      tatPerKey := map[];
    }

    method Allows(key: Key, tokens: real, dateNow: real) returns (ok: Result<bool, string>)
      modifies this
      ensures tokens <= 0.0 ==> ok.Failure? && tatPerKey == old(tatPerKey)
      ensures tokens > 0.0 ==>
                ok.Success?
                && ok.value == Request(rate, old(tatPerKey), key, tokens, dateNow - startTimeMs).0
                && tatPerKey == Request(rate, old(tatPerKey), key, tokens, dateNow - startTimeMs).1
    {
      if tokens <= 0.0 {
        return Failure("Token value should always be positive.");
      }
      var msSinceStart := dateNow - startTimeMs;
      var additionalTime := rate.perToken * tokens;
      if additionalTime > rate.perBucket {
        assert Decide(rate, Lookup(tatPerKey, key), tokens, msSinceStart) == (false, Lookup(tatPerKey, key));
        assert Updated(tatPerKey, key, Lookup(tatPerKey, key)) == tatPerKey;
        return Success(false);
      }
      var resetTimeForKey;
      if key in tatPerKey {
        resetTimeForKey := tatPerKey[key];
      } else {
        resetTimeForKey := msSinceStart;
        tatPerKey := tatPerKey[key := resetTimeForKey];
      }
      assert tatPerKey == old(tatPerKey)[key := resetTimeForKey];
      var earliestTime := resetTimeForKey + additionalTime - rate.perBucket;
      if msSinceStart < earliestTime {
        return Success(false);
      }
      tatPerKey := tatPerKey[key := Max(msSinceStart, resetTimeForKey) + additionalTime];
      return Success(true);
    }

    method PruneByTime(timeLimit: real)
      modifies this
      ensures tatPerKey == PrunedByTime(old(tatPerKey), timeLimit)
    {
      var rest := tatPerKey.Keys;
      while rest != {}
        invariant rest <= old(tatPerKey).Keys
        invariant tatPerKey
               == map k | k in old(tatPerKey) && (k in rest || old(tatPerKey)[k] >= timeLimit) :: old(tatPerKey)[k]
      {
        var k :| k in rest;
        rest := rest - {k};
        if tatPerKey[k] < timeLimit {
          tatPerKey := tatPerKey - {k};
        }
      }
    }

    method PruneByKey(key: Key)
      modifies this
      ensures tatPerKey == old(tatPerKey) - {key}
    {
      tatPerKey := tatPerKey - {key};
    }
  }

  function PrunedByTime<Key>(tats: Tats<Key>, limit: real): Tats<Key> {
    map k | k in tats && tats[k] >= limit :: tats[k]
  }

  // ----- Runs -----

  /** A request for `tokens` tokens by `key` at time `t`. */
  datatype Arrival<Key> = Arrival(key: Key, tokens: real, t: real)

  ghost predicate Ordered<Key>(arrivals: seq<Arrival<Key>>) {
    && (forall a <- arrivals :: a.tokens > 0.0)
    && (forall i, j :: 0 <= i <= j < |arrivals| ==> arrivals[i].t <= arrivals[j].t)
  }

  /** A run of the limiter: the answers it gives and the arrival times it goes through. */
  ghost predicate Run<Key>(r: Rate, arrivals: seq<Arrival<Key>>, oks: seq<bool>, states: seq<Tats<Key>>) {
    && |states| == |arrivals| + 1 && |oks| == |arrivals|
    && forall i :: 0 <= i < |arrivals| ==> RunStepAt(r, arrivals, oks, states, i)
  }

  ghost predicate RunStepAt<Key>(r: Rate, arrivals: seq<Arrival<Key>>, oks: seq<bool>, states: seq<Tats<Key>>, i: nat)
    requires i < |arrivals| == |oks| && |states| == |arrivals| + 1
  {
    RunStep(r, arrivals[i], states[i], oks[i], states[i + 1])
  }

  ghost predicate RunStep<Key>(r: Rate, a: Arrival<Key>, before: Tats<Key>, ok: bool, after: Tats<Key>) {
    (ok, after) == Request(r, before, a.key, a.tokens, a.t)
  }

  /** What the `i`-th request adds to the tokens admitted for a key. */
  function Share<Key(==)>(arrivals: seq<Arrival<Key>>, oks: seq<bool>, key: Key, i: nat): real
    requires i < |arrivals| == |oks|
  {
    if arrivals[i].key == key && oks[i] then arrivals[i].tokens else 0.0
  }

  /** The tokens admitted for one key by the requests `lo..hi` of a run. */
  function AdmittedTokens<Key(==)>(arrivals: seq<Arrival<Key>>, oks: seq<bool>, key: Key, lo: nat, hi: nat): real
    requires lo <= hi <= |arrivals| == |oks|
    decreases hi
  {
    if lo == hi then 0.0
    else AdmittedTokens(arrivals, oks, key, lo, hi - 1) + Share(arrivals, oks, key, hi - 1)
  }

  /** What that costs in time. */
  function ShareCost<Key(==)>(r: Rate, arrivals: seq<Arrival<Key>>, oks: seq<bool>, key: Key, i: nat): real
    requires i < |arrivals| == |oks|
  {
    Cost(r, Share(arrivals, oks, key, i))
  }

  /** The time those tokens cost. */
  function AdmittedCost<Key(==)>(r: Rate, arrivals: seq<Arrival<Key>>, oks: seq<bool>, key: Key, lo: nat, hi: nat): real
    requires lo <= hi <= |arrivals| == |oks|
    decreases hi
  {
    if lo == hi then 0.0
    else AdmittedCost(r, arrivals, oks, key, lo, hi - 1) + ShareCost(r, arrivals, oks, key, hi - 1)
  }

  lemma Distribute(a: real, b: real, c: real)
    ensures a * (b + c) == a * b + a * c
  {
  }

  lemma {:induction false} CostIsTokens<Key>(r: Rate, arrivals: seq<Arrival<Key>>, oks: seq<bool>, key: Key, lo: nat,
                                             hi: nat)
    requires lo <= hi <= |arrivals| == |oks|
    ensures AdmittedCost(r, arrivals, oks, key, lo, hi) == r.perToken * AdmittedTokens(arrivals, oks, key, lo, hi)
    decreases hi
  {
    if lo == hi {
    } else {
      CostIsTokens(r, arrivals, oks, key, lo, hi - 1);
      Distribute(r.perToken, AdmittedTokens(arrivals, oks, key, lo, hi - 1), Share(arrivals, oks, key, hi - 1));
    }
  }

  /** An admitted request leaves an arrival time between `t` plus its own cost and `t + perBucket`. */
  lemma AdmissionBounds(perBucket: real, tat: Tat, additional: real, t: real)
    requires perBucket > 0.0 && DecideFor(perBucket, tat, additional, t).0
    ensures var tat' := DecideFor(perBucket, tat, additional, t).1;
            && tat'.Some?
            && t + additional <= tat'.value <= t + perBucket
            && tat.GetOr(t) + additional <= tat'.value
  {
  }

  /** An admitted request leaves its key between its own cost and one full bucket ahead. */
  lemma AdmittedWithinBucket<Key>(r: Rate, arrivals: seq<Arrival<Key>>, oks: seq<bool>, states: seq<Tats<Key>>, i: nat)
    requires r.Valid() && Run(r, arrivals, oks, states) && i < |arrivals| && oks[i]
    ensures arrivals[i].key in states[i + 1]
    ensures arrivals[i].t + ShareCost(r, arrivals, oks, arrivals[i].key, i)
            <= states[i + 1][arrivals[i].key] <= arrivals[i].t + r.perBucket
  {
    var a := arrivals[i];
    assert RunStepAt(r, arrivals, oks, states, i);
    AdmissionBounds(r.perBucket, Lookup(states[i], a.key), Cost(r, a.tokens), a.t);
  }

  /** One more request raises a known key's arrival time by at least the cost of what it is granted. */
  lemma StepPays<Key>(r: Rate, arrivals: seq<Arrival<Key>>, oks: seq<bool>, states: seq<Tats<Key>>, i: nat, key: Key)
    requires r.Valid() && Run(r, arrivals, oks, states) && i < |arrivals| && key in states[i]
    ensures key in states[i + 1] && states[i + 1][key] >= states[i][key] + ShareCost(r, arrivals, oks, key, i)
  {
    var a := arrivals[i];
    assert RunStepAt(r, arrivals, oks, states, i);
    if a.key == key && oks[i] {
      AdmissionBounds(r.perBucket, Lookup(states[i], key), Cost(r, a.tokens), a.t);
    } else {
      assert ShareCost(r, arrivals, oks, key, i) == 0.0;
    }
  }

  /** From an admitted request on, the key's arrival time pays for every token admitted since. */
  lemma {:induction false} ArrivalTimePays<Key>(r: Rate, arrivals: seq<Arrival<Key>>, oks: seq<bool>,
                                                states: seq<Tats<Key>>, i: nat, j: nat)
    requires r.Valid() && Run(r, arrivals, oks, states)
    requires i < j <= |arrivals| && oks[i]
    ensures arrivals[i].key in states[j]
    ensures states[j][arrivals[i].key] >= arrivals[i].t + AdmittedCost(r, arrivals, oks, arrivals[i].key, i, j)
    decreases j
  {
    var key := arrivals[i].key;
    if j == i + 1 {
      AdmittedWithinBucket(r, arrivals, oks, states, i);
      assert AdmittedCost(r, arrivals, oks, key, i, i) == 0.0;
    } else {
      ArrivalTimePays(r, arrivals, oks, states, i, j - 1);
      StepPays(r, arrivals, oks, states, j - 1, key);
    }
  }

  lemma CostBound<Key>(r: Rate, arrivals: seq<Arrival<Key>>, oks: seq<bool>, states: seq<Tats<Key>>, i: nat, j: nat)
    requires r.Valid() && Run(r, arrivals, oks, states)
    requires i <= j < |arrivals| && arrivals[i].key == arrivals[j].key && oks[i] && oks[j]
    ensures AdmittedCost(r, arrivals, oks, arrivals[i].key, i, j + 1)
            <= arrivals[j].t - arrivals[i].t + r.perBucket
  {
    ArrivalTimePays(r, arrivals, oks, states, i, j + 1);
    AdmittedWithinBucket(r, arrivals, oks, states, j);
  }

  /** The window bound: between two admitted requests of a key, both included, the tokens admitted
      cost at most the time between them plus one full bucket. */
  lemma WindowBound<Key>(r: Rate, arrivals: seq<Arrival<Key>>, oks: seq<bool>, states: seq<Tats<Key>>, i: nat, j: nat)
    requires r.Valid() && Run(r, arrivals, oks, states)
    requires i <= j < |arrivals| && arrivals[i].key == arrivals[j].key && oks[i] && oks[j]
    ensures r.perToken * AdmittedTokens(arrivals, oks, arrivals[i].key, i, j + 1)
            <= arrivals[j].t - arrivals[i].t + r.perBucket
  {
    CostBound(r, arrivals, oks, states, i, j);
    CostIsTokens(r, arrivals, oks, arrivals[i].key, i, j + 1);
  }

  // ----- The token bucket it stands for -----

  /** A bucket of tokens as it stood at time `last`. */
  datatype Bucket = Bucket(level: real, last: real)

  /** The level at time `t`: one token every `perToken`, up to the capacity. */
  function Refilled(r: Rate, b: Bucket, t: real): real
    requires r.Valid()
  {
    Min(r.Capacity(), b.level + (t - b.last) / r.perToken)
  }

  /** A token bucket admits a request exactly when it holds the tokens asked for. */
  function BucketDecide(r: Rate, b: Bucket, tokens: real, t: real): (bool, Bucket)
    requires r.Valid()
  {
    var level := Refilled(r, b, t);
    if tokens <= level then (true, Bucket(level - tokens, t)) else (false, Bucket(level, t))
  }

  /** The level an arrival time stands for at time `t`. */
  function LevelOf(r: Rate, tat: Tat, t: real): real
    requires r.Valid()
  {
    (r.perBucket - Max(0.0, tat.GetOr(t) - t)) / r.perToken
  }

  /** The bucket and the arrival time agree from time `t` on. */
  ghost predicate Agree(r: Rate, tat: Tat, b: Bucket, t: real)
    requires r.Valid()
  {
    b.last <= t && forall u {:trigger Refilled(r, b, u)} :: u >= t ==> Refilled(r, b, u) == LevelOf(r, tat, u)
  }

  /** Division by a positive real, seen from the other side. */
  lemma DivideLe(a: real, b: real, c: real)
    requires c > 0.0
    ensures a <= b / c <==> a * c <= b
  {
    assert (b / c) * c == b;
  }

  lemma DecisionsAgree(r: Rate, tat: Tat, b: Bucket, tokens: real, t: real)
    requires r.Valid() && tokens > 0.0 && Agree(r, tat, b, t)
    ensures Decide(r, tat, tokens, t).0 == BucketDecide(r, b, tokens, t).0
  {
    DivideLe(tokens, r.perBucket - Max(0.0, tat.GetOr(t) - t), r.perToken);
    assert Refilled(r, b, t) == LevelOf(r, tat, t);
  }

  lemma RefillsAgree(r: Rate, tat: real, b: Bucket, t: real)
    requires r.Valid() && b.last == t && b.level * r.perToken == r.perBucket - Max(0.0, tat - t)
    ensures Agree(r, Some(tat), b, t)
  {
    hide Refilled, LevelOf;
    forall u | u >= t ensures Refilled(r, b, u) == LevelOf(r, Some(tat), u) {
      LevelsMeet(r, tat, b, t, u);
    }
  }

  lemma LevelsMeet(r: Rate, tat: real, b: Bucket, t: real, u: real)
    requires r.Valid() && b.last == t <= u && b.level * r.perToken == r.perBucket - Max(0.0, tat - t)
    ensures Refilled(r, b, u) == LevelOf(r, Some(tat), u)
  {
    hide Refilled, LevelOf;
    ScaledRefill(r, b, u);
    ScaledLevel(r, tat, u);
    SpareGrows(r.perBucket, tat, t, u);
    SameProduct(Refilled(r, b, u), LevelOf(r, Some(tat), u), r.perToken);
  }

  /** What is left of the bucket, in milliseconds, grows with time until the bucket is full. */
  lemma SpareGrows(perBucket: real, tat: real, t: real, u: real)
    requires t <= u
    ensures Min(perBucket, perBucket - Max(0.0, tat - t) + (u - t)) == perBucket - Max(0.0, tat - u)
  {
  }

  lemma ScaledLevel(r: Rate, tat: real, t: real)
    requires r.Valid()
    ensures LevelOf(r, Some(tat), t) * r.perToken == r.perBucket - Max(0.0, tat - t)
  {
  }

  lemma SameProduct(a: real, b: real, c: real)
    requires c > 0.0 && a * c == b * c
    ensures a == b
  {
    assert (a - b) * c == 0.0;
  }

  /** The refilled level in milliseconds. */
  lemma ScaledRefill(r: Rate, b: Bucket, t: real)
    requires r.Valid()
    ensures Refilled(r, b, t) * r.perToken == Min(r.perBucket, b.level * r.perToken + (t - b.last))
  {
    var raw := b.level + (t - b.last) / r.perToken;
    assert r.Capacity() * r.perToken == r.perBucket;
    assert ((t - b.last) / r.perToken) * r.perToken == t - b.last;
    assert raw * r.perToken == b.level * r.perToken + (t - b.last);
  }

  lemma LevelInMs(r: Rate, tat: Tat, b: Bucket, t: real)
    requires r.Valid() && Agree(r, tat, b, t)
    ensures Refilled(r, b, t) * r.perToken == r.perBucket - Max(0.0, tat.GetOr(t) - t)
  {
    assert Refilled(r, b, t) == LevelOf(r, tat, t);
  }

  /** Taking the tokens and moving the arrival time on have the same effect. */
  lemma AdmissionAgrees(r: Rate, reset: real, level: real, tokens: real, t: real)
    requires r.Valid() && tokens > 0.0 && level * r.perToken == r.perBucket - Max(0.0, reset - t)
    ensures Agree(r, Some(Max(t, reset) + Cost(r, tokens)), Bucket(level - tokens, t), t)
  {
    var cost := Cost(r, tokens);
    assert (level - tokens) * r.perToken == level * r.perToken - cost;
    assert cost > 0.0;
    RefillsAgree(r, Max(t, reset) + cost, Bucket(level - tokens, t), t);
  }

  /** A refused request only brings the bucket's level up to date. */
  lemma RefusalAgrees(r: Rate, tat: Tat, b: Bucket, t: real)
    requires r.Valid() && Agree(r, tat, b, t)
    ensures Agree(r, tat, Bucket(Refilled(r, b, t), t), t)
    ensures Agree(r, Some(tat.GetOr(t)), Bucket(Refilled(r, b, t), t), t)
  {
    var b' := Bucket(Refilled(r, b, t), t);
    LevelInMs(r, tat, b, t);
    RefillsAgree(r, tat.GetOr(t), b', t);
    forall u | u >= t ensures Refilled(r, b', u) == LevelOf(r, tat, u) {
      assert Refilled(r, b', u) == LevelOf(r, Some(tat.GetOr(t)), u);
    }
  }

  lemma DecideCases(perBucket: real, tat: Tat, additional: real, t: real)
    ensures var (ok, tat') := DecideFor(perBucket, tat, additional, t);
            if ok then tat' == Some(Max(t, tat.GetOr(t)) + additional) else tat' == tat || tat' == Some(tat.GetOr(t))
  {
    var reset := tat.GetOr(t);
    if additional <= perBucket && t >= reset + additional - perBucket {
      assert DecideFor(perBucket, tat, additional, t) == (true, Some(Max(t, reset) + additional));
    }
  }

  lemma AdmissionKeepsAgreeing(r: Rate, tat: Tat, b: Bucket, tokens: real, t: real)
    requires r.Valid() && tokens > 0.0 && Agree(r, tat, b, t)
    ensures Agree(r, Some(Max(t, tat.GetOr(t)) + Cost(r, tokens)), Bucket(Refilled(r, b, t) - tokens, t), t)
  {
    LevelInMs(r, tat, b, t);
    AdmissionAgrees(r, tat.GetOr(t), Refilled(r, b, t), tokens, t);
  }

  lemma AdmittedStepsAgree(r: Rate, tat: Tat, b: Bucket, tokens: real, t: real)
    requires r.Valid() && tokens > 0.0 && Agree(r, tat, b, t)
    requires Decide(r, tat, tokens, t).0 && BucketDecide(r, b, tokens, t).0
    ensures Agree(r, Decide(r, tat, tokens, t).1, BucketDecide(r, b, tokens, t).1, t)
  {
    AdmissionKeepsAgreeing(r, tat, b, tokens, t);
    DecideCases(r.perBucket, tat, Cost(r, tokens), t);
    assert Decide(r, tat, tokens, t).1 == Some(Max(t, tat.GetOr(t)) + Cost(r, tokens));
    assert BucketDecide(r, b, tokens, t).1 == Bucket(Refilled(r, b, t) - tokens, t);
  }

  lemma RefusedStepsAgree(r: Rate, tat: Tat, b: Bucket, tokens: real, t: real)
    requires r.Valid() && Agree(r, tat, b, t)
    requires !Decide(r, tat, tokens, t).0 && !BucketDecide(r, b, tokens, t).0
    ensures Agree(r, Decide(r, tat, tokens, t).1, BucketDecide(r, b, tokens, t).1, t)
  {
    DecideCases(r.perBucket, tat, Cost(r, tokens), t);
    RefusalAgrees(r, tat, b, t);
  }

  /** One request keeps the arrival time and the bucket in agreement. */
  lemma StepsAgree(r: Rate, tat: Tat, b: Bucket, tokens: real, t: real)
    requires r.Valid() && tokens > 0.0 && Agree(r, tat, b, t)
    ensures Decide(r, tat, tokens, t).0 == BucketDecide(r, b, tokens, t).0
    ensures Agree(r, Decide(r, tat, tokens, t).1, BucketDecide(r, b, tokens, t).1, t)
  {
    DecisionsAgree(r, tat, b, tokens, t);
    if BucketDecide(r, b, tokens, t).0 {
      AdmittedStepsAgree(r, tat, b, tokens, t);
    } else {
      RefusedStepsAgree(r, tat, b, tokens, t);
    }
  }

  lemma FullBucketAgrees(r: Rate, t: real)
    requires r.Valid()
    ensures Agree(r, None, Bucket(r.Capacity(), t), t)
  {
    forall u | u >= t ensures Refilled(r, Bucket(r.Capacity(), t), u) == LevelOf(r, None, u) {
      assert (u - t) / r.perToken >= 0.0;
    }
  }

  type Buckets<Key> = map<Key, Bucket>

  function BucketRequest<Key>(r: Rate, bs: Buckets<Key>, k: Key, tokens: real, t: real): (bool, Buckets<Key>)
    requires r.Valid()
  {
    var (ok, b) := BucketDecide(r, if k in bs then bs[k] else Bucket(r.Capacity(), t), tokens, t);
    (ok, bs[k := b])
  }

  ghost predicate BucketRun<Key>(r: Rate, arrivals: seq<Arrival<Key>>, oks: seq<bool>, states: seq<Buckets<Key>>)
    requires r.Valid()
  {
    && |states| == |arrivals| + 1 && |oks| == |arrivals|
    && forall i {:trigger oks[i]} :: 0 <= i < |arrivals| ==>
         (oks[i], states[i + 1]) == BucketRequest(r, states[i], arrivals[i].key, arrivals[i].tokens, arrivals[i].t)
  }

  /** Every key's arrival time agrees with its bucket from time `t` on. */
  ghost predicate AllAgree<Key(!new)>(r: Rate, tats: Tats<Key>, bs: Buckets<Key>, t: real)
    requires r.Valid()
  {
    && (forall k <- bs :: Agree(r, Lookup(tats, k), bs[k], t))
    && (forall k <- tats :: k in bs)
  }

  lemma RequestsAgree<Key(!new)>(r: Rate, tats: Tats<Key>, bs: Buckets<Key>, a: Arrival<Key>)
    requires r.Valid() && a.tokens > 0.0 && AllAgree(r, tats, bs, a.t)
    ensures var (ok, tats') := Request(r, tats, a.key, a.tokens, a.t);
            var (ok', bs') := BucketRequest(r, bs, a.key, a.tokens, a.t);
            ok == ok' && AllAgree(r, tats', bs', a.t)
  {
    if a.key !in bs {
      FullBucketAgrees(r, a.t);
    }
    var b := if a.key in bs then bs[a.key] else Bucket(r.Capacity(), a.t);
    StepsAgree(r, Lookup(tats, a.key), b, a.tokens, a.t);
    var tats', bs' := Request(r, tats, a.key, a.tokens, a.t).1, BucketRequest(r, bs, a.key, a.tokens, a.t).1;
    forall k | k in bs' ensures Agree(r, Lookup(tats', k), bs'[k], a.t) {
      if k == a.key {
        assert Lookup(tats', k) == Decide(r, Lookup(tats, k), a.tokens, a.t).1;
      } else {
        assert Lookup(tats', k) == Lookup(tats, k);
      }
    }
  }

  /** The limiter and the token bucket give the same answer to every request of every run. */
  lemma {:induction false} SameAnswersAsTokenBucket<Key(!new)>(
    r: Rate, arrivals: seq<Arrival<Key>>, oks: seq<bool>, states: seq<Tats<Key>>,
    oks': seq<bool>, states': seq<Buckets<Key>>, i: nat)
    requires r.Valid() && Ordered(arrivals)
    requires Run(r, arrivals, oks, states) && states[0] == map[]
    requires BucketRun(r, arrivals, oks', states') && states'[0] == map[]
    requires i < |arrivals|
    ensures oks[i] == oks'[i]
    ensures AllAgree(r, states[i + 1], states'[i + 1], arrivals[i].t)
  {
    if i == 0 {
    } else {
      SameAnswersAsTokenBucket(r, arrivals, oks, states, oks', states', i - 1);
    }
    assert RunStepAt(r, arrivals, oks, states, i);
    RequestsAgree(r, states[i], states'[i], arrivals[i]);
  }

  // ----- Forgetting full buckets -----

  /** The arrival time as a request at time `t` sees it: a time in the past, or none, counts as `t`. */
  function Effective(tat: Tat, t: real): real {
    Max(t, tat.GetOr(t))
  }

  /** No request from time `t` on can tell the two apart. */
  ghost predicate SameFrom<Key(!new)>(a: Tats<Key>, b: Tats<Key>, t: real) {
    forall k :: Effective(Lookup(a, k), t) == Effective(Lookup(b, k), t)
  }

  lemma DecideSeesEffective(r: Rate, a: Tat, b: Tat, tokens: real, t: real)
    requires Effective(a, t) == Effective(b, t)
    ensures Decide(r, a, tokens, t).0 == Decide(r, b, tokens, t).0
    ensures Effective(Decide(r, a, tokens, t).1, t) == Effective(Decide(r, b, tokens, t).1, t)
  {
  }

  lemma RequestKeepsSame<Key(!new)>(r: Rate, a: Tats<Key>, b: Tats<Key>, k: Key, tokens: real, s: real, t: real)
    requires s <= t && SameFrom(a, b, s)
    ensures Request(r, a, k, tokens, t).0 == Request(r, b, k, tokens, t).0
    ensures SameFrom(Request(r, a, k, tokens, t).1, Request(r, b, k, tokens, t).1, t)
  {
    SameLater(a, b, s, t);
    DecideSeesEffective(r, Lookup(a, k), Lookup(b, k), tokens, t);
    var a', b' := Request(r, a, k, tokens, t).1, Request(r, b, k, tokens, t).1;
    forall j ensures Effective(Lookup(a', j), t) == Effective(Lookup(b', j), t) {
      if j == k {
        assert Lookup(a', j) == Decide(r, Lookup(a, k), tokens, t).1;
        assert Lookup(b', j) == Decide(r, Lookup(b, k), tokens, t).1;
      } else {
        assert Lookup(a', j) == Lookup(a, j) && Lookup(b', j) == Lookup(b, j);
      }
    }
  }

  lemma SameLater<Key(!new)>(a: Tats<Key>, b: Tats<Key>, s: real, t: real)
    requires s <= t && SameFrom(a, b, s)
    ensures SameFrom(a, b, t)
  {
    forall k ensures Effective(Lookup(a, k), t) == Effective(Lookup(b, k), t) {
      assert Effective(Lookup(a, k), s) == Effective(Lookup(b, k), s);
    }
  }

  /** Pruning by a time limit goes unnoticed exactly when every key it removes has a full bucket;
      a limit that is not in the future guarantees it. */
  lemma PruneGoesUnnoticedExactlyWhen<Key(!new)>(tats: Tats<Key>, limit: real, t: real)
    ensures SameFrom(PrunedByTime(tats, limit), tats, t) <==> forall k <- tats :: tats[k] < limit ==> tats[k] <= t
    ensures limit <= t ==> SameFrom(PrunedByTime(tats, limit), tats, t)
  {
    var pruned := PrunedByTime(tats, limit);
    if forall k <- tats :: tats[k] < limit ==> tats[k] <= t {
      forall k ensures Effective(Lookup(pruned, k), t) == Effective(Lookup(tats, k), t) {
      }
    } else {
      var k :| k in tats && tats[k] < limit && tats[k] > t;
      assert Effective(Lookup(pruned, k), t) != Effective(Lookup(tats, k), t);
    }
  }

  datatype Event<Key> = Ask(arrival: Arrival<Key>) | Prune(limit: real, t: real) {
    function Time(): real {
      if Ask? then arrival.t else t
    }
  }

  /** A run in which prunes are carried out, or, with `prunes` false, skipped. */
  ghost predicate PruningRun<Key>(r: Rate, events: seq<Event<Key>>, prunes: bool, oks: seq<bool>,
                                  states: seq<Tats<Key>>) {
    && |states| == |events| + 1 && |oks| == |events|
    && forall i {:trigger oks[i]} :: 0 <= i < |events| ==>
         match events[i]
         case Ask(a) => RunStep(r, a, states[i], oks[i], states[i + 1])
         case Prune(limit, _) => oks[i] && states[i + 1] == if prunes then PrunedByTime(states[i], limit) else states[i]
  }

  /** Prunes with limits not in the future change no answer of any run. */
  lemma {:induction false} PrunesChangeNoAnswer<Key(!new)>(
    r: Rate, events: seq<Event<Key>>, oks: seq<bool>, states: seq<Tats<Key>>,
    oks': seq<bool>, states': seq<Tats<Key>>, i: nat)
    requires PruningRun(r, events, true, oks, states) && PruningRun(r, events, false, oks', states')
    requires states[0] == states'[0]
    requires forall i, j :: 0 <= i <= j < |events| ==> events[i].Time() <= events[j].Time()
    requires forall e <- events :: e.Prune? ==> e.limit <= e.t
    requires i < |events|
    ensures oks[i] == oks'[i]
    ensures SameFrom(states[i + 1], states'[i + 1], events[i].Time())
  {
    var t := events[i].Time();
    if i == 0 {
    } else {
      PrunesChangeNoAnswer(r, events, oks, states, oks', states', i - 1);
      SameLater(states[i], states'[i], events[i - 1].Time(), t);
    }
    assert SameFrom(states[i], states'[i], t);
    match events[i]
    case Ask(a) =>
      assert RunStep(r, a, states[i], oks[i], states[i + 1]) && RunStep(r, a, states'[i], oks'[i], states'[i + 1]);
      RequestKeepsSame(r, states[i], states'[i], a.key, a.tokens, t, t);
    case Prune(limit, _) =>
      assert oks[i] && oks'[i];
      PruneGoesUnnoticedExactlyWhen(states[i], limit, t);
  }

  // ----- The window bound amid prunes -----

  ghost predicate EventsOrdered<Key>(events: seq<Event<Key>>) {
    && (forall i, j :: 0 <= i <= j < |events| ==> events[i].Time() <= events[j].Time())
    && (forall e <- events :: e.Prune? ==> e.limit <= e.t)
  }

  /** The tokens admitted for one key by the requests among the events `lo..hi`. */
  function TokensAmid<Key(==)>(events: seq<Event<Key>>, oks: seq<bool>, key: Key, lo: nat, hi: nat): real
    requires lo <= hi <= |events| == |oks|
    decreases hi
  {
    if lo == hi then 0.0 else TokensAmid(events, oks, key, lo, hi - 1) + ShareAmid(events, oks, key, hi - 1)
  }

  function ShareAmid<Key(==)>(events: seq<Event<Key>>, oks: seq<bool>, key: Key, i: nat): real
    requires i < |events| == |oks|
  {
    if events[i].Ask? && events[i].arrival.key == key && oks[i] then events[i].arrival.tokens else 0.0
  }

  function CostAmid<Key(==)>(r: Rate, events: seq<Event<Key>>, oks: seq<bool>, key: Key, lo: nat, hi: nat): real
    requires lo <= hi <= |events| == |oks|
    decreases hi
  {
    if lo == hi then 0.0
    else CostAmid(r, events, oks, key, lo, hi - 1) + Cost(r, ShareAmid(events, oks, key, hi - 1))
  }

  lemma {:induction false} CostAmidIsTokens<Key>(r: Rate, events: seq<Event<Key>>, oks: seq<bool>, key: Key, lo: nat,
                                                 hi: nat)
    requires lo <= hi <= |events| == |oks|
    ensures CostAmid(r, events, oks, key, lo, hi) == r.perToken * TokensAmid(events, oks, key, lo, hi)
    decreases hi
  {
    if lo == hi {
    } else {
      CostAmidIsTokens(r, events, oks, key, lo, hi - 1);
      Distribute(r.perToken, TokensAmid(events, oks, key, lo, hi - 1), ShareAmid(events, oks, key, hi - 1));
    }
  }

  /** An event raises a key's effective arrival time by at least the cost of what the key is granted. */
  lemma EventPays<Key>(r: Rate, events: seq<Event<Key>>, prunes: bool, oks: seq<bool>, states: seq<Tats<Key>>, i: nat,
                       key: Key)
    requires r.Valid() && PruningRun(r, events, prunes, oks, states) && EventsOrdered(events) && i < |events|
    ensures var t := events[i].Time();
            Effective(Lookup(states[i + 1], key), t)
            >= Effective(Lookup(states[i], key), t) + Cost(r, ShareAmid(events, oks, key, i))
  {
    assert oks[i] || !oks[i];
    match events[i]
    case Ask(a) =>
      assert RunStep(r, a, states[i], oks[i], states[i + 1]);
      if a.key == key && oks[i] {
        AdmissionBounds(r.perBucket, Lookup(states[i], key), Cost(r, a.tokens), a.t);
      } else {
        assert ShareAmid(events, oks, key, i) == 0.0 && Cost(r, 0.0) == 0.0;
      }
    case Prune(limit, t) =>
      assert ShareAmid(events, oks, key, i) == 0.0 && Cost(r, 0.0) == 0.0;
  }

  lemma {:induction false} EffectiveTimePays<Key>(r: Rate, events: seq<Event<Key>>, prunes: bool, oks: seq<bool>,
                                                  states: seq<Tats<Key>>, i: nat, j: nat, key: Key)
    requires r.Valid() && PruningRun(r, events, prunes, oks, states) && EventsOrdered(events) && i < j <= |events|
    ensures Effective(Lookup(states[j], key), events[j - 1].Time())
         >= events[i].Time() + CostAmid(r, events, oks, key, i, j)
    decreases j
  {
    EventPays(r, events, prunes, oks, states, j - 1, key);
    if j == i + 1 {
      assert CostAmid(r, events, oks, key, i, i) == 0.0;
    } else {
      EffectiveTimePays(r, events, prunes, oks, states, i, j - 1, key);
    }
  }

  lemma AdmittedAmid<Key>(r: Rate, events: seq<Event<Key>>, prunes: bool, oks: seq<bool>, states: seq<Tats<Key>>,
                          j: nat)
    requires r.Valid() && PruningRun(r, events, prunes, oks, states)
    requires j < |events| && events[j].Ask? && oks[j]
    ensures Effective(Lookup(states[j + 1], events[j].arrival.key), events[j].Time()) <= events[j].Time() + r.perBucket
  {
    var a := events[j].arrival;
    assert RunStep(r, a, states[j], oks[j], states[j + 1]);
    AdmissionBounds(r.perBucket, Lookup(states[j], a.key), Cost(r, a.tokens), a.t);
  }

  lemma CostBoundAmid<Key>(r: Rate, events: seq<Event<Key>>, prunes: bool, oks: seq<bool>, states: seq<Tats<Key>>,
                           i: nat, j: nat, key: Key)
    requires r.Valid() && PruningRun(r, events, prunes, oks, states) && EventsOrdered(events)
    requires i <= j < |events| && events[j].Ask? && events[j].arrival.key == key && oks[j]
    ensures CostAmid(r, events, oks, key, i, j + 1) <= events[j].Time() - events[i].Time() + r.perBucket
  {
    hide Effective, CostAmid;
    EffectiveTimePays(r, events, prunes, oks, states, i, j + 1, key);
    AdmittedAmid(r, events, prunes, oks, states, j);
  }

  /** The window bound holds just as well when keys are pruned in between, as long as no limit lies in
      the future; and the window may open at any event. */
  lemma WindowBoundAmidPrunes<Key>(r: Rate, events: seq<Event<Key>>, prunes: bool, oks: seq<bool>,
                                   states: seq<Tats<Key>>, i: nat, j: nat, key: Key)
    requires r.Valid() && PruningRun(r, events, prunes, oks, states) && EventsOrdered(events)
    requires i <= j < |events| && events[j].Ask? && events[j].arrival.key == key && oks[j]
    ensures r.perToken * TokensAmid(events, oks, key, i, j + 1) <= events[j].Time() - events[i].Time() + r.perBucket
  {
    hide TokensAmid, CostAmid;
    CostBoundAmid(r, events, prunes, oks, states, i, j, key);
    CostAmidIsTokens(r, events, oks, key, i, j + 1);
  }
}
