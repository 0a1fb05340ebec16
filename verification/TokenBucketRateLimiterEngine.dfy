/**
 The token bucket of TokenBucketRateLimiterEngine.ts, in thousandths of a token and milliseconds, so that
 refilling is exact: a rate of `r` tokens a second is `r` thousandths a millisecond.
 */
module TokenBucket {

  import opened Options

  datatype Rule = Rule(capacity: nat, rate: nat, burst: nat)

  datatype Bucket = Bucket(tokens: int, lastRefill: int)

  datatype Verdict = Allowed(remaining: int) | Refused(retryAfterSeconds: int)

  datatype Call = Call(key: string, rule: Rule, now: int)

  const TOKEN: nat := 1000

  /** The most a bucket can hold. */
  function Limit(rule: Rule): nat {
    (rule.capacity + rule.burst) * TOKEN
  }

  /** Some token fits into the bucket, and an empty bucket fills up. */
  predicate Usable(rule: Rule) {
    Limit(rule) >= TOKEN && rule.rate >= 1
  }

  /** Division that rounds up. */
  function CeilDiv(a: int, b: int): (q: int)
    requires b > 0
    ensures (q - 1) * b < a <= q * b
  {
    -((-a) / b)
  }

  function Refilled(bucket: Bucket, rule: Rule, now: int): (tokens: int)
    ensures tokens <= Limit(rule)
  {
    var tokens := bucket.tokens + rule.rate * (now - bucket.lastRefill);
    if tokens < Limit(rule) then tokens else Limit(rule)
  }

  /** What a call does to the bucket it meets. */
  function Check(bucket: Option<Bucket>, rule: Rule, now: int): (r: (Bucket, Verdict))
    requires rule.rate >= 1
  {
    var bucket := if bucket.Some? then bucket.value else Bucket(rule.capacity * TOKEN, now);
    var tokens := Refilled(bucket, rule, now);
    if tokens >= TOKEN then (Bucket(tokens - TOKEN, now), Allowed((tokens - TOKEN) / TOKEN))
    else (Bucket(tokens, now), Refused(CeilDiv(TOKEN - tokens, TOKEN * rule.rate)))
  }

  function Find(buckets: map<string, Bucket>, key: string): Option<Bucket> {
    if key in buckets then Some(buckets[key]) else None
  }

  function Step(buckets: map<string, Bucket>, call: Call): (r: (map<string, Bucket>, Verdict))
    requires call.rule.rate >= 1
  {
    var (bucket, verdict) := Check(Find(buckets, call.key), call.rule, call.now);
    (buckets[call.key := bucket], verdict)
  }

  class TokenBucketRateLimiterEngine {
    var buckets: map<string, Bucket>
    const rules: map<string, Rule> := map[
      "ENTERPRISE" := Rule(1000, 100, 200),
      "GROWTH" := Rule(300, 30, 50),
      "STARTER" := Rule(100, 10, 20)]

    constructor ()
      ensures buckets == map[]
    {
      buckets := map[];
    }

    function RuleOf(tier: string): (rule: Rule)
      ensures Usable(rule)
      ensures rule == if tier == "ENTERPRISE" then Rule(1000, 100, 200)
                      else if tier == "GROWTH" then Rule(300, 30, 50)
                      else Rule(100, 10, 20)
    {
      if tier in rules then rules[tier] else rules["STARTER"]
    }

    method CheckRequestAllowance(key: string, tier: string, now: int) returns (verdict: Verdict)
      modifies this
      ensures (buckets, verdict) == Step(old(buckets), Call(key, RuleOf(tier), now))
    {
      var rule := RuleOf(tier);
      ghost var start := buckets;
      if key !in buckets {
        buckets := buckets[key := Bucket(rule.capacity * TOKEN, now)];
      }
      var elapsed := now - buckets[key].lastRefill;
      var tokensToAdd := rule.rate * elapsed;
      var tokens := buckets[key].tokens + tokensToAdd;
      if tokens > (rule.capacity + rule.burst) * TOKEN {
        tokens := (rule.capacity + rule.burst) * TOKEN;
      }
      if tokens >= TOKEN {
        buckets := buckets[key := Bucket(tokens - TOKEN, now)];
        verdict := Allowed((tokens - TOKEN) / TOKEN);
      } else {
        buckets := buckets[key := Bucket(tokens, now)];
        verdict := Refused(CeilDiv(TOKEN - tokens, TOKEN * rule.rate));
      }
      assert buckets == start[key := buckets[key]];
    }
  }

  // ---------- runs ----------

  /** Calls in the order in which they arrive. */
  ghost predicate Run(calls: seq<Call>) {
    && (forall i | 0 <= i < |calls| :: Usable(calls[i].rule))
    && (forall i, j | 0 <= i < j < |calls| :: calls[i].now <= calls[j].now)
  }

  /** The buckets when the calls before `i` have been served. */
  function Before(calls: seq<Call>, i: nat): map<string, Bucket>
    requires i <= |calls| && Run(calls)
  {
    if i == 0 then map[] else Step(Before(calls, i - 1), calls[i - 1]).0
  }

  function VerdictAt(calls: seq<Call>, i: nat): Verdict
    requires i < |calls| && Run(calls)
  {
    Step(Before(calls, i), calls[i]).1
  }

  ghost predicate IsAllowed(calls: seq<Call>, key: string, i: nat)
    requires i < |calls| && Run(calls)
  {
    calls[i].key == key && VerdictAt(calls, i).Allowed?
  }

  /** How many calls of `key` from `i` on and before `j` are allowed. */
  ghost function AllowedIn(calls: seq<Call>, key: string, i: nat, j: nat): nat
    requires i <= j <= |calls| && Run(calls)
  {
    if i == j then 0 else AllowedIn(calls, key, i, j - 1) + if IsAllowed(calls, key, j - 1) then 1 else 0
  }

  // ---------- tokens stay in range ----------

  lemma RefillingAdds(bucket: Bucket, rule: Rule, now: int)
    requires bucket.tokens >= 0 && bucket.lastRefill <= now
    ensures Refilled(bucket, rule, now) >= 0
  {
    var elapsed := now - bucket.lastRefill;
    assert rule.rate * elapsed >= 0;
  }

  /** No bucket is ever overdrawn, and after a call it holds at most what the rule of that call admits. */
  lemma {:induction false} TokensStayInRange(calls: seq<Call>, i: nat, key: string)
    requires Run(calls) && i <= |calls| && key in Before(calls, i)
    ensures exists c ::
              && 0 <= c < i && calls[c].key == key && Before(calls, i)[key].lastRefill == calls[c].now
              && 0 <= Before(calls, i)[key].tokens <= Limit(calls[c].rule)
              && forall d | c < d < i :: calls[d].key != key
  {
    var call := calls[i - 1];
    if call.key == key {
      if key in Before(calls, i - 1) {
        TokensStayInRange(calls, i - 1, key);
        RefillingAdds(Before(calls, i - 1)[key], call.rule, call.now);
      } else {
        RefillingAdds(Bucket(call.rule.capacity * TOKEN, call.now), call.rule, call.now);
      }
    } else {
      TokensStayInRange(calls, i - 1, key);
    }
  }

  lemma NeverOverdrawn(calls: seq<Call>, i: nat, key: string)
    requires Run(calls) && i <= |calls| && key in Before(calls, i)
    ensures Before(calls, i)[key].tokens >= 0
  {
    TokensStayInRange(calls, i, key);
  }

  // ---------- how much a window admits ----------

  lemma Elapsed(rate: int, start: int, middle: int, end: int)
    ensures rate * (middle - start) + rate * (end - middle) == rate * (end - start)
  {
  }

  lemma Scaled(rate: nat, elapsed: int, wait: int)
    requires elapsed <= wait
    ensures rate * elapsed <= rate * wait
  {
  }

  lemma RefillIsAtMost(bucket: Bucket, rule: Rule, now: int, rate: int)
    requires bucket.lastRefill <= now && rule.rate <= rate
    ensures Refilled(bucket, rule, now) <= bucket.tokens + rate * (now - bucket.lastRefill)
  {
    var elapsed := now - bucket.lastRefill;
    assert rule.rate * elapsed <= rate * elapsed;
  }

  /** The calls of `key` from `i` on and before `j` obey rules within the given limit and rate. */
  ghost predicate Ruled(calls: seq<Call>, key: string, i: nat, j: nat, limit: int, rate: int)
    requires j <= |calls|
  {
    forall c | i <= c < j && calls[c].key == key :: Limit(calls[c].rule) <= limit && calls[c].rule.rate <= rate
  }

  /** What has been allowed and what is left are within a full bucket and what has flowed in since `start`. */
  ghost predicate WithinBudget(count: nat, bucket: Bucket, start: int, limit: nat, rate: nat) {
    start <= bucket.lastRefill && TOKEN * count + bucket.tokens <= limit + rate * (bucket.lastRefill - start)
  }

  lemma CheckKeepsBudget(count: nat, bucket: Bucket, start: int, limit: nat, rate: nat, rule: Rule, now: int)
    requires WithinBudget(count, bucket, start, limit, rate) && bucket.lastRefill <= now && 1 <= rule.rate <= rate
    ensures var (b, verdict) := Check(Some(bucket), rule, now);
            WithinBudget(if verdict.Allowed? then count + 1 else count, b, start, limit, rate)
  {
    RefillIsAtMost(bucket, rule, now, rate);
    Elapsed(rate, start, bucket.lastRefill, now);
  }

  lemma FirstCheckIsWithinBudget(bucket: Option<Bucket>, start: int, limit: nat, rate: nat, rule: Rule, now: int)
    requires start <= now && Limit(rule) <= limit && rule.rate >= 1 && Check(bucket, rule, now).1.Allowed?
    ensures WithinBudget(1, Check(bucket, rule, now).0, start, limit, rate)
  {
    Scaled(rate, 0, now - start);
  }

  lemma {:induction false} AllowedAndLeft(calls: seq<Call>, key: string, i: nat, j: nat, limit: nat, rate: nat)
    requires Run(calls) && i < j <= |calls| && Ruled(calls, key, i, j, limit, rate)
    requires AllowedIn(calls, key, i, j) > 0
    ensures key in Before(calls, j) && Before(calls, j)[key].lastRefill <= calls[j - 1].now
    ensures WithinBudget(AllowedIn(calls, key, i, j), Before(calls, j)[key], calls[i].now, limit, rate)
    decreases j
  {
    var call := calls[j - 1];
    var start := calls[i].now;
    if AllowedIn(calls, key, i, j - 1) > 0 {
      AllowedAndLeft(calls, key, i, j - 1, limit, rate);
      if call.key == key {
        CheckKeepsBudget(AllowedIn(calls, key, i, j - 1), Before(calls, j - 1)[key], start, limit, rate, call.rule, call.now);
      }
    } else {
      FirstCheckIsWithinBudget(Find(Before(calls, j - 1), key), start, limit, rate, call.rule, call.now);
    }
  }

  /**
   Between two call times, the requests of a key that are allowed are at most the full bucket and what flows
   into it meanwhile.
   */
  lemma WindowIsBounded(calls: seq<Call>, key: string, i: nat, j: nat, limit: nat, rate: nat)
    requires Run(calls) && i <= j < |calls| && Ruled(calls, key, i, j + 1, limit, rate)
    ensures TOKEN * AllowedIn(calls, key, i, j + 1) <= limit + rate * (calls[j].now - calls[i].now)
  {
    var s, t := calls[i].now, calls[j].now;
    Scaled(rate, 0, t - s);
    if AllowedIn(calls, key, i, j + 1) > 0 {
      AllowedAndLeft(calls, key, i, j + 1, limit, rate);
      NeverOverdrawn(calls, j + 1, key);
      Scaled(rate, Before(calls, j + 1)[key].lastRefill - s, t - s);
    }
  }

  // ---------- exactly which calls are allowed ----------

  /** The latest call of `key` before call `j`, or -1. */
  function Previous(calls: seq<Call>, key: string, j: nat): (p: int)
    requires j <= |calls|
    ensures -1 <= p < j && (p >= 0 ==> calls[p].key == key)
    ensures forall d | p < d < j :: calls[d].key != key
  {
    if j == 0 then -1 else if calls[j - 1].key == key then j - 1 else Previous(calls, key, j - 1)
  }

  /** What flows into the bucket of `key` from call `c` to call `j`, each time at the rate of the call that ends it. */
  function Inflow(calls: seq<Call>, key: string, c: nat, j: nat): int
    requires c <= j < |calls| && calls[c].key == calls[j].key == key
    decreases j
  {
    if c == j then 0
    else
      var p := Previous(calls, key, j);
      Inflow(calls, key, c, p) + calls[j].rule.rate * (calls[j].now - calls[p].now)
  }

  /** The bucket is filled to the capacity for the first call of a key, and can never be fuller than that and the burst. */
  function Top(calls: seq<Call>, key: string, c: nat): int
    requires c < |calls|
  {
    if Previous(calls, key, c) < 0 then calls[c].rule.capacity * TOKEN
    else (calls[c].rule.capacity + calls[c].rule.burst) * TOKEN
  }

  /** What call `j` could find in a bucket that was full at call `c`. */
  ghost function LeftSince(calls: seq<Call>, key: string, c: nat, j: nat): int
    requires Run(calls) && c <= j < |calls| && calls[c].key == calls[j].key == key
  {
    Top(calls, key, c) + Inflow(calls, key, c, j) - TOKEN * AllowedIn(calls, key, c, j)
  }

  /** Whichever earlier call found the bucket full, `n` tokens are left for call `j`. */
  ghost predicate Affords(calls: seq<Call>, j: nat, n: int)
    requires Run(calls) && j < |calls|
  {
    forall c | 0 <= c <= j && calls[c].key == calls[j].key :: LeftSince(calls, calls[j].key, c, j) >= n * TOKEN
  }

  /** The tokens that call `j` finds. */
  function Available(calls: seq<Call>, j: nat): int
    requires Run(calls) && j < |calls|
  {
    var call, bucket := calls[j], Find(Before(calls, j), calls[j].key);
    if bucket.Some? then Refilled(bucket.value, call.rule, call.now) else call.rule.capacity * TOKEN
  }

  /** A call takes a token if there is one. */
  lemma CallTakes(calls: seq<Call>, j: nat)
    requires Run(calls) && j < |calls|
    ensures var tokens, verdict := Available(calls, j), VerdictAt(calls, j);
            && calls[j].key in Before(calls, j + 1)
            && (verdict.Allowed? <==> tokens >= TOKEN) && (verdict.Allowed? ==> verdict.remaining == (tokens - TOKEN) / TOKEN)
            && Before(calls, j + 1)[calls[j].key] == Bucket(tokens - (if verdict.Allowed? then TOKEN else 0), calls[j].now)
  {
    var call := calls[j];
    assert call.rule.rate * (call.now - call.now) == 0;
    assert Before(calls, j + 1) == Step(Before(calls, j), call).0;
  }

  /** What the latest call of a key has left is still there. */
  lemma {:induction false} LeftByPrevious(calls: seq<Call>, key: string, j: nat)
    requires Run(calls) && j <= |calls|
    ensures var p := Previous(calls, key, j);
            if p < 0 then key !in Before(calls, j)
            else key in Before(calls, j) && Before(calls, j)[key] ==
                 Bucket(Available(calls, p) - (if IsAllowed(calls, key, p) then TOKEN else 0), calls[p].now)
    decreases j
  {
    if j > 0 {
      if calls[j - 1].key == key {
        CallTakes(calls, j - 1);
      } else {
        LeftByPrevious(calls, key, j - 1);
        assert Before(calls, j) == Step(Before(calls, j - 1), calls[j - 1]).0;
      }
    }
  }

  lemma {:induction false} NoneAllowedBetween(calls: seq<Call>, key: string, c: nat, p: nat, j: nat)
    requires Run(calls) && c <= p < j <= |calls| && forall d | p < d < j :: calls[d].key != key
    ensures AllowedIn(calls, key, c, j) == AllowedIn(calls, key, c, p) + if IsAllowed(calls, key, p) then 1 else 0
    decreases j
  {
    if p < j - 1 {
      NoneAllowedBetween(calls, key, c, p, j - 1);
    }
  }

  lemma NextLeftSince(calls: seq<Call>, key: string, c: nat, p: nat, j: nat)
    requires Run(calls) && c <= p < j < |calls| && calls[c].key == calls[j].key == key && p == Previous(calls, key, j)
    ensures LeftSince(calls, key, c, j) ==
            LeftSince(calls, key, c, p) - (if IsAllowed(calls, key, p) then TOKEN else 0)
            + calls[j].rule.rate * (calls[j].now - calls[p].now)
  {
    NoneAllowedBetween(calls, key, c, p, j);
  }

  /** A call finds the least of what could be left. */
  lemma {:induction false} AvailableIsLeast(calls: seq<Call>, j: nat)
    requires Run(calls) && j < |calls|
    ensures forall c | 0 <= c <= j && calls[c].key == calls[j].key :: Available(calls, j) <= LeftSince(calls, calls[j].key, c, j)
    ensures exists c :: 0 <= c <= j && calls[c].key == calls[j].key && Available(calls, j) == LeftSince(calls, calls[j].key, c, j)
    decreases j
  {
    var key, p := calls[j].key, Previous(calls, calls[j].key, j);
    LeftByPrevious(calls, key, j);
    assert LeftSince(calls, key, j, j) == Top(calls, key, j);
    if p >= 0 {
      AvailableIsLeast(calls, p);
      forall c: nat | c <= p && calls[c].key == key
        ensures LeftSince(calls, key, c, j) ==
                LeftSince(calls, key, c, p) - (if IsAllowed(calls, key, p) then TOKEN else 0)
                + calls[j].rule.rate * (calls[j].now - calls[p].now)
      {
        NextLeftSince(calls, key, c, p, j);
      }
    }
  }

  /** Which calls are allowed, and what they are told, follows from the calls before them. */
  lemma VerdictIsExact(calls: seq<Call>, j: nat, remaining: int)
    requires Run(calls) && j < |calls|
    ensures VerdictAt(calls, j).Allowed? <==> Affords(calls, j, 1)
    ensures VerdictAt(calls, j) == Allowed(remaining) <==>
            remaining >= 0 && Affords(calls, j, remaining + 1) && !Affords(calls, j, remaining + 2)
  {
    CallTakes(calls, j);
    AffordsIffAvailable(calls, j, 1);
    AffordsIffAvailable(calls, j, remaining + 1);
    AffordsIffAvailable(calls, j, remaining + 2);
  }

  lemma AffordsIffAvailable(calls: seq<Call>, j: nat, n: int)
    requires Run(calls) && j < |calls|
    ensures Affords(calls, j, n) <==> Available(calls, j) >= n * TOKEN
  {
    AvailableIsLeast(calls, j);
  }

  // ---------- a new key ----------

  /** How many calls of `key` come before call `j`. */
  function CallsOf(calls: seq<Call>, key: string, j: nat): nat
    requires j <= |calls|
  {
    if j == 0 then 0 else CallsOf(calls, key, j - 1) + if calls[j - 1].key == key then 1 else 0
  }

  /** All calls of `key` before `j` are made at the same time, under one rule. */
  ghost predicate AtOnce(calls: seq<Call>, key: string, j: nat, rule: Rule, now: int)
    requires j <= |calls|
  {
    forall c | 0 <= c < j && calls[c].key == key :: calls[c].rule == rule && calls[c].now == now
  }

  lemma {:induction false} FirstCallsTake(calls: seq<Call>, key: string, j: nat, rule: Rule, now: int)
    requires Run(calls) && j <= |calls| && AtOnce(calls, key, j, rule, now)
    ensures var n := CallsOf(calls, key, j);
            if n == 0 then key !in Before(calls, j)
            else key in Before(calls, j) && Before(calls, j)[key] == Bucket(if n < rule.capacity then (rule.capacity - n) * TOKEN else 0, now)
    decreases j
  {
    if j > 0 {
      FirstCallsTake(calls, key, j - 1, rule, now);
      if calls[j - 1].key == key {
        CallTakes(calls, j - 1);
        assert rule.rate * (now - now) == 0;
      } else {
        assert Before(calls, j) == Step(Before(calls, j - 1), calls[j - 1]).0;
      }
    }
  }

  /** A new key is allowed as many calls at once as its capacity says, and is told how many are left. */
  lemma FirstCallsAreAllowed(calls: seq<Call>, j: nat)
    requires Run(calls) && j < |calls| && AtOnce(calls, calls[j].key, j + 1, calls[j].rule, calls[j].now)
    ensures var n, capacity := CallsOf(calls, calls[j].key, j), calls[j].rule.capacity;
            if n < capacity then VerdictAt(calls, j) == Allowed(capacity - 1 - n) else VerdictAt(calls, j).Refused?
  {
    FirstCallsTake(calls, calls[j].key, j, calls[j].rule, calls[j].now);
    CallTakes(calls, j);
    assert calls[j].rule.rate * (calls[j].now - calls[j].now) == 0;
  }

  // ---------- what the retry hint promises ----------

  ghost predicate SameRule(calls: seq<Call>, key: string, i: nat, j: nat, rule: Rule)
    requires j <= |calls|
  {
    forall c | i <= c < j && calls[c].key == key :: calls[c].rule == rule
  }

  lemma RefusalAddsTokens(bucket: Bucket, rule: Rule, now: int)
    requires Usable(rule) && Check(Some(bucket), rule, now).1.Refused?
    ensures Check(Some(bucket), rule, now).0 == Bucket(bucket.tokens + rule.rate * (now - bucket.lastRefill), now)
  {
  }

  /** Refused calls leave the bucket as if it had been refilled once. */
  lemma {:induction false} TokensAccumulate(calls: seq<Call>, key: string, i: nat, j: nat)
    requires Run(calls) && i < j <= |calls| && calls[i].key == key
    requires SameRule(calls, key, i, j, calls[i].rule)
    requires AllowedIn(calls, key, i + 1, j) == 0
    ensures key in Before(calls, i + 1) && key in Before(calls, j)
    ensures var bucket := Before(calls, j)[key];
            && calls[i].now <= bucket.lastRefill <= calls[j - 1].now
            && bucket.tokens == Before(calls, i + 1)[key].tokens + calls[i].rule.rate * (bucket.lastRefill - calls[i].now)
    decreases j
  {
    var rate := calls[i].rule.rate;
    if j == i + 1 {
      assert rate * (calls[i].now - calls[i].now) == 0;
    } else {
      var call := calls[j - 1];
      TokensAccumulate(calls, key, i, j - 1);
      if call.key == key {
        var bucket := Before(calls, j - 1)[key];
        assert !IsAllowed(calls, key, j - 1);
        RefusalAddsTokens(bucket, call.rule, call.now);
        Elapsed(rate, calls[i].now, bucket.lastRefill, call.now);
      }
    }
  }

  /** What a refused call leaves in the bucket, told by its hint. */
  lemma HintTellsTokens(calls: seq<Call>, i: nat)
    requires Run(calls) && i < |calls| && VerdictAt(calls, i).Refused?
    ensures calls[i].key in Before(calls, i + 1)
    ensures var tokens, rate := Before(calls, i + 1)[calls[i].key].tokens, calls[i].rule.rate;
            var wait := VerdictAt(calls, i).retryAfterSeconds * 1000;
            tokens + rate * (wait - 1000) < TOKEN <= tokens + rate * wait
  {
    var call := calls[i];
    var tokens, rate, r := Before(calls, i + 1)[call.key].tokens, call.rule.rate, VerdictAt(calls, i).retryAfterSeconds;
    assert r == CeilDiv(TOKEN - tokens, TOKEN * rate);
    WaitOf(rate, r);
  }

  lemma WaitOf(rate: int, r: int)
    ensures r * (TOKEN * rate) == rate * (r * 1000) && (r - 1) * (TOKEN * rate) == rate * (r * 1000 - 1000)
  {
    assert (r - 1) * (TOKEN * rate) == (r * 1000 - 1000) * rate;
  }

  /** While all calls are refused, the next one is allowed exactly when the bucket has refilled to a token. */
  lemma NextCallAfterRefusals(calls: seq<Call>, key: string, i: nat, j: nat)
    requires Run(calls) && i < j < |calls| && calls[i].key == calls[j].key == key
    requires SameRule(calls, key, i, j + 1, calls[i].rule)
    requires AllowedIn(calls, key, i + 1, j) == 0
    ensures key in Before(calls, i + 1)
    ensures IsAllowed(calls, key, j) <==>
            Before(calls, i + 1)[key].tokens + calls[i].rule.rate * (calls[j].now - calls[i].now) >= TOKEN
  {
    TokensAccumulate(calls, key, i, j);
    var bucket := Before(calls, j)[key];
    Elapsed(calls[i].rule.rate, calls[i].now, bucket.lastRefill, calls[j].now);
  }

  /**
   By the first call that a refused key makes after the hinted time one call has been allowed, however often
   it is polled in between.
   */
  lemma AllowedAfterHint(calls: seq<Call>, key: string, i: nat, j: nat)
    requires Run(calls) && i < j < |calls| && calls[i].key == calls[j].key == key
    requires VerdictAt(calls, i).Refused? && SameRule(calls, key, i, j + 1, calls[i].rule)
    requires calls[j].now >= calls[i].now + VerdictAt(calls, i).retryAfterSeconds * 1000
    ensures AllowedIn(calls, key, i + 1, j + 1) > 0
  {
    if AllowedIn(calls, key, i + 1, j) == 0 {
      NextCallAfterRefusals(calls, key, i, j);
      HintTellsTokens(calls, i);
      Scaled(calls[i].rule.rate, VerdictAt(calls, i).retryAfterSeconds * 1000, calls[j].now - calls[i].now);
    }
  }

  /** With whole tokens a second the hint can only ever be one second. */
  lemma HintIsOneSecond(calls: seq<Call>, i: nat)
    requires Run(calls) && i < |calls| && VerdictAt(calls, i).Refused?
    ensures VerdictAt(calls, i).retryAfterSeconds == 1
  {
    HintTellsTokens(calls, i);
    NeverOverdrawn(calls, i + 1, calls[i].key);
    var rate, r := calls[i].rule.rate, VerdictAt(calls, i).retryAfterSeconds;
    if r >= 2 {
      Scaled(rate, 1000, r * 1000 - 1000);
    } else if r <= 0 {
      Scaled(rate, r * 1000, 0);
    }
  }
}
