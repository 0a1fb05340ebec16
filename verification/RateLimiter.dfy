/**
 The fixed-window request limiter of rateLimiter.ts: the counting part of its middleware and the cleanup that
 runs beside it, over every sequence of calls at non-decreasing times.
 */
module WindowLimiter {

  import opened Options

  datatype Record = Record(count: int, resetTime: int)

  type Hits = map<string, Record>

  datatype Settings = Settings(windowMs: int, maxRequests: int)

  datatype Call = Request(key: string, now: int) | Cleanup(now: int)

  /** The record that counts for a request at `now`. */
  function Current(hits: Hits, key: string, now: int): Option<Record> {
    if key in hits && now <= hits[key].resetTime then Some(hits[key]) else None
  }

  /** The record of a request that meets `current`. */
  function Counted(current: Option<Record>, now: int, settings: Settings): Record {
    match current
    case None => Record(1, now + settings.windowMs)
    case Some(record) => record.(count := record.count + 1)
  }

  predicate IsAdmitted(hits: Hits, key: string, now: int, settings: Settings) {
    Counted(Current(hits, key, now), now, settings).count <= settings.maxRequests
  }

  function WithoutExpired(hits: Hits, now: int): Hits {
    map key | key in hits && now <= hits[key].resetTime :: hits[key]
  }

  function Step(hits: Hits, call: Call, settings: Settings): Hits {
    match call
    case Request(key, now) => hits[key := Counted(Current(hits, key, now), now, settings)]
    case Cleanup(now) => WithoutExpired(hits, now)
  }

  class InMemoryRateLimiter {
    var hits: Hits
    const settings: Settings

    constructor (windowMs: int, maxRequests: int)
      ensures hits == map[] && settings == Settings(windowMs, maxRequests)
    {
      hits, settings := map[], Settings(windowMs, maxRequests);
    }

    method Cleanup(now: int)
      modifies this
      ensures hits == Step(old(hits), Call.Cleanup(now), settings)
    {
      var keys := hits.Keys;
      while keys != {}
        invariant keys <= hits.Keys
        invariant forall key :: key in hits <==> key in old(hits) && (key in keys || now <= old(hits)[key].resetTime)
        invariant forall key | key in hits :: hits[key] == old(hits)[key]
        decreases |keys|
      {
        var key :| key in keys;
        if now > hits[key].resetTime {
          hits := hits - {key};
        }
        keys := keys - {key};
      }
    }

    /** Counts a request; `admitted` is false where the source throws. */
    method Middleware(key: string, now: int) returns (admitted: bool)
      modifies this
      ensures hits == Step(old(hits), Request(key, now), settings)
      ensures admitted == IsAdmitted(old(hits), key, now, settings)
    {
      if key !in hits || now > hits[key].resetTime {
        hits := hits[key := Record(1, now + settings.windowMs)];
      } else {
        hits := hits[key := hits[key].(count := hits[key].count + 1)];
      }
      admitted := hits[key].count <= settings.maxRequests;
    }
  }

  // ---------- cleanup is invisible ----------

  ghost predicate Ordered(calls: seq<Call>) {
    forall i, j | 0 <= i < j < |calls| :: calls[i].now <= calls[j].now
  }

  /** The decisions on the requests among `calls`, in order. */
  function Decisions(hits: Hits, calls: seq<Call>, settings: Settings): seq<bool>
    decreases |calls|
  {
    if calls == [] then []
    else
      (if calls[0].Request? then [IsAdmitted(hits, calls[0].key, calls[0].now, settings)] else []) +
      Decisions(Step(hits, calls[0], settings), calls[1..], settings)
  }

  function WithoutCleanups(calls: seq<Call>): seq<Call> {
    if calls == [] then [] else (if calls[0].Request? then [calls[0]] else []) + WithoutCleanups(calls[1..])
  }

  /** No request at `now` or later can tell the two apart. */
  ghost predicate Alike(a: Hits, b: Hits, now: int) {
    forall key, t | now <= t :: Current(a, key, t) == Current(b, key, t)
  }

  lemma CleanupKeepsAlike(a: Hits, b: Hits, now: int, later: int)
    requires Alike(a, b, now) && now <= later
    ensures Alike(WithoutExpired(a, later), b, later)
  {
    forall key, t | later <= t ensures Current(WithoutExpired(a, later), key, t) == Current(b, key, t) {
      assert Current(a, key, t) == Current(b, key, t);
    }
  }

  lemma RequestKeepsAlike(a: Hits, b: Hits, now: int, key: string, later: int, settings: Settings)
    requires Alike(a, b, now) && now <= later
    ensures IsAdmitted(a, key, later, settings) == IsAdmitted(b, key, later, settings)
    ensures Alike(Step(a, Request(key, later), settings), Step(b, Request(key, later), settings), later)
  {
    assert Current(a, key, later) == Current(b, key, later);
    forall k, t | later <= t
      ensures Current(Step(a, Request(key, later), settings), k, t) == Current(Step(b, Request(key, later), settings), k, t)
    {
      assert Current(a, k, t) == Current(b, k, t);
    }
  }

  lemma {:induction false} DecisionsIgnoreCleanups(a: Hits, b: Hits, now: int, calls: seq<Call>, settings: Settings)
    requires Alike(a, b, now) && Ordered(calls) && (calls != [] ==> now <= calls[0].now)
    ensures Decisions(a, calls, settings) == Decisions(b, WithoutCleanups(calls), settings)
    decreases |calls|
  {
    if calls != [] {
      var call, rest := calls[0], calls[1..];
      if call.Request? {
        RequestKeepsAlike(a, b, now, call.key, call.now, settings);
        DecisionsIgnoreCleanups(Step(a, call, settings), Step(b, call, settings), call.now, rest, settings);
        assert ([call] + WithoutCleanups(rest))[1..] == WithoutCleanups(rest);
      } else {
        CleanupKeepsAlike(a, b, now, call.now);
        DecisionsIgnoreCleanups(Step(a, call, settings), b, call.now, rest, settings);
        assert [] + WithoutCleanups(rest) == WithoutCleanups(rest);
      }
    }
  }

  /** Wherever cleanups happen between the same requests, the same requests are admitted. */
  lemma CleanupIsInvisible(calls: seq<Call>, others: seq<Call>, hits: Hits, settings: Settings)
    requires Ordered(calls) && Ordered(others) && WithoutCleanups(calls) == WithoutCleanups(others)
    ensures Decisions(hits, calls, settings) == Decisions(hits, others, settings)
  {
    var now := if calls == [] then 0 else calls[0].now;
    DecisionsIgnoreCleanups(hits, hits, now, calls, settings);
    now := if others == [] then 0 else others[0].now;
    DecisionsIgnoreCleanups(hits, hits, now, others, settings);
  }

  // ---------- runs ----------

  datatype Run = Run(states: seq<Hits>, calls: seq<Call>, settings: Settings) {
    ghost predicate Valid() {
      && |states| == |calls| + 1 && states[0] == map[]
      && (forall i {:trigger Step(states[i], calls[i], settings)} | 0 <= i < |calls| ::
            states[i + 1] == Step(states[i], calls[i], settings))
      && Ordered(calls)
    }

    ghost predicate AdmittedAt(i: nat, key: string)
      requires Valid() && i < |calls|
    {
      calls[i].Request? && calls[i].key == key && IsAdmitted(states[i], key, calls[i].now, settings)
    }

    /** How many requests of `key` from call `i` on and before call `j` are admitted. */
    ghost function AdmittedIn(i: nat, j: nat, key: string): nat
      requires Valid() && i <= j <= |calls|
    {
      if i == j then 0 else AdmittedIn(i, j - 1, key) + if AdmittedAt(j - 1, key) then 1 else 0
    }
  }

  lemma {:induction false} CountsArePositive(run: Run, n: nat, key: string)
    requires run.Valid() && n <= |run.calls| && key in run.states[n]
    ensures run.states[n][key].count >= 1
    decreases n
  {
    if n > 0 {
      assert run.states[n] == Step(run.states[n - 1], run.calls[n - 1], run.settings);
      if key in run.states[n - 1] {
        CountsArePositive(run, n - 1, key);
      }
    }
  }

  // ---------- exactly which requests are admitted ----------

  /** The latest request of `key` before call `i`, or -1. */
  function Previous(calls: seq<Call>, key: string, i: nat): (p: int)
    requires i <= |calls|
    ensures -1 <= p < i && (p >= 0 ==> calls[p].Request? && calls[p].key == key)
    ensures forall d | p < d < i :: !(calls[d].Request? && calls[d].key == key)
  {
    if i == 0 then -1
    else if calls[i - 1].Request? && calls[i - 1].key == key then i - 1
    else Previous(calls, key, i - 1)
  }

  /** The request of the same key that opened the window of request `i`: the next one behind a window opens another. */
  function Opener(calls: seq<Call>, i: nat, windowMs: int): (o: nat)
    requires i < |calls| && calls[i].Request?
    ensures o <= i && calls[o].Request? && calls[o].key == calls[i].key
    decreases i
  {
    var p := Previous(calls, calls[i].key, i);
    if p < 0 then i
    else
      var o := Opener(calls, p, windowMs);
      if calls[i].now <= calls[o].now + windowMs then o else i
  }

  /** How many requests of `key` are made from call `i` on and before call `j`. */
  function RequestsIn(calls: seq<Call>, key: string, i: nat, j: nat): nat
    requires i <= j <= |calls|
  {
    if i == j then 0
    else RequestsIn(calls, key, i, j - 1) + if calls[j - 1].Request? && calls[j - 1].key == key then 1 else 0
  }

  lemma {:induction false} NoRequestsBetween(calls: seq<Call>, key: string, i: nat, p: nat, j: nat)
    requires i <= p <= j <= |calls| && forall d | p <= d < j :: !(calls[d].Request? && calls[d].key == key)
    ensures RequestsIn(calls, key, i, j) == RequestsIn(calls, key, i, p)
    decreases j
  {
    if p < j {
      NoRequestsBetween(calls, key, i, p, j - 1);
    }
  }

  /** The record that request `p` leaves. */
  function RecordOf(run: Run, p: nat): Record
    requires p < |run.calls| && run.calls[p].Request?
  {
    var o := Opener(run.calls, p, run.settings.windowMs);
    Record(RequestsIn(run.calls, run.calls[p].key, o, p + 1), run.calls[o].now + run.settings.windowMs)
  }

  /** The record of a key is that of its latest request, and goes away only when it has expired. */
  ghost predicate IsRecorded(run: Run, n: nat, key: string)
    requires run.Valid() && n <= |run.calls|
  {
    var p, s := Previous(run.calls, key, n), run.states[n];
    if p < 0 then key !in s
    else if key in s then s[key] == RecordOf(run, p)
    else run.calls[n - 1].now > RecordOf(run, p).resetTime
  }

  /** A request is counted in the window to which it belongs. */
  lemma RequestIsCounted(run: Run, n: nat, key: string)
    requires run.Valid() && n < |run.calls| && run.calls[n].Request? && run.calls[n].key == key && IsRecorded(run, n, key)
    ensures Counted(Current(run.states[n], key, run.calls[n].now), run.calls[n].now, run.settings) == RecordOf(run, n)
  {
    var p, o := Previous(run.calls, key, n), Opener(run.calls, n, run.settings.windowMs);
    if o == n {
      assert RequestsIn(run.calls, key, n, n) == 0;
    } else {
      NoRequestsBetween(run.calls, key, o, p + 1, n);
    }
  }

  lemma {:induction false} KeyIsRecorded(run: Run, n: nat, key: string)
    requires run.Valid() && n <= |run.calls|
    ensures IsRecorded(run, n, key)
    decreases n
  {
    if n > 0 {
      var call := run.calls[n - 1];
      assert run.states[n] == Step(run.states[n - 1], call, run.settings);
      KeyIsRecorded(run, n - 1, key);
      if call.Request? && call.key == key {
        RequestIsCounted(run, n - 1, key);
      }
    }
  }

  /** A request is admitted exactly if it is among the first of its window, refused requests included. */
  lemma AdmittedIffEarlyInWindow(run: Run, i: nat)
    requires run.Valid() && i < |run.calls| && run.calls[i].Request?
    ensures var key, o := run.calls[i].key, Opener(run.calls, i, run.settings.windowMs);
            run.AdmittedAt(i, key) <==> RequestsIn(run.calls, key, o, i + 1) <= run.settings.maxRequests
  {
    KeyIsRecorded(run, i, run.calls[i].key);
    RequestIsCounted(run, i, run.calls[i].key);
  }

  /** A cleanup keeps exactly the keys whose windows have not passed. */
  lemma CleanupKeepsLive(run: Run, i: nat, key: string)
    requires run.Valid() && i < |run.calls| && run.calls[i].Cleanup?
    ensures var p := Previous(run.calls, key, i);
            key in run.states[i + 1] <==>
              p >= 0 && run.calls[i].now <= run.calls[Opener(run.calls, p, run.settings.windowMs)].now + run.settings.windowMs
  {
    KeyIsRecorded(run, i, key);
    assert run.states[i + 1] == Step(run.states[i], run.calls[i], run.settings);
  }

  // ---------- how much an interval admits ----------

  function Min(a: int, b: int): int {
    if a < b then a else b
  }

  /** `n` times `a`. */
  function Times(n: nat, a: int): int {
    if n == 0 then 0 else Times(n - 1, a) + a
  }

  /**
   What an interval has done with a key: how many windows it has opened, the last of them at `start`, and whether
   it has had a request admitted by a window that was there before.
   */
  datatype Progress = Progress(windows: nat, carried: bool, start: int)

  /** No window has been opened inside: an earlier one has spent a request outside of the interval. */
  ghost predicate WithinEarlier(run: Run, i: nat, n: nat, key: string)
    requires run.Valid() && i <= n <= |run.calls| && i < |run.calls|
  {
    var admitted, from, s := run.AdmittedIn(i, n, key), run.calls[i].now, run.states[n];
    && admitted <= run.settings.maxRequests - 1
    && (admitted > 0 && key in s ==> s[key].resetTime >= from && admitted <= s[key].count - 1)
    && (admitted > 0 && key !in s ==> i < n && run.calls[n - 1].now > from)
  }

  /** The windows that were opened inside lie more than a window's length apart, and behind an earlier one. */
  ghost predicate WithinOpened(run: Run, i: nat, n: nat, key: string, p: Progress)
    requires run.Valid() && i <= n <= |run.calls| && i < |run.calls|
  {
    var max, window, s := run.settings.maxRequests, run.settings.windowMs, run.states[n];
    && p.windows > 0 && i < n && p.start <= run.calls[n - 1].now
    && p.start - run.calls[i].now >= Times(p.windows - 1, window + 1) + (if p.carried then 1 else 0)
    && (if key in s then s[key].resetTime == p.start + window else run.calls[n - 1].now > p.start + window)
    && run.AdmittedIn(i, n, key) <=
         (if p.carried then max - 1 else 0) + Times(p.windows - 1, max) + (if key in s then Min(s[key].count, max) else max)
  }

  ghost predicate WithinWindows(run: Run, i: nat, n: nat, key: string, p: Progress)
    requires run.Valid() && i <= n <= |run.calls| && i < |run.calls|
  {
    if p.windows == 0 then WithinEarlier(run, i, n, key) else WithinOpened(run, i, n, key, p)
  }

  lemma StepInEarlier(run: Run, i: nat, n: nat, key: string) returns (p: Progress)
    requires run.Valid() && i < n <= |run.calls| && run.settings.maxRequests >= 1
    requires WithinEarlier(run, i, n - 1, key)
    ensures WithinWindows(run, i, n, key, p)
  {
    var s, call := run.states[n - 1], run.calls[n - 1];
    assert run.states[n] == Step(s, call, run.settings);
    if key in s {
      CountsArePositive(run, n - 1, key);
    }
    if call.Request? && call.key == key && Current(s, key, call.now).None? {
      p := Progress(1, run.AdmittedIn(i, n - 1, key) > 0, call.now);
    } else {
      p := Progress(0, false, 0);
    }
  }

  lemma StepInOpened(run: Run, i: nat, n: nat, key: string, p: Progress) returns (r: Progress)
    requires run.Valid() && i < n <= |run.calls| && run.settings.maxRequests >= 1
    requires WithinOpened(run, i, n - 1, key, p)
    ensures WithinWindows(run, i, n, key, r)
  {
    var s, call := run.states[n - 1], run.calls[n - 1];
    assert run.states[n] == Step(s, call, run.settings);
    if call.Request? && call.key == key && Current(s, key, call.now).None? {
      r := Progress(p.windows + 1, p.carried, call.now);
    } else {
      r := p;
    }
  }

  lemma {:induction false} IntervalSpansWindows(run: Run, i: nat, n: nat, key: string) returns (p: Progress)
    requires run.Valid() && i <= n <= |run.calls| && i < |run.calls| && run.settings.maxRequests >= 1
    ensures WithinWindows(run, i, n, key, p)
    decreases n
  {
    if i == n {
      p := Progress(0, false, 0);
    } else {
      p := IntervalSpansWindows(run, i, n - 1, key);
      if p.windows == 0 {
        p := StepInEarlier(run, i, n, key);
      } else {
        p := StepInOpened(run, i, n, key, p);
      }
    }
  }

  lemma {:induction false} NothingIsAdmitted(run: Run, i: nat, j: nat, key: string)
    requires run.Valid() && i <= j <= |run.calls| && run.settings.maxRequests < 1
    ensures run.AdmittedIn(i, j, key) == 0
    decreases j
  {
    if i < j {
      NothingIsAdmitted(run, i, j - 1, key);
      if key in run.states[j - 1] {
        CountsArePositive(run, j - 1, key);
      }
    }
  }

  /** What an interval of the given length can admit: its windows are more than the window's length apart. */
  function Bound(length: nat, settings: Settings): int
    requires settings.windowMs >= 0
  {
    var max, n, rest := settings.maxRequests, length / (settings.windowMs + 1), length % (settings.windowMs + 1);
    if max < 1 then 0 else if rest == 0 then (n + 1) * max else (n + 2) * max - 1
  }

  lemma {:induction false} TimesIsProduct(n: nat, a: int)
    ensures Times(n, a) == n * a
  {
    if n > 0 {
      TimesIsProduct(n - 1, a);
      assert n * a == (n - 1) * a + a;
    }
  }

  lemma AtMostQuotient(k: nat, length: nat, w: int)
    requires w > 0 && k * w <= length
    ensures k <= length / w && (k * w < length && length % w == 0 ==> k < length / w)
  {
    var q := length / w;
    assert length == q * w + length % w && (q + 1) * w == q * w + w;
    if k > q {
      ProductIsMonotone(q + 1, k, w);
    }
  }

  lemma ProductIsMonotone(a: int, b: int, c: int)
    requires a <= b && c >= 0
    ensures a * c <= b * c
  {
  }

  /** Windows that fit into the interval admit no more than the bound. */
  lemma WindowsAreBounded(p: Progress, length: nat, settings: Settings)
    requires settings.windowMs >= 0 && settings.maxRequests >= 1 && p.windows > 0
    requires Times(p.windows - 1, settings.windowMs + 1) + (if p.carried then 1 else 0) <= length
    ensures (if p.carried then settings.maxRequests - 1 else 0) + Times(p.windows, settings.maxRequests) <= Bound(length, settings)
  {
    var max, w := settings.maxRequests, settings.windowMs + 1;
    TimesIsProduct(p.windows - 1, w);
    TimesIsProduct(p.windows, max);
    AtMostQuotient(p.windows - 1, length, w);
    var q := length / w;
    ProductIsMonotone(p.windows, q + 1, max);
    if p.carried && length % w == 0 {
      ProductIsMonotone(p.windows, q, max);
    }
    assert (q + 1) * max == q * max + max && (q + 2) * max == (q + 1) * max + max;
  }

  /** A closed interval of any length admits of a key at most what so many windows can. */
  lemma IntervalIsBounded(run: Run, i: nat, j: nat, key: string, length: nat)
    requires run.Valid() && i <= j < |run.calls| && run.calls[j].now - run.calls[i].now <= length
    requires run.settings.windowMs >= 0
    ensures run.AdmittedIn(i, j + 1, key) <= Bound(length, run.settings)
  {
    if run.settings.maxRequests >= 1 {
      var p := IntervalSpansWindows(run, i, j + 1, key);
      if p.windows > 0 {
        WindowsAreBounded(p, length, run.settings);
      } else {
        WindowsAreBounded(Progress(1, false, 0), length, run.settings);
      }
    } else {
      NothingIsAdmitted(run, i, j + 1, key);
    }
  }

  /** So `k` window lengths admit at most `k + 1` times the limit, less one. */
  lemma WindowLengthsAreBounded(settings: Settings, k: nat)
    requires settings.windowMs >= 1 && settings.maxRequests >= 1 && k >= 1
    ensures Bound(k * settings.windowMs, settings) <= (k + 1) * settings.maxRequests - 1
  {
    var max, w, length := settings.maxRequests, settings.windowMs + 1, k * settings.windowMs;
    var q := length / w;
    assert length == k * w - k && length == q * w + length % w;
    if q >= k {
      ProductIsMonotone(k, q, w);
    }
    ProductIsMonotone(q + 2, k + 1, max);
    assert (q + 2) * max == (q + 1) * max + max;
  }

  // ---------- the bound is reached ----------

  /** `r` goes on from `run` with calls from `from` to `to`, and `n` more requests of the key are admitted. */
  ghost predicate Extends(r: Run, run: Run, key: string, from: int, to: int, n: int) {
    && run.Valid() && r.Valid() && r.settings == run.settings && run.calls <= r.calls
    && (forall k | |run.calls| <= k < |r.calls| :: from <= r.calls[k].now <= to)
    && forall i | 0 <= i <= |run.calls| :: r.AdmittedIn(i, |r.calls|, key) == run.AdmittedIn(i, |run.calls|, key) + n
  }

  ghost predicate IsOver(run: Run, t: int) {
    run.Valid() && forall k | 0 <= k < |run.calls| :: run.calls[k].now <= t
  }

  lemma {:induction false} SharedAdmissions(run: Run, r: Run, i: nat, n: nat, key: string)
    requires run.Valid() && r.Valid() && r.settings == run.settings && i <= n <= |run.calls|
    requires run.calls <= r.calls && run.states <= r.states
    ensures r.AdmittedIn(i, n, key) == run.AdmittedIn(i, n, key)
    decreases n
  {
    if i < n {
      SharedAdmissions(run, r, i, n - 1, key);
    }
  }

  lemma OneMoreRequest(run: Run, key: string, t: int) returns (r: Run)
    requires IsOver(run, t) && IsAdmitted(run.states[|run.calls|], key, t, run.settings)
    ensures Extends(r, run, key, t, t, 1) && IsOver(r, t) && r.calls == run.calls + [Request(key, t)]
    ensures r.states[|r.calls|] == Step(run.states[|run.calls|], Request(key, t), run.settings)
  {
    var last := Step(run.states[|run.calls|], Request(key, t), run.settings);
    r := Run(run.states + [last], run.calls + [Request(key, t)], run.settings);
    forall i | 0 <= i < |r.calls| ensures r.states[i + 1] == Step(r.states[i], r.calls[i], r.settings) {
      if i < |run.calls| {
        assert run.states[i + 1] == Step(run.states[i], run.calls[i], run.settings);
      }
    }
    forall i | 0 <= i <= |run.calls| ensures r.AdmittedIn(i, |r.calls|, key) == run.AdmittedIn(i, |run.calls|, key) + 1 {
      SharedAdmissions(run, r, i, |run.calls|, key);
      assert r.AdmittedAt(|run.calls|, key);
    }
  }

  /** The window that counts for a request at `t` has counted `c` of them, or there is none. */
  ghost predicate HasCounted(run: Run, key: string, t: int, c: nat) {
    && run.Valid()
    && match Current(run.states[|run.calls|], key, t)
       case None => c == 0
       case Some(record) => record.count == c > 0
  }

  lemma {:induction false} Burst(run: Run, key: string, t: int, c: nat, n: nat) returns (r: Run)
    requires IsOver(run, t) && HasCounted(run, key, t, c) && c + n <= run.settings.maxRequests && run.settings.windowMs >= 0
    ensures Extends(r, run, key, t, t, n) && IsOver(r, t) && |r.calls| == |run.calls| + n && HasCounted(r, key, t, c + n)
    ensures c > 0 ==> r.states[|r.calls|][key].resetTime == run.states[|run.calls|][key].resetTime
    ensures c == 0 && n > 0 ==> r.states[|r.calls|][key].resetTime == t + run.settings.windowMs
    decreases n
  {
    r := run;
    if n > 0 {
      var front := Burst(run, key, t, c, n - 1);
      r := OneMoreRequest(front, key, t);
    }
  }

  /** `m` windows, one right after the other, that are used up at once. */
  lemma {:induction false} Bursts(run: Run, key: string, t: int, m: nat) returns (r: Run)
    requires IsOver(run, t) && HasCounted(run, key, t, 0) && run.settings.windowMs >= 0 && run.settings.maxRequests >= 1
    ensures var max, w := run.settings.maxRequests, run.settings.windowMs + 1;
            && Extends(r, run, key, t, t + Times(m, w) - w, Times(m, max)) && (m > 0 ==> |r.calls| > |run.calls|)
            && IsOver(r, t + Times(m, w)) && HasCounted(r, key, t + Times(m, w), 0)
    decreases m
  {
    r := run;
    if m > 0 {
      var now := t + Times(m - 1, run.settings.windowMs + 1);
      var front := Bursts(run, key, t, m - 1);
      r := Burst(front, key, now, 0, run.settings.maxRequests);
      TimesIsNonNegative(m - 1, run.settings.windowMs + 1);
    }
  }

  lemma {:induction false} TimesIsNonNegative(n: nat, a: int)
    requires a >= 0
    ensures Times(n, a) >= 0
  {
    if n > 0 {
      TimesIsNonNegative(n - 1, a);
    }
  }

  /** A request at 0 and all but one of the allowed ones at the end of its window. */
  lemma EarlierWindow(key: string, settings: Settings) returns (run: Run)
    requires settings.maxRequests >= 1 && settings.windowMs >= 0
    ensures IsOver(run, settings.windowMs) && run.settings == settings && |run.calls| == settings.maxRequests
    ensures HasCounted(run, key, settings.windowMs + 1, 0)
    ensures run.AdmittedIn(1, |run.calls|, key) == settings.maxRequests - 1
    ensures forall k | 1 <= k < |run.calls| :: run.calls[k].now == settings.windowMs
  {
    var first := Burst(Run([map[]], [], settings), key, 0, 0, 1);
    run := Burst(first, key, settings.windowMs, 1, settings.maxRequests - 1);
  }

  lemma BoundByWindows(settings: Settings, length: nat, n: nat)
    requires settings.maxRequests >= 1 && settings.windowMs >= 0 && n == length / (settings.windowMs + 1) + 1
    ensures var max, w, rest := settings.maxRequests, settings.windowMs + 1, length % (settings.windowMs + 1);
            && Times(n, w) - w == length - rest
            && Bound(length, settings) == Times(n, max) + if rest == 0 then 0 else max - 1
  {
    var max, w := settings.maxRequests, settings.windowMs + 1;
    TimesIsProduct(n, w);
    TimesIsProduct(n, max);
    assert length == (n - 1) * w + length % w && n * w == (n - 1) * w + w && (n + 1) * max == n * max + max;
  }

  lemma WindowsAlone(key: string, settings: Settings, n: nat) returns (run: Run, j: nat)
    requires settings.maxRequests >= 1 && settings.windowMs >= 0 && n > 0
    ensures run.Valid() && run.settings == settings && j + 1 == |run.calls|
    ensures run.calls[j].now - run.calls[0].now <= Times(n, settings.windowMs + 1) - (settings.windowMs + 1)
    ensures run.AdmittedIn(0, j + 1, key) == Times(n, settings.maxRequests)
  {
    run := Bursts(Run([map[]], [], settings), key, 0, n);
    j := |run.calls| - 1;
  }

  lemma WindowsAfterEarlier(key: string, settings: Settings, n: nat) returns (run: Run, j: nat)
    requires settings.maxRequests >= 1 && settings.windowMs >= 0 && n > 0
    ensures run.Valid() && run.settings == settings && 1 <= j && j + 1 == |run.calls|
    ensures run.calls[j].now - run.calls[1].now <= Times(n, settings.windowMs + 1) - settings.windowMs
    ensures run.AdmittedIn(1, j + 1, key) == Times(n, settings.maxRequests) + settings.maxRequests - 1
  {
    var earlier := EarlierWindow(key, settings);
    run := Bursts(earlier, key, settings.windowMs + 1, n);
    j := |run.calls| - 1;
    assert run.calls[1].now >= settings.windowMs by {
      if |earlier.calls| > 1 {
        assert run.calls[1] == earlier.calls[1];
      }
    }
  }

  /** Whatever the settings, some run admits that many requests within an interval of any length. */
  lemma BoundIsReached(key: string, settings: Settings, length: nat) returns (run: Run, i: nat, j: nat)
    requires settings.maxRequests >= 1 && settings.windowMs >= 0
    ensures run.Valid() && run.settings == settings && i <= j < |run.calls|
    ensures run.calls[j].now - run.calls[i].now <= length
    ensures run.AdmittedIn(i, j + 1, key) == Bound(length, settings)
  {
    var n := length / (settings.windowMs + 1) + 1;
    BoundByWindows(settings, length, n);
    if length % (settings.windowMs + 1) == 0 {
      i := 0;
      run, j := WindowsAlone(key, settings, n);
    } else {
      i := 1;
      run, j := WindowsAfterEarlier(key, settings, n);
    }
  }
}
