/**
 The circuit breaker of circuitBreaker.ts, over every sequence of calls at non-decreasing times.
 */
module Breaker {

  datatype CircuitState = CLOSED | OPEN | HALF_OPEN

  datatype Settings = Settings(failureThreshold: int, recoveryTimeoutMs: int, halfOpenSuccessThreshold: int) {
    predicate Valid() {
      failureThreshold >= 1 && halfOpenSuccessThreshold >= 1
    }
  }

  datatype State = State(state: CircuitState, failureCount: int, lastFailureTime: int, successCount: int)

  const INITIAL := State(CLOSED, 0, 0, 0)

  /** A call, with the time at which it is made; recording a success does not look at the time. */
  datatype Call = CanPass(now: int) | RecordSuccess(now: int) | RecordFailure(now: int)

  predicate IsQuiet(s: State, now: int, settings: Settings) {
    now - s.lastFailureTime > settings.recoveryTimeoutMs
  }

  /** The answer to the question whether a request may pass at `now`. */
  predicate Passes(s: State, now: int, settings: Settings) {
    s.state == OPEN ==> IsQuiet(s, now, settings)
  }

  function Step(s: State, call: Call, settings: Settings): State {
    match call
    case CanPass(now) =>
      if s.state == OPEN && IsQuiet(s, now, settings) then s.(state := HALF_OPEN, successCount := 0) else s
    case RecordSuccess(_) =>
      if s.state == HALF_OPEN then
        if s.successCount + 1 >= settings.halfOpenSuccessThreshold
        then s.(state := CLOSED, failureCount := 0, successCount := s.successCount + 1)
        else s.(successCount := s.successCount + 1)
      else s.(failureCount := 0)
    case RecordFailure(now) =>
      var trips := s.state == HALF_OPEN || s.failureCount + 1 >= settings.failureThreshold;
      s.(failureCount := s.failureCount + 1, lastFailureTime := now, state := if trips then OPEN else s.state)
  }

  class CircuitBreaker {
    const settings: Settings
    var state: CircuitState
    var failureCount: int
    var lastFailureTime: int
    var successCount: int

    function View(): State
      reads this
    {
      State(state, failureCount, lastFailureTime, successCount)
    }

    constructor (failureThreshold: int := 5, recoveryTimeoutMs: int := 30000, halfOpenSuccessThreshold: int := 3)
      ensures settings == Settings(failureThreshold, recoveryTimeoutMs, halfOpenSuccessThreshold) && View() == INITIAL
    {
      settings := Settings(failureThreshold, recoveryTimeoutMs, halfOpenSuccessThreshold);
      state, failureCount, lastFailureTime, successCount := CLOSED, 0, 0, 0;
    }

    method CanPass(now: int) returns (pass: bool)
      modifies this
      ensures View() == Step(old(View()), Call.CanPass(now), settings) && pass == Passes(old(View()), now, settings)
    {
      if state == OPEN {
        if now - lastFailureTime > settings.recoveryTimeoutMs {
          state := HALF_OPEN;
          successCount := 0;
          return true;
        }
        return false;
      }
      return true;
    }

    method RecordSuccess(ghost now: int)
      modifies this
      ensures View() == Step(old(View()), Call.RecordSuccess(now), settings)
    {
      if state == HALF_OPEN {
        successCount := successCount + 1;
        if successCount >= settings.halfOpenSuccessThreshold {
          state := CLOSED;
          failureCount := 0;
        }
      } else {
        failureCount := 0;
      }
    }

    method RecordFailure(now: int)
      modifies this
      ensures View() == Step(old(View()), Call.RecordFailure(now), settings)
    {
      failureCount := failureCount + 1;
      lastFailureTime := now;
      if state == HALF_OPEN || failureCount >= settings.failureThreshold {
        state := OPEN;
      }
    }

    method GetState() returns (s: CircuitState)
      ensures s == View().state
    {
      s := state;
    }
  }

  // ---------- runs ----------

  datatype Run = Run(states: seq<State>, calls: seq<Call>, settings: Settings) {
    ghost predicate Valid() {
      && settings.Valid() && |states| == |calls| + 1 && states[0] == INITIAL
      && (forall i {:trigger Step(states[i], calls[i], settings)} | 0 <= i < |calls| ::
            states[i + 1] == Step(states[i], calls[i], settings))
      && forall i, j | 0 <= i < j < |calls| :: calls[i].now <= calls[j].now
    }

    /** No failure is recorded from call `i` on and before call `j`. */
    ghost predicate NoFailure(i: nat, j: nat)
      requires j <= |calls|
    {
      forall f | i <= f < j :: !calls[f].RecordFailure?
    }

    /** All failures recorded before call `i` are more than the recovery timeout old when it is made. */
    ghost predicate QuietAt(i: nat)
      requires i < |calls|
    {
      forall f | 0 <= f < i && calls[f].RecordFailure? :: calls[i].now - calls[f].now > settings.recoveryTimeoutMs
    }

    /** How many successes are recorded from call `i` on and before call `j`. */
    ghost function Successes(i: nat, j: nat): nat
      requires i <= j <= |calls|
    {
      if i == j then 0 else Successes(i, j - 1) + if calls[j - 1].RecordSuccess? then 1 else 0
    }

    /** How many failures have been recorded before call `i` since the last success. */
    ghost function Streak(i: nat): nat
      requires i <= |calls|
    {
      if i == 0 || calls[i - 1].RecordSuccess? then 0
      else if calls[i - 1].RecordFailure? then Streak(i - 1) + 1
      else Streak(i - 1)
    }
  }

  // ---------- when the circuit is closed ----------

  /** A closed circuit counts the failures since the last success, and they are fewer than the threshold. */
  lemma {:induction false} ClosedCountsFailures(run: Run, i: nat)
    requires run.Valid() && i <= |run.calls| && run.states[i].state == CLOSED
    ensures run.states[i].failureCount == run.Streak(i) < run.settings.failureThreshold
    decreases i
  {
    if i > 0 {
      assert run.states[i] == Step(run.states[i - 1], run.calls[i - 1], run.settings);
      if run.states[i - 1].state == CLOSED {
        ClosedCountsFailures(run, i - 1);
      }
    }
  }

  /** A closed circuit opens exactly at the failure that completes a streak of the threshold's length. */
  lemma TripsAtThreshold(run: Run, i: nat)
    requires run.Valid() && i < |run.calls| && run.states[i].state == CLOSED
    ensures run.states[i + 1].state == if run.Streak(i + 1) == run.settings.failureThreshold then OPEN else CLOSED
  {
    ClosedCountsFailures(run, i);
    assert run.states[i + 1] == Step(run.states[i], run.calls[i], run.settings);
  }

  // ---------- when the circuit is open ----------

  /** The recorded time is that of the latest failure; a circuit that is not closed has had one. */
  lemma {:induction false} LatestFailure(run: Run, i: nat)
    requires run.Valid() && i <= |run.calls|
    ensures forall f | 0 <= f < i && run.calls[f].RecordFailure? :: run.calls[f].now <= run.states[i].lastFailureTime
    ensures run.states[i].state != CLOSED ==>
              exists f :: 0 <= f < i && run.calls[f].RecordFailure? && run.calls[f].now == run.states[i].lastFailureTime
    decreases i
  {
    if i > 0 {
      LatestFailure(run, i - 1);
      assert run.states[i] == Step(run.states[i - 1], run.calls[i - 1], run.settings);
    }
  }

  /** An open circuit lets a request pass exactly when every failure is more than the recovery timeout ago. */
  lemma OpenPassesIffQuiet(run: Run, i: nat)
    requires run.Valid() && i < |run.calls| && run.calls[i].CanPass? && run.states[i].state == OPEN
    ensures Passes(run.states[i], run.calls[i].now, run.settings) <==> run.QuietAt(i)
  {
    LatestFailure(run, i);
  }

  // ---------- how the circuit closes again ----------

  /**
   Call `p` found the circuit open after a quiet period; since then, up to call `n`, it has been half open, and
   nothing has failed.
   */
  ghost predicate ProbingSince(run: Run, p: nat, n: nat)
    requires run.Valid() && n <= |run.calls|
  {
    && p < n && run.calls[p].CanPass? && run.states[p].state == OPEN && run.QuietAt(p)
    && (forall k | p < k <= n :: run.states[k].state == HALF_OPEN)
    && run.NoFailure(p, n)
    && run.states[n].successCount == run.Successes(p, n) < run.settings.halfOpenSuccessThreshold
  }

  lemma {:induction false} HalfOpenIsProbing(run: Run, n: nat) returns (p: nat)
    requires run.Valid() && n <= |run.calls| && run.states[n].state == HALF_OPEN
    ensures ProbingSince(run, p, n)
    decreases n
  {
    var s, call := run.states[n - 1], run.calls[n - 1];
    assert run.states[n] == Step(s, call, run.settings);
    if s.state == HALF_OPEN {
      p := HalfOpenIsProbing(run, n - 1);
    } else {
      p := n - 1;
      OpenPassesIffQuiet(run, p);
      assert run.Successes(p, p) == 0;
    }
  }

  lemma {:induction false} FirstClosed(run: Run, i: nat, j: nat) returns (c: nat)
    requires run.Valid() && i < j <= |run.calls| && run.states[i].state != CLOSED && run.states[j].state == CLOSED
    ensures i < c <= j && run.states[c].state == CLOSED && run.states[c - 1].state != CLOSED
    decreases j
  {
    if run.states[j - 1].state == CLOSED {
      c := FirstClosed(run, i, j - 1);
    } else {
      c := j;
    }
  }

  /**
   Between a moment when the circuit is open and a later one when it is closed, there are a probe that follows
   a quiet period of more than the recovery timeout, and after it, up to the call that closes the circuit,
   exactly the required number of successes and not one failure.
   */
  lemma ReclosingTakesQuietAndSuccesses(run: Run, i: nat, j: nat) returns (p: nat, c: nat)
    requires run.Valid() && i < j <= |run.calls| && run.states[i].state == OPEN && run.states[j].state == CLOSED
    ensures i <= p < c <= j
    ensures run.calls[p].CanPass? && run.states[p].state == OPEN && run.QuietAt(p)
    ensures run.NoFailure(p, c) && run.Successes(p, c) == run.settings.halfOpenSuccessThreshold
    ensures run.states[c].state == CLOSED && run.states[c - 1].state == HALF_OPEN
  {
    c := FirstClosed(run, i, j);
    assert run.states[c] == Step(run.states[c - 1], run.calls[c - 1], run.settings);
    p := HalfOpenIsProbing(run, c - 1);
  }

  /** Conversely, the required number of successes closes a circuit that is probing, unless something fails before. */
  lemma {:induction false} SuccessesClose(run: Run, p: nat, n: nat)
    requires run.Valid() && p < n <= |run.calls|
    requires run.calls[p].CanPass? && run.states[p].state == OPEN && run.QuietAt(p)
    requires run.NoFailure(p, n)
    ensures if run.Successes(p, n) < run.settings.halfOpenSuccessThreshold
            then run.states[n].state == HALF_OPEN && run.states[n].successCount == run.Successes(p, n)
            else run.states[n].state == CLOSED
    decreases n
  {
    var s, call := run.states[n - 1], run.calls[n - 1];
    assert run.states[n] == Step(s, call, run.settings);
    if n == p + 1 {
      OpenPassesIffQuiet(run, p);
      assert run.Successes(p, p) == 0;
    } else {
      SuccessesClose(run, p, n - 1);
    }
  }

  // ---------- what a caller sees, from the calls alone ----------

  /** Call `f` is a failure that completes a streak of at least the threshold's length. */
  ghost predicate Trips(run: Run, f: nat)
    requires run.Valid() && f < |run.calls|
  {
    run.calls[f].RecordFailure? && run.Streak(f + 1) >= run.settings.failureThreshold
  }

  /** Request `p` comes after a quiet period, and the successes that close the circuit follow it before call `i`. */
  ghost predicate Recovers(run: Run, p: nat, i: nat)
    requires run.Valid() && i <= |run.calls|
  {
    && p < i && run.calls[p].CanPass? && run.QuietAt(p)
    && exists c :: p < c <= i && run.NoFailure(p, c) && run.Successes(p, c) >= run.settings.halfOpenSuccessThreshold
  }

  /** The circuit has been tripped by call `f` and has not recovered from it before call `i`. */
  ghost predicate TrippedBy(run: Run, f: nat, i: nat)
    requires run.Valid() && i <= |run.calls|
  {
    f < i && Trips(run, f) && forall p | f < p < i :: !Recovers(run, p, i)
  }

  ghost predicate Tripped(run: Run, i: nat)
    requires run.Valid() && i <= |run.calls|
  {
    exists f :: 0 <= f < i && TrippedBy(run, f, i)
  }

  lemma {:induction false} SuccessesFrom(run: Run, i: nat, k: nat, j: nat)
    requires run.Valid() && i <= k <= j <= |run.calls|
    ensures run.Successes(i, j) == run.Successes(i, k) + run.Successes(k, j)
    decreases j
  {
    if k < j {
      SuccessesFrom(run, i, k, j - 1);
    }
  }

  /** A failure that completes a streak leaves the circuit open, whatever it was before. */
  lemma TrippingOpens(run: Run, f: nat)
    requires run.Valid() && f < |run.calls| && Trips(run, f)
    ensures run.states[f + 1].state == OPEN
  {
    assert run.states[f + 1] == Step(run.states[f], run.calls[f], run.settings);
    if run.states[f].state == CLOSED {
      ClosedCountsFailures(run, f);
    }
  }

  /** A circuit that is not closed was tripped, and has not been closed since. */
  lemma {:induction false} LatestTrip(run: Run, i: nat) returns (f: nat)
    requires run.Valid() && i <= |run.calls| && run.states[i].state != CLOSED
    ensures f < i && Trips(run, f) && forall k | f < k <= i :: run.states[k].state != CLOSED
    decreases i
  {
    assert run.states[i] == Step(run.states[i - 1], run.calls[i - 1], run.settings);
    if run.states[i - 1].state == CLOSED {
      f := i - 1;
      TripsAtThreshold(run, f);
    } else {
      f := LatestTrip(run, i - 1);
    }
  }

  /** A recovery closes the circuit. */
  lemma RecoveryCloses(run: Run, p: nat, i: nat) returns (k: nat)
    requires run.Valid() && i <= |run.calls| && Recovers(run, p, i)
    ensures p <= k <= i && run.states[k].state == CLOSED
  {
    var c :| p < c <= i && run.NoFailure(p, c) && run.Successes(p, c) >= run.settings.halfOpenSuccessThreshold;
    match run.states[p].state
    case CLOSED =>
      k := p;
    case OPEN =>
      SuccessesClose(run, p, c);
      k := c;
    case HALF_OPEN =>
      var q := HalfOpenIsProbing(run, p);
      SuccessesFrom(run, q, p, c);
      SuccessesClose(run, q, c);
      k := c;
  }

  /** The circuit is closed exactly when it has recovered from every trip. */
  lemma ClosedIffNotTripped(run: Run, i: nat)
    requires run.Valid() && i <= |run.calls|
    ensures run.states[i].state == CLOSED <==> !Tripped(run, i)
  {
    if run.states[i].state == CLOSED {
      forall f | 0 <= f < i ensures !TrippedBy(run, f, i) {
        if Trips(run, f) {
          TrippingOpens(run, f);
          var p, c := ReclosingTakesQuietAndSuccesses(run, f + 1, i);
          assert Recovers(run, p, i);
        }
      }
    } else {
      var f := LatestTrip(run, i);
      forall p | f < p < i ensures !Recovers(run, p, i) {
        if Recovers(run, p, i) {
          var k := RecoveryCloses(run, p, i);
        }
      }
      assert TrippedBy(run, f, i);
    }
  }

  /** A half-open circuit has had no failure within the recovery timeout. */
  lemma HalfOpenIsQuiet(run: Run, i: nat)
    requires run.Valid() && i < |run.calls| && run.states[i].state == HALF_OPEN
    ensures run.QuietAt(i)
  {
    var p := HalfOpenIsProbing(run, i);
  }

  /**
   A request is refused exactly when the circuit has been tripped and has not recovered, and some failure is no older
   than the recovery timeout.
   */
  lemma RefusedIffTrippedRecently(run: Run, i: nat)
    requires run.Valid() && i < |run.calls| && run.calls[i].CanPass?
    ensures !Passes(run.states[i], run.calls[i].now, run.settings) <==> Tripped(run, i) && !run.QuietAt(i)
  {
    ClosedIffNotTripped(run, i);
    match run.states[i].state
    case CLOSED =>
    case OPEN => OpenPassesIffQuiet(run, i);
    case HALF_OPEN => HalfOpenIsQuiet(run, i);
  }

  /** Before the first streak of failures that is long enough, every request passes. */
  lemma UntrippedPasses(run: Run, i: nat)
    requires run.Valid() && i < |run.calls| && run.calls[i].CanPass? && forall f | 0 <= f < i :: !Trips(run, f)
    ensures Passes(run.states[i], run.calls[i].now, run.settings)
  {
    RefusedIffTrippedRecently(run, i);
  }

  /** After a request that passes every request passes up to the next failure. */
  lemma PassesUntilFailure(run: Run, p: nat, i: nat)
    requires run.Valid() && p < i < |run.calls| && run.calls[p].CanPass? && run.calls[i].CanPass? && run.NoFailure(p, i)
    requires Passes(run.states[p], run.calls[p].now, run.settings)
    ensures Passes(run.states[i], run.calls[i].now, run.settings)
  {
    RefusedIffTrippedRecently(run, p);
    RefusedIffTrippedRecently(run, i);
    if !run.QuietAt(i) && Tripped(run, i) {
      EarlierTrip(run, p, i);
    }
  }

  /** Without a failure in between, what has tripped the circuit had done so before. */
  lemma EarlierTrip(run: Run, p: nat, i: nat)
    requires run.Valid() && p <= i <= |run.calls| && run.NoFailure(p, i) && Tripped(run, i)
    ensures Tripped(run, p)
  {
    var f :| 0 <= f < i && TrippedBy(run, f, i);
    assert f < p;
    forall q | f < q < p ensures !Recovers(run, q, p) {
      assert !Recovers(run, q, i);
    }
    assert TrippedBy(run, f, p);
  }
}
