/**
 The lease lock of DistributedLeaseLockManager.ts: who may hold a resource when, and what the fencing tokens
 say, over every sequence of calls at non-decreasing times.
 */
module LeaseLock {

  import opened Options

  datatype Lease = Lease(resourceKey: string, ownerId: string, fencingToken: int, grantedAt: int, expiresAt: int)

  datatype State = State(locks: map<string, Lease>, globalFencingSequence: int)

  const INITIAL := State(map[], 1000)

  /** A call, with the time at which it is made; a release does not look at the time. */
  datatype Call =
    | Acquire(key: string, owner: string, now: int, duration: int)
    | Release(key: string, owner: string, now: int)

  /** The call asks for a lease that somebody else holds and that has not expired. */
  predicate IsBlocked(s: State, call: Call)
    requires call.Acquire?
  {
    call.key in s.locks && s.locks[call.key].expiresAt > call.now && s.locks[call.key].ownerId != call.owner
  }

  predicate IsGranted(s: State, call: Call) {
    call.Acquire? && !IsBlocked(s, call)
  }

  predicate IsReleased(s: State, call: Call) {
    call.Release? && call.key in s.locks && s.locks[call.key].ownerId == call.owner
  }

  /** The lease that a call is granted. */
  function LeaseOf(s: State, call: Call): Lease
    requires IsGranted(s, call)
  {
    Lease(call.key, call.owner, s.globalFencingSequence + 1, call.now, call.now + call.duration)
  }

  function Step(s: State, call: Call): State {
    if IsGranted(s, call) then State(s.locks[call.key := LeaseOf(s, call)], s.globalFencingSequence + 1)
    else if IsReleased(s, call) then s.(locks := s.locks - {call.key})
    else s
  }

  class DistributedLeaseLockManager {
    var locks: map<string, Lease>
    var globalFencingSequence: int

    function View(): State
      reads this
    {
      State(locks, globalFencingSequence)
    }

    constructor ()
      ensures View() == INITIAL
    {
      locks, globalFencingSequence := map[], 1000;
    }

    method AcquireLease(resourceKey: string, ownerId: string, durationMs: int, now: int) returns (lock: Option<Lease>)
      modifies this
      ensures var s, call := old(View()), Acquire(resourceKey, ownerId, now, durationMs);
              View() == Step(s, call) && lock == if IsGranted(s, call) then Some(LeaseOf(s, call)) else None
    {
      if resourceKey in locks {
        var existing := locks[resourceKey];
        if existing.expiresAt > now && existing.ownerId != ownerId {
          return None;
        }
      }
      globalFencingSequence := globalFencingSequence + 1;
      var granted := Lease(resourceKey, ownerId, globalFencingSequence, now, now + durationMs);
      locks := locks[resourceKey := granted];
      return Some(granted);
    }

    method ReleaseLease(resourceKey: string, ownerId: string, ghost now: int) returns (released: bool)
      modifies this
      ensures var s, call := old(View()), Release(resourceKey, ownerId, now);
              View() == Step(s, call) && released == IsReleased(s, call)
    {
      if resourceKey !in locks || locks[resourceKey].ownerId != ownerId {
        return false;
      }
      locks := locks - {resourceKey};
      return true;
    }
  }

  // ---------- runs ----------

  datatype Run = Run(states: seq<State>, calls: seq<Call>) {
    ghost predicate Valid() {
      && |states| == |calls| + 1 && states[0] == INITIAL
      && (forall i {:trigger Step(states[i], calls[i])} | 0 <= i < |calls| :: states[i + 1] == Step(states[i], calls[i]))
      && forall i, j | 0 <= i < j < |calls| :: calls[i].now <= calls[j].now
    }

    ghost predicate GrantedAt(i: nat, key: string)
      requires Valid() && i < |calls|
    {
      calls[i].key == key && IsGranted(states[i], calls[i])
    }

    /** The lease that call `i` is granted. */
    ghost function Granted(i: nat): Lease
      requires Valid() && i < |calls| && IsGranted(states[i], calls[i])
    {
      LeaseOf(states[i], calls[i])
    }

    /** The owner of the lease granted by call `i` has given it back by one of the calls before `n`. */
    ghost predicate ReleasedBefore(i: nat, n: nat)
      requires Valid() && i < n <= |calls|
    {
      exists r :: i < r < n && calls[r].key == calls[i].key && calls[r].owner == calls[i].owner && IsReleased(states[r], calls[r])
    }

    ghost predicate GrantedBetween(i: nat, n: nat, key: string)
      requires Valid() && n <= |calls|
    {
      exists g :: i < g < n && GrantedAt(g, key)
    }

    /** At the time of call `n`, the grant of call `i` has neither expired nor been given back. */
    ghost predicate Live(i: nat, n: nat)
      requires Valid() && i < n < |calls|
    {
      IsGranted(states[i], calls[i]) && Granted(i).expiresAt > calls[n].now && !ReleasedBefore(i, n)
    }
  }

  // ---------- fencing tokens ----------

  ghost function Grants(run: Run, i: nat): nat
    requires run.Valid() && i <= |run.calls|
  {
    if i == 0 then 0 else Grants(run, i - 1) + if IsGranted(run.states[i - 1], run.calls[i - 1]) then 1 else 0
  }

  /** The sequence counts the grants. */
  lemma {:induction false} SequenceCountsGrants(run: Run, i: nat)
    requires run.Valid() && i <= |run.calls|
    ensures run.states[i].globalFencingSequence == 1000 + Grants(run, i)
    decreases i
  {
    if i > 0 {
      SequenceCountsGrants(run, i - 1);
      assert run.states[i] == Step(run.states[i - 1], run.calls[i - 1]);
    }
  }

  lemma {:induction false} GrantsGrow(run: Run, i: nat, j: nat)
    requires run.Valid() && i <= j <= |run.calls|
    ensures Grants(run, i) <= Grants(run, j)
    decreases j
  {
    if i < j {
      GrantsGrow(run, i, j - 1);
    }
  }

  /** Later grants carry larger tokens, whatever the resources are. */
  lemma TokensIncrease(run: Run, i: nat, j: nat)
    requires run.Valid() && i < j < |run.calls|
    requires IsGranted(run.states[i], run.calls[i]) && IsGranted(run.states[j], run.calls[j])
    ensures run.Granted(i).fencingToken < run.Granted(j).fencingToken
  {
    SequenceCountsGrants(run, i);
    SequenceCountsGrants(run, j);
    GrantsGrow(run, i + 1, j);
  }

  // ---------- what is stored ----------

  /** The stored lease of a resource is its latest grant, unless that has been given back. */
  lemma {:induction false} StoredIsLatestGrant(run: Run, i: nat, n: nat)
    requires run.Valid() && i < n <= |run.calls| && IsGranted(run.states[i], run.calls[i])
    requires !run.GrantedBetween(i, n, run.calls[i].key)
    ensures var key, locks := run.calls[i].key, run.states[n].locks;
            if run.ReleasedBefore(i, n) then key !in locks else key in locks && locks[key] == run.Granted(i)
    decreases n
  {
    var call := run.calls[n - 1];
    assert run.states[n] == Step(run.states[n - 1], call);
    if i < n - 1 {
      StoredIsLatestGrant(run, i, n - 1);
      assert !run.GrantedAt(n - 1, run.calls[i].key);
    }
  }

  /** A resource goes from one owner to another only when the lease has expired or been given back. */
  lemma HandOver(run: Run, i: nat, j: nat)
    requires run.Valid() && i < j < |run.calls|
    requires IsGranted(run.states[i], run.calls[i]) && run.GrantedAt(j, run.calls[i].key)
    requires !run.GrantedBetween(i, j, run.calls[i].key)
    requires run.calls[i].owner != run.calls[j].owner
    ensures run.Granted(i).expiresAt <= run.calls[j].now || run.ReleasedBefore(i, j)
  {
    StoredIsLatestGrant(run, i, j);
  }

  /** While the latest grant of a resource is live, exactly its owner can acquire the resource. */
  lemma LatestGrantExcludes(run: Run, i: nat, n: nat)
    requires run.Valid() && i < n < |run.calls| && run.Live(i, n)
    requires !run.GrantedBetween(i, n, run.calls[i].key)
    requires run.calls[n].Acquire? && run.calls[n].key == run.calls[i].key
    ensures IsGranted(run.states[n], run.calls[n]) <==> run.calls[n].owner == run.calls[i].owner
  {
    StoredIsLatestGrant(run, i, n);
  }

  /** An owner whose resource was granted to somebody else since cannot take it away by releasing. */
  lemma DisplacedReleaseChangesNothing(run: Run, i: nat, n: nat)
    requires run.Valid() && i < n < |run.calls| && IsGranted(run.states[i], run.calls[i])
    requires !run.GrantedBetween(i, n, run.calls[i].key)
    requires run.calls[n].Release? && run.calls[n].key == run.calls[i].key && run.calls[n].owner != run.calls[i].owner
    ensures !IsReleased(run.states[n], run.calls[n]) && run.states[n + 1] == run.states[n]
  {
    StoredIsLatestGrant(run, i, n);
    assert run.states[n + 1] == Step(run.states[n], run.calls[n]);
  }

  // ---------- where a stored lease comes from ----------

  /** A stored lease was granted by some call, and its owner has not given it back since. */
  lemma {:induction false} StoredComesFromGrant(run: Run, n: nat, key: string) returns (i: nat)
    requires run.Valid() && n <= |run.calls| && key in run.states[n].locks
    ensures i < n && run.GrantedAt(i, key) && run.Granted(i) == run.states[n].locks[key] && !run.ReleasedBefore(i, n)
    ensures !run.GrantedBetween(i, n, key)
    decreases n
  {
    var s, call := run.states[n - 1], run.calls[n - 1];
    assert run.states[n] == Step(s, call);
    if call.key == key && IsGranted(s, call) {
      i := n - 1;
    } else {
      i := StoredComesFromGrant(run, n - 1, key);
    }
  }

  // ---------- exactly which calls succeed ----------

  /** A grant gives the resource to the caller, from the call on and for the duration, under the next token. */
  lemma GrantSays(run: Run, i: nat)
    requires run.Valid() && i < |run.calls| && IsGranted(run.states[i], run.calls[i])
    ensures var lease, call := run.Granted(i), run.calls[i];
            && lease.resourceKey == call.key && lease.ownerId == call.owner && lease.fencingToken == 1000 + Grants(run, i + 1)
            && lease.grantedAt == call.now && lease.expiresAt == call.now + call.duration
  {
    SequenceCountsGrants(run, i);
  }

  /** Call `i` has got the latest grant of its resource before call `n`, and its owner has not asked to release it. */
  ghost predicate IsHeldBy(run: Run, i: nat, n: nat)
    requires run.Valid() && n <= |run.calls|
  {
    && i < n && IsGranted(run.states[i], run.calls[i]) && !run.GrantedBetween(i, n, run.calls[i].key)
    && forall r | i < r < n && run.calls[r].key == run.calls[i].key && run.calls[r].owner == run.calls[i].owner ::
         !run.calls[r].Release?
  }

  /** Without a grant in between, the first release that the owner asks for succeeds. */
  lemma {:induction false} HeldUntilRelease(run: Run, i: nat, n: nat)
    requires run.Valid() && i < n <= |run.calls| && IsGranted(run.states[i], run.calls[i])
    requires !run.GrantedBetween(i, n, run.calls[i].key)
    ensures run.ReleasedBefore(i, n) <==> !IsHeldBy(run, i, n)
    decreases n
  {
    if i + 1 < n {
      var call := run.calls[n - 1];
      assert !run.GrantedAt(n - 1, run.calls[i].key);
      HeldUntilRelease(run, i, n - 1);
      StoredIsLatestGrant(run, i, n - 1);
      if call.Release? && call.key == run.calls[i].key && call.owner == run.calls[i].owner && !run.ReleasedBefore(i, n - 1) {
        assert IsReleased(run.states[n - 1], call);
      }
    }
  }

  /** An acquisition is refused exactly while somebody else holds the resource under a lease that has not expired. */
  lemma RefusedIffHeldByAnother(run: Run, n: nat)
    requires run.Valid() && n < |run.calls| && run.calls[n].Acquire?
    ensures !IsGranted(run.states[n], run.calls[n]) <==>
            exists i :: && 0 <= i < n && run.calls[i].key == run.calls[n].key && IsHeldBy(run, i, n)
                        && run.calls[i].owner != run.calls[n].owner && run.calls[i].now + run.calls[i].duration > run.calls[n].now
  {
    if !IsGranted(run.states[n], run.calls[n]) {
      var i := StoredComesFromGrant(run, n, run.calls[n].key);
      HeldUntilRelease(run, i, n);
    }
    forall i | 0 <= i < n && run.calls[i].key == run.calls[n].key && IsHeldBy(run, i, n)
      ensures run.calls[n].key in run.states[n].locks && run.states[n].locks[run.calls[n].key] == run.Granted(i)
    {
      HeldUntilRelease(run, i, n);
      StoredIsLatestGrant(run, i, n);
    }
  }

  /** A release succeeds exactly for the owner who holds the resource, expired or not. */
  lemma ReleasedIffHeld(run: Run, n: nat)
    requires run.Valid() && n < |run.calls| && run.calls[n].Release?
    ensures IsReleased(run.states[n], run.calls[n]) <==>
            exists i :: && 0 <= i < n && run.calls[i].key == run.calls[n].key && IsHeldBy(run, i, n)
                        && run.calls[i].owner == run.calls[n].owner
  {
    if IsReleased(run.states[n], run.calls[n]) {
      var i := StoredComesFromGrant(run, n, run.calls[n].key);
      HeldUntilRelease(run, i, n);
    }
    forall i | 0 <= i < n && run.calls[i].key == run.calls[n].key && IsHeldBy(run, i, n)
      ensures run.calls[n].key in run.states[n].locks && run.states[n].locks[run.calls[n].key] == run.Granted(i)
    {
      HeldUntilRelease(run, i, n);
      StoredIsLatestGrant(run, i, n);
    }
  }

  // ---------- mutual exclusion ----------

  /** The call renews a lease of its own owner that has not expired, for less time than is left of it. */
  predicate Shortens(s: State, call: Call) {
    && call.Acquire? && call.key in s.locks && s.locks[call.key].ownerId == call.owner
    && call.now < s.locks[call.key].expiresAt && call.now + call.duration < s.locks[call.key].expiresAt
  }

  /** From call `k` on, no call shortens a lease of the resource. */
  ghost predicate NoneShortens(run: Run, key: string, k: nat)
    requires run.Valid()
  {
    forall g | k <= g < |run.calls| && run.calls[g].key == key :: !Shortens(run.states[g], run.calls[g])
  }

  /** At no time are there live grants of the resource to two owners. */
  ghost predicate Exclusive(run: Run, key: string)
    requires run.Valid()
  {
    forall i, j, n | && 0 <= i < n < |run.calls| && 0 <= j < n && run.calls[i].key == key && run.calls[j].key == key
                     && run.Live(i, n) && run.Live(j, n) ::
      run.calls[i].owner == run.calls[j].owner
  }

  /** A live grant is the stored one, or was renewed by it. */
  lemma {:induction false} LiveGrantIsStored(run: Run, i: nat, n: nat)
    requires run.Valid() && i < n < |run.calls| && run.Live(i, n)
    requires NoneShortens(run, run.calls[i].key, 0)
    ensures var key := run.calls[i].key;
            && key in run.states[n].locks
            && run.states[n].locks[key].ownerId == run.calls[i].owner
            && run.states[n].locks[key].expiresAt >= run.Granted(i).expiresAt
    decreases n
  {
    var s, call := run.states[n - 1], run.calls[n - 1];
    assert run.states[n] == Step(s, call);
    if i < n - 1 {
      assert run.Live(i, n - 1);
      LiveGrantIsStored(run, i, n - 1);
    }
  }

  /** Without shortening renewals, all live grants of a resource belong to one owner. */
  lemma MutualExclusion(run: Run, key: string)
    requires run.Valid() && NoneShortens(run, key, 0)
    ensures Exclusive(run, key)
  {
    forall i, j, n | && 0 <= i < n < |run.calls| && 0 <= j < n && run.calls[i].key == key && run.calls[j].key == key
                     && run.Live(i, n) && run.Live(j, n)
      ensures run.calls[i].owner == run.calls[j].owner
    {
      LiveGrantIsStored(run, i, n);
      LiveGrantIsStored(run, j, n);
    }
  }

  // ---------- what a shortening renewal does ----------

  /** The run goes on, or ends, as it likes after the first `k` calls of the other. */
  ghost predicate Continues(run: Run, other: Run, k: nat) {
    run.Valid() && other.Valid() && k <= |run.calls| && k <= |other.calls| && run.calls[..k] == other.calls[..k]
  }

  lemma RunPrefix(run: Run, k: nat) returns (r: Run)
    requires run.Valid() && k <= |run.calls|
    ensures r.Valid() && r.calls == run.calls[..k] && r.states == run.states[..k + 1]
  {
    r := Run(run.states[..k + 1], run.calls[..k]);
    forall i | 0 <= i < k ensures r.states[i + 1] == Step(r.states[i], r.calls[i]) {
      assert run.states[i + 1] == Step(run.states[i], run.calls[i]);
    }
  }

  lemma OneMoreCall(run: Run, call: Call) returns (r: Run)
    requires run.Valid() && forall i | 0 <= i < |run.calls| :: run.calls[i].now <= call.now
    ensures r.Valid() && r.calls == run.calls + [call]
    ensures r.states == run.states + [Step(run.states[|run.calls|], call)]
  {
    r := Run(run.states + [Step(run.states[|run.calls|], call)], run.calls + [call]);
    forall i | 0 <= i < |r.calls| ensures r.states[i + 1] == Step(r.states[i], r.calls[i]) {
      if i < |run.calls| {
        assert run.states[i + 1] == Step(run.states[i], run.calls[i]);
      }
    }
  }

  lemma {:induction false} SameCallsSameStates(run: Run, other: Run, k: nat, n: nat)
    requires Continues(run, other, k) && n <= k
    ensures run.states[n] == other.states[n]
    decreases n
  {
    if n > 0 {
      SameCallsSameStates(run, other, k, n - 1);
      assert run.calls[n - 1] == run.calls[..k][n - 1] == other.calls[..k][n - 1];
      assert run.states[n] == Step(run.states[n - 1], run.calls[n - 1]);
      assert other.states[n] == Step(other.states[n - 1], other.calls[n - 1]);
    }
  }

  function Max(a: int, b: int): int {
    if a < b then b else a
  }

  /**
   Once a renewal has shortened a lease, somebody else can acquire the resource while the grant that was
   renewed is still live: two more calls show it, and neither of them shortens anything.
   */
  lemma ShorteningAdmitsTwo(run: Run, g: nat) returns (r: Run, i: nat)
    requires run.Valid() && g < |run.calls| && Shortens(run.states[g], run.calls[g])
    ensures Continues(r, run, g + 1) && |r.calls| == g + 3 && NoneShortens(r, run.calls[g].key, g + 1)
    ensures i < g && r.calls[i].key == r.calls[g + 1].key == run.calls[g].key
    ensures r.Live(i, g + 2) && r.Live(g + 1, g + 2) && r.calls[i].owner != r.calls[g + 1].owner
  {
    var call, s := run.calls[g], run.states[g];
    var key, now := call.key, Max(call.now, call.now + call.duration);
    var rival := call.owner + "'";
    assert |rival| == |call.owner| + 1;
    i := StoredComesFromGrant(run, g, key);
    r := RunPrefix(run, g + 1);
    r := OneMoreCall(r, Acquire(key, rival, now, 1));
    r := OneMoreCall(r, Release(key, rival, now));
    assert run.states[g + 1] == Step(s, call);
    assert r.calls[..g + 1] == run.calls[..g + 1];
    assert r.states[g + 1] == run.states[g + 1] && r.calls[g + 1] == Acquire(key, rival, now, 1);
    assert IsGranted(r.states[g + 1], r.calls[g + 1]);
    UnreleasedBeyond(run, r, g, i);
  }

  /** A grant that is unreleased before a renewal of its resource and an acquisition is so after them. */
  lemma UnreleasedBeyond(run: Run, r: Run, g: nat, i: nat)
    requires Continues(r, run, g + 1) && i < g && g + 2 < |r.calls|
    requires IsGranted(run.states[i], run.calls[i]) && !run.ReleasedBefore(i, g)
    requires r.calls[g].Acquire? && r.calls[g + 1].Acquire?
    ensures IsGranted(r.states[i], r.calls[i]) && r.Granted(i) == run.Granted(i) && !r.ReleasedBefore(i, g + 2)
  {
    SameCallsSameStates(r, run, g + 1, i);
    assert r.calls[i] == r.calls[..g + 1][i] == run.calls[..g + 1][i];
    forall q | i < q < g + 2 && r.calls[q].key == r.calls[i].key && r.calls[q].owner == r.calls[i].owner
      ensures !IsReleased(r.states[q], r.calls[q])
    {
      if q < g {
        SameCallsSameStates(r, run, g + 1, q);
        assert r.calls[q] == r.calls[..g + 1][q] == run.calls[..g + 1][q];
      }
    }
  }

  /**
   Which calls endanger a resource: the runs that start as this one does, and after that do not shorten its
   leases, all keep it exclusive, exactly when no call of this run shortens a lease of it.
   */
  lemma ExclusiveIffNoneShortens(run: Run, key: string)
    requires run.Valid()
    ensures NoneShortens(run, key, 0) <==>
            forall r, k | Continues(r, run, k) && NoneShortens(r, key, k) :: Exclusive(r, key)
  {
    if NoneShortens(run, key, 0) {
      forall r, k | Continues(r, run, k) && NoneShortens(r, key, k) ensures Exclusive(r, key) {
        SharedCallsShortenNone(run, r, key, k);
        MutualExclusion(r, key);
      }
    } else {
      var g :| 0 <= g < |run.calls| && run.calls[g].key == key && Shortens(run.states[g], run.calls[g]);
      var r, i := ShorteningAdmitsTwo(run, g);
      assert Continues(r, run, g + 1) && NoneShortens(r, key, g + 1) && !Exclusive(r, key);
    }
  }

  lemma SharedCallsShortenNone(run: Run, r: Run, key: string, k: nat)
    requires Continues(r, run, k) && NoneShortens(run, key, 0) && NoneShortens(r, key, k)
    ensures NoneShortens(r, key, 0)
  {
    forall g | 0 <= g < k && r.calls[g].key == key ensures !Shortens(r.states[g], r.calls[g]) {
      SameCallsSameStates(r, run, k, g);
      assert r.calls[g] == r.calls[..k][g] == run.calls[..k][g];
    }
  }

  // ---------- one duration ----------

  ghost predicate FixedDuration(run: Run, key: string, duration: int) {
    forall i | 0 <= i < |run.calls| && run.calls[i].Acquire? && run.calls[i].key == key :: run.calls[i].duration == duration
  }

  lemma FixedDurationShortensNone(run: Run, key: string, duration: int)
    requires run.Valid() && FixedDuration(run, key, duration)
    ensures NoneShortens(run, key, 0)
  {
    forall g | 0 <= g < |run.calls| && run.calls[g].key == key ensures !Shortens(run.states[g], run.calls[g]) {
      if key in run.states[g].locks {
        var i := StoredComesFromGrant(run, g, key);
      }
    }
  }

  /** With one duration for all leases of a resource it is exclusive. */
  lemma MutualExclusionWithFixedDuration(run: Run, key: string, duration: int)
    requires run.Valid() && FixedDuration(run, key, duration)
    ensures Exclusive(run, key)
  {
    FixedDurationShortensNone(run, key, duration);
    MutualExclusion(run, key);
  }

  /** A short run in which a shortening renewal lets two owners hold live grants. */
  lemma ShorteningBreaksMutualExclusion() returns (run: Run)
    ensures run.Valid() && |run.calls| == 4
    ensures run.calls[0].key == run.calls[2].key && run.calls[0].owner != run.calls[2].owner
    ensures run.Live(0, 3) && run.Live(2, 3)
  {
    var calls := [Acquire("r", "a", 0, 5000), Acquire("r", "a", 10, 10), Acquire("r", "b", 30, 5000), Release("q", "b", 40)];
    var s1 := Step(INITIAL, calls[0]);
    var s2 := Step(s1, calls[1]);
    var s3 := Step(s2, calls[2]);
    run := Run([INITIAL, s1, s2, s3, Step(s3, calls[3])], calls);
  }
}
