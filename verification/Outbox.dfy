/**
 The transactional outbox of FinancialLedgerTransactionEventOutboxHandler.ts: messages wait in a queue, a
 flush hands them to the subscribers of their event type, and a message that fails five times is set aside.

 What a subscriber does with a message is an oracle: `handle(message, position, attempt)` is the error thrown
 by the subscriber at `position` when the message at index `message` of the queue is delivered for the
 `attempt`-th time, if it throws. No such triple is delivered twice (`DeliveriesDiffer`), so the oracle can
 stand for any behaviour of the subscribers.
 */
module Outbox {

  import opened Options

  datatype Event = Event(eventType: string, tenantId: string, payload: string)

  datatype Status = PENDING | PUBLISHED | DEAD_LETTER

  /**
   What a subscriber throws: an error with a message; one without, which is recorded under a fixed text; or
   `Nothing`, that is null or undefined, of which not even a message can be read.
   */
  datatype Reason = Reason(text: string) | Unexplained | Nothing

  /** What is to be delivered, and where. */
  datatype Envelope = Envelope(topic: string, partitionKey: string, event: Event)

  datatype Message = Message(envelope: Envelope, status: Status, retryCount: nat, errorMessage: Option<Reason>)

  datatype Delivery = Delivery(message: nat, position: nat, attempt: nat)

  type Oracle = (nat, nat, nat) -> Option<Reason>

  datatype State = State(queue: seq<Message>, subscribers: map<string, seq<string>>, log: seq<Delivery>)

  const MAX_RETRIES: nat := 5

  /** Attempts are numbered from 0. */
  const LAST_ATTEMPT: nat := MAX_RETRIES - 1

  // ---------- one delivery ----------

  /**
   What is left of a message after an attempt that ends with the given error, or well. With `Nothing` the retry
   is counted, but then the handling of the error itself throws.
   */
  function Attempted(m: Message, outcome: Option<Reason>): Message {
    match outcome
    case None => m.(status := PUBLISHED)
    case Some(Nothing) => m.(retryCount := m.retryCount + 1)
    case Some(error) =>
      m.(retryCount := m.retryCount + 1,
         errorMessage := Some(error),
         status := if m.retryCount + 1 >= MAX_RETRIES then DEAD_LETTER else m.status)
  }

  /** The first error of the subscribers from `position` on; the ones behind it are not called. */
  function Outcome(count: nat, message: nat, attempt: nat, handle: Oracle, position: nat): Option<Reason>
    requires position <= count
    decreases count - position
  {
    if position == count then None
    else if handle(message, position, attempt).Some? then handle(message, position, attempt)
    else Outcome(count, message, attempt, handle, position + 1)
  }

  function Deliveries(count: nat, message: nat, attempt: nat, handle: Oracle, position: nat): seq<Delivery>
    requires position <= count
    decreases count - position
  {
    if position == count then []
    else
      [Delivery(message, position, attempt)] +
      if handle(message, position, attempt).Some? then [] else Deliveries(count, message, attempt, handle, position + 1)
  }

  /** One more delivery, after those that have been made. */
  lemma NextDelivery(made: seq<Delivery>, count: nat, message: nat, attempt: nat, handle: Oracle, position: nat)
    requires position < count
    ensures var outcome, rest := handle(message, position, attempt), Deliveries(count, message, attempt, handle, position);
            if outcome.Some?
            then
              && Outcome(count, message, attempt, handle, position) == outcome
              && made + rest == made + [Delivery(message, position, attempt)]
            else
              && Outcome(count, message, attempt, handle, position) == Outcome(count, message, attempt, handle, position + 1)
              && made + rest == made + [Delivery(message, position, attempt)] +
                                Deliveries(count, message, attempt, handle, position + 1)
  {
  }

  function HandlersOf(subscribers: map<string, seq<string>>, eventType: string): seq<string> {
    if eventType in subscribers then subscribers[eventType] else []
  }

  function SubscriberCount(s: State, m: Message): nat {
    |HandlersOf(s.subscribers, m.envelope.event.eventType)|
  }

  // ---------- which messages are pending ----------

  function CountOf(status: Status, q: seq<Message>): nat {
    if q == [] then 0 else CountOf(status, q[..|q| - 1]) + if q[|q| - 1].status == status then 1 else 0
  }

  /** The index of the message of that status that has `k` messages of that status before it. */
  function Nth(status: Status, q: seq<Message>, k: nat): (i: nat)
    requires k < CountOf(status, q)
    ensures i < |q| && q[i].status == status && CountOf(status, q[..i]) == k
  {
    var n := |q| - 1;
    if k < CountOf(status, q[..n]) then
      var i := Nth(status, q[..n], k);
      assert q[..n][..i] == q[..i];
      i
    else n
  }

  /** How many elements the first `batchSize` of `n` are: a negative batch size counts from the end. */
  function BatchOf(batchSize: int, n: nat): (k: nat)
    ensures k <= n
    ensures 0 <= batchSize ==> k <= batchSize && (k == batchSize || k == n)
    ensures batchSize < 0 ==> k - batchSize >= n && (k - batchSize == n || k == 0)
  {
    if batchSize >= 0 then if batchSize < n then batchSize else n
    else if n + batchSize > 0 then n + batchSize else 0
  }

  // ---------- one flush ----------

  function OutcomeOf(s: State, i: nat, handle: Oracle): Option<Reason>
    requires i < |s.queue|
  {
    Outcome(SubscriberCount(s, s.queue[i]), i, s.queue[i].retryCount, handle, 0)
  }

  /** One attempt at the message at index `i`. */
  function AttemptAt(s: State, i: nat, handle: Oracle): State
    requires i < |s.queue|
  {
    var m := s.queue[i];
    s.(queue := s.queue[i := Attempted(m, OutcomeOf(s, i, handle))],
       log := s.log + Deliveries(SubscriberCount(s, m), i, m.retryCount, handle, 0))
  }

  /** The state when the first `k` pending messages have been attempted. */
  function Flushed(s: State, handle: Oracle, k: nat): (r: State)
    requires k <= CountOf(PENDING, s.queue)
    ensures |r.queue| == |s.queue| && r.subscribers == s.subscribers
  {
    if k == 0 then s else AttemptAt(Flushed(s, handle, k - 1), Nth(PENDING, s.queue, k - 1), handle)
  }

  /** The attempt at message `i` throws out of the flush. */
  predicate Breaks(s: State, i: nat, handle: Oracle) {
    i < |s.queue| && OutcomeOf(s, i, handle) == Some(Nothing)
  }

  /** The pending message with `l` pending ones before it breaks the flush. */
  predicate BreaksAt(s: State, l: nat, handle: Oracle) {
    l < CountOf(PENDING, s.queue) && Breaks(s, Nth(PENDING, s.queue, l), handle)
  }

  /** How many of the first `k` pending messages a flush gets to: none behind the first that breaks it. */
  function Taken(s: State, handle: Oracle, k: nat): (n: nat)
    requires k <= CountOf(PENDING, s.queue)
    ensures n <= k
    ensures forall l | 0 <= l < n - 1 :: !BreaksAt(s, l, handle)
    ensures n < k ==> n > 0 && BreaksAt(s, n - 1, handle)
  {
    if k == 0 then 0
    else
      var n := Taken(s, handle, k - 1);
      if n < k - 1 || (n > 0 && BreaksAt(s, n - 1, handle)) then n else k
  }

  /** How many messages a flush attempts. */
  function TakenBy(s: State, batchSize: int, handle: Oracle): (n: nat)
    ensures n <= BatchOf(batchSize, CountOf(PENDING, s.queue))
  {
    Taken(s, handle, BatchOf(batchSize, CountOf(PENDING, s.queue)))
  }

  /** A message that breaks the flush is the last that it attempts. */
  predicate IsBroken(s: State, handle: Oracle, k: nat)
    requires k <= CountOf(PENDING, s.queue)
  {
    var n := Taken(s, handle, k);
    n > 0 && BreaksAt(s, n - 1, handle)
  }

  lemma UnbrokenBatch(s: State, handle: Oracle, k: nat)
    requires k <= CountOf(PENDING, s.queue) && Taken(s, handle, k) == k && (k > 0 ==> !BreaksAt(s, k - 1, handle))
    ensures !IsBroken(s, handle, k)
  {
  }

  predicate Throws(s: State, batchSize: int, handle: Oracle) {
    IsBroken(s, handle, BatchOf(batchSize, CountOf(PENDING, s.queue)))
  }

  /** The states of a flush, from the one in which it begins. */
  datatype Flush = Flush(states: seq<State>, handle: Oracle) {
    ghost predicate Valid() {
      && states != [] && |states| - 1 <= CountOf(PENDING, states[0].queue)
      && (forall k | 0 <= k < |states| ::
            |states[k].queue| == |states[0].queue| && states[k].subscribers == states[0].subscribers)
      && forall k {:trigger AttemptAt(states[k], Nth(PENDING, states[0].queue, k), handle)} | 0 <= k < |states| - 1 ::
           states[k + 1] == AttemptAt(states[k], Nth(PENDING, states[0].queue, k), handle)
    }
  }

  lemma OneMoreState(f: Flush) returns (g: Flush)
    requires f.Valid() && |f.states| - 1 < CountOf(PENDING, f.states[0].queue)
    ensures var n := |f.states| - 1;
            && g == Flush(f.states + [AttemptAt(f.states[n], Nth(PENDING, f.states[0].queue, n), f.handle)], f.handle)
            && g.Valid()
  {
    var n, q := |f.states| - 1, f.states[0].queue;
    var last := AttemptAt(f.states[n], Nth(PENDING, q, n), f.handle);
    assert |last.queue| == |q| && last.subscribers == f.states[0].subscribers;
    g := Flush(f.states + [last], f.handle);
    forall k | 0 <= k < n + 1 ensures g.states[k + 1] == AttemptAt(g.states[k], Nth(PENDING, q, k), g.handle) {
      if k < n {
        assert f.states[k + 1] == AttemptAt(f.states[k], Nth(PENDING, q, k), f.handle);
      }
    }
  }

  lemma {:induction false} StatesAreFlushed(f: Flush, k: nat)
    requires f.Valid() && k < |f.states|
    ensures f.states[k] == Flushed(f.states[0], f.handle, k)
    decreases k
  {
    if k > 0 {
      StatesAreFlushed(f, k - 1);
      assert f.states[k] == AttemptAt(f.states[k - 1], Nth(PENDING, f.states[0].queue, k - 1), f.handle);
    }
  }

  lemma {:induction false} FlushExists(s: State, handle: Oracle, n: nat) returns (f: Flush)
    requires n <= CountOf(PENDING, s.queue)
    ensures f.Valid() && f.handle == handle && |f.states| == n + 1 && f.states[0] == s
  {
    if n == 0 {
      f := Flush([s], handle);
    } else {
      f := FlushExists(s, handle, n - 1);
      f := OneMoreState(f);
    }
  }

  lemma StatesOf(s: State, handle: Oracle, n: nat) returns (f: Flush)
    requires n <= CountOf(PENDING, s.queue)
    ensures f.Valid() && f.handle == handle && |f.states| == n + 1 && f.states[0] == s && f.states[n] == Flushed(s, handle, n)
  {
    f := FlushExists(s, handle, n);
    StatesAreFlushed(f, n);
  }

  // ---------- the operations ----------

  datatype Operation =
    | QueueEvent(topic: string, event: Event)
    | Subscribe(eventType: string, handler: string)
    | FlushOutbox(batchSize: int)

  function NewMessage(topic: string, event: Event): Message {
    Message(Envelope(topic, event.tenantId, event), PENDING, 0, None)
  }

  function Step(s: State, op: Operation, handle: Oracle): State {
    match op
    case QueueEvent(topic, event) => s.(queue := s.queue + [NewMessage(topic, event)])
    case Subscribe(eventType, handler) =>
      s.(subscribers := s.subscribers[eventType := HandlersOf(s.subscribers, eventType) + [handler]])
    case FlushOutbox(batchSize) => Flushed(s, handle, TakenBy(s, batchSize, handle))
  }

  lemma FlushOf(s: State, batchSize: int, handle: Oracle, batch: nat) returns (f: Flush)
    requires batch == BatchOf(batchSize, CountOf(PENDING, s.queue))
    ensures f.Valid() && f.handle == handle && f.states[0] == s && |f.states| - 1 == Taken(s, handle, batch)
    ensures f.states[|f.states| - 1] == Step(s, FlushOutbox(batchSize), handle)
    ensures IsBroken(s, handle, batch) <==> Throws(s, batchSize, handle)
  {
    f := StatesOf(s, handle, Taken(s, handle, batch));
  }

  // ---------- which messages a flush touches ----------

  lemma {:induction false} CountOfPrefix(status: Status, q: seq<Message>, i: nat, j: nat)
    requires i <= j <= |q|
    ensures CountOf(status, q[..i]) <= CountOf(status, q[..j])
    ensures i < j && q[i].status == status ==> CountOf(status, q[..i]) < CountOf(status, q[..j])
    decreases j
  {
    if i < j {
      assert q[..j][..j - 1] == q[..j - 1];
      CountOfPrefix(status, q, i, j - 1);
    }
  }

  lemma NthIsUnique(q: seq<Message>, i: nat)
    requires i < |q| && q[i].status == PENDING
    ensures CountOf(PENDING, q[..i]) < CountOf(PENDING, q)
    ensures Nth(PENDING, q, CountOf(PENDING, q[..i])) == i
  {
    assert q[..|q|] == q;
    CountOfPrefix(PENDING, q, i, |q|);
    var k := CountOf(PENDING, q[..i]);
    var j := Nth(PENDING, q, k);
    if i < j {
      CountOfPrefix(PENDING, q, i, j);
    } else if j < i {
      CountOfPrefix(PENDING, q, j, i);
    }
  }

  ghost predicate IsAttempted(q: seq<Message>, k: nat, message: nat) {
    message < |q| && q[message].status == PENDING && CountOf(PENDING, q[..message]) < k
  }

  lemma {:induction false} Skipped(f: Flush, k: nat, i: nat)
    requires f.Valid() && k < |f.states| && i < |f.states[0].queue| && !IsAttempted(f.states[0].queue, k, i)
    ensures f.states[k].queue[i] == f.states[0].queue[i]
    decreases k
  {
    if k > 0 {
      Skipped(f, k - 1, i);
      var j := Nth(PENDING, f.states[0].queue, k - 1);
      assert f.states[k] == AttemptAt(f.states[k - 1], j, f.handle) && i != j;
    }
  }

  lemma {:induction false} Reached(f: Flush, k: nat, i: nat)
    requires f.Valid() && k < |f.states| && IsAttempted(f.states[0].queue, k, i)
    ensures f.states[k].queue[i] == Attempted(f.states[0].queue[i], OutcomeOf(f.states[0], i, f.handle))
    decreases k
  {
    var s := f.states[0];
    var j := Nth(PENDING, s.queue, k - 1);
    assert f.states[k] == AttemptAt(f.states[k - 1], j, f.handle);
    NthIsUnique(s.queue, i);
    if CountOf(PENDING, s.queue[..i]) < k - 1 {
      Reached(f, k - 1, i);
      assert i != j;
    } else {
      Skipped(f, k - 1, i);
    }
  }

  lemma FlushSkips(s: State, handle: Oracle, k: nat, i: nat)
    requires k <= CountOf(PENDING, s.queue) && i < |s.queue| && !IsAttempted(s.queue, k, i)
    ensures Flushed(s, handle, k).queue[i] == s.queue[i]
  {
    var f := StatesOf(s, handle, k);
    Skipped(f, k, i);
  }

  lemma FlushAttempts(s: State, handle: Oracle, k: nat, i: nat)
    requires k <= CountOf(PENDING, s.queue) && IsAttempted(s.queue, k, i)
    ensures Flushed(s, handle, k).queue[i] == Attempted(s.queue[i], OutcomeOf(s, i, handle))
  {
    var f := StatesOf(s, handle, k);
    Reached(f, k, i);
  }

  /** The first `k` attempts concern the first `k` pending messages, and no others. */
  lemma AttemptedAt(s: State, handle: Oracle, k: nat, i: nat)
    requires k <= CountOf(PENDING, s.queue) && i < |s.queue|
    ensures Flushed(s, handle, k).queue[i] ==
            if IsAttempted(s.queue, k, i) then Attempted(s.queue[i], OutcomeOf(s, i, handle)) else s.queue[i]
  {
    if IsAttempted(s.queue, k, i) {
      FlushAttempts(s, handle, k, i);
    } else {
      FlushSkips(s, handle, k, i);
    }
  }

  /** No pending message in front of message `i` breaks the flush. */
  ghost predicate IsReachable(s: State, i: nat, handle: Oracle) {
    forall j | 0 <= j < i && j < |s.queue| && s.queue[j].status == PENDING :: !Breaks(s, j, handle)
  }

  lemma RanksAscend(q: seq<Message>, j: nat, i: nat)
    requires j < |q| && i < |q| && q[j].status == PENDING && q[i].status == PENDING
    ensures j < i <==> CountOf(PENDING, q[..j]) < CountOf(PENDING, q[..i])
  {
    if j < i {
      CountOfPrefix(PENDING, q, j, i);
    } else {
      CountOfPrefix(PENDING, q, i, j);
    }
  }

  lemma TakenIsReachable(s: State, batchSize: int, handle: Oracle, i: nat)
    requires IsAttempted(s.queue, TakenBy(s, batchSize, handle), i)
    ensures IsReachable(s, i, handle)
  {
    forall j | 0 <= j < i && s.queue[j].status == PENDING ensures !Breaks(s, j, handle) {
      RanksAscend(s.queue, j, i);
      NthIsUnique(s.queue, j);
      assert !BreaksAt(s, CountOf(PENDING, s.queue[..j]), handle);
    }
  }

  lemma ReachableIsTaken(s: State, batchSize: int, handle: Oracle, i: nat)
    requires IsAttempted(s.queue, BatchOf(batchSize, CountOf(PENDING, s.queue)), i) && IsReachable(s, i, handle)
    ensures IsAttempted(s.queue, TakenBy(s, batchSize, handle), i)
  {
    var n := TakenBy(s, batchSize, handle);
    if CountOf(PENDING, s.queue[..i]) >= n {
      RanksAscend(s.queue, Nth(PENDING, s.queue, n - 1), i);
    }
  }

  /** A flush attempts the pending messages of its batch up to the first that breaks it, and no others. */
  lemma FlushedAt(s: State, batchSize: int, handle: Oracle, i: nat)
    requires i < |s.queue|
    ensures var batch := BatchOf(batchSize, CountOf(PENDING, s.queue));
            Step(s, FlushOutbox(batchSize), handle).queue[i] ==
            if s.queue[i].status == PENDING && CountOf(PENDING, s.queue[..i]) < batch && IsReachable(s, i, handle)
            then Attempted(s.queue[i], OutcomeOf(s, i, handle)) else s.queue[i]
  {
    AttemptedAt(s, handle, TakenBy(s, batchSize, handle), i);
    if IsAttempted(s.queue, TakenBy(s, batchSize, handle), i) {
      TakenIsReachable(s, batchSize, handle, i);
    } else if IsAttempted(s.queue, BatchOf(batchSize, CountOf(PENDING, s.queue)), i) && IsReachable(s, i, handle) {
      ReachableIsTaken(s, batchSize, handle, i);
    }
  }

  /** The next attempt of a flush is at a message that is still as it was when the flush began. */
  lemma NextAttempt(f: Flush, k: nat) returns (i: nat, outcome: Option<Reason>)
    requires f.Valid() && k < |f.states| - 1
    ensures i == Nth(PENDING, f.states[0].queue, k) && outcome == OutcomeOf(f.states[k], i, f.handle)
    ensures f.states[k].queue[i] == f.states[0].queue[i] && f.states[0].queue[i].status == PENDING
    ensures f.states[k + 1].queue == f.states[k].queue[i := Attempted(f.states[k].queue[i], outcome)]
  {
    i := Nth(PENDING, f.states[0].queue, k);
    outcome := OutcomeOf(f.states[k], i, f.handle);
    Skipped(f, k, i);
    assert f.states[k + 1] == AttemptAt(f.states[k], i, f.handle);
  }

  /** A flush goes on until a message breaks it, and then takes no other. */
  lemma NextInBatch(f: Flush, batch: nat, k: nat) returns (i: nat, outcome: Option<Reason>)
    requires f.Valid() && k < batch <= CountOf(PENDING, f.states[0].queue)
    requires |f.states| - 1 == Taken(f.states[0], f.handle, batch) >= k
    requires k > 0 ==> !BreaksAt(f.states[0], k - 1, f.handle)
    ensures k < |f.states| - 1 && i == Nth(PENDING, f.states[0].queue, k) && outcome == OutcomeOf(f.states[k], i, f.handle)
    ensures f.states[k + 1] == AttemptAt(f.states[k], i, f.handle)
    ensures Breaks(f.states[k], i, f.handle) <==> BreaksAt(f.states[0], k, f.handle)
    ensures BreaksAt(f.states[0], k, f.handle) ==> |f.states| - 1 == k + 1 && IsBroken(f.states[0], f.handle, batch)
    ensures var before, after := f.states[k].queue, f.states[k + 1].queue;
            && CountOf(PUBLISHED, after) == CountOf(PUBLISHED, before) + (if outcome.Some? then 0 else 1)
            && Retries(after) == Retries(before) + (if outcome.Some? then 1 else 0)
  {
    i, outcome := NextAttempt(f, k);
    AttemptCounts(f.states[k].queue, i, outcome);
    assert f.states[k + 1] == AttemptAt(f.states[k], i, f.handle);
  }

  lemma {:induction false} CountOfUpdate(status: Status, q: seq<Message>, i: nat, m: Message)
    requires i < |q|
    ensures CountOf(status, q[i := m]) ==
            CountOf(status, q) - (if q[i].status == status then 1 else 0) + if m.status == status then 1 else 0
    decreases |q|
  {
    var n := |q| - 1;
    if i < n {
      assert q[i := m][..n] == q[..n][i := m];
      CountOfUpdate(status, q[..n], i, m);
    } else {
      assert q[i := m][..n] == q[..n];
    }
  }

  // ---------- runs ----------

  const EMPTY := State([], map[], [])

  /** The states that a sequence of operations leads through. */
  datatype Run = Run(states: seq<State>, ops: seq<Operation>, handle: Oracle) {
    ghost predicate Valid() {
      && |states| == |ops| + 1 && states[0] == EMPTY
      && forall i {:trigger Step(states[i], ops[i], handle)} | 0 <= i < |ops| :: states[i + 1] == Step(states[i], ops[i], handle)
    }
  }

  lemma {:induction false} RunExists(ops: seq<Operation>, handle: Oracle) returns (run: Run)
    ensures run.Valid() && run.ops == ops && run.handle == handle
  {
    if ops == [] {
      run := Run([EMPTY], ops, handle);
    } else {
      var n := |ops| - 1;
      var front := RunExists(ops[..n], handle);
      run := Run(front.states + [Step(front.states[n], ops[n], handle)], ops, handle);
      forall i | 0 <= i < |ops| ensures run.states[i + 1] == Step(run.states[i], ops[i], handle) {
        if i < n {
          assert front.states[i + 1] == Step(front.states[i], ops[..n][i], handle);
        }
      }
    }
  }

  /** What can become of a message: it keeps its content, and once it is not pending it stays as it is. */
  ghost predicate Advances(before: Message, after: Message) {
    && after.envelope == before.envelope
    && before.retryCount <= after.retryCount
    && (before.status != PENDING ==> after == before)
  }

  lemma AttemptAdvances(m: Message, outcome: Option<Reason>)
    requires m.status == PENDING
    ensures Advances(m, Attempted(m, outcome))
  {
  }

  lemma StepAdvances(s: State, op: Operation, handle: Oracle, m: nat)
    requires m < |s.queue|
    ensures m < |Step(s, op, handle).queue| && Advances(s.queue[m], Step(s, op, handle).queue[m])
  {
    if op.FlushOutbox? {
      AttemptedAt(s, handle, TakenBy(s, op.batchSize, handle), m);
      if s.queue[m].status == PENDING {
        AttemptAdvances(s.queue[m], OutcomeOf(s, m, handle));
      }
    }
  }

  lemma {:induction false} MessagesAdvance(run: Run, i: nat, j: nat, m: nat)
    requires run.Valid() && i <= j <= |run.ops| && m < |run.states[i].queue|
    ensures m < |run.states[j].queue|
    ensures Advances(run.states[i].queue[m], run.states[j].queue[m])
    decreases j
  {
    if i < j {
      MessagesAdvance(run, i, j - 1, m);
      StepAdvances(run.states[j - 1], run.ops[j - 1], run.handle, m);
    }
  }

  ghost function Queued(ops: seq<Operation>, i: nat): nat
    requires i <= |ops|
  {
    if i == 0 then 0 else Queued(ops, i - 1) + if ops[i - 1].QueueEvent? then 1 else 0
  }

  /** The queue holds the events in the order in which they were queued, each under its topic and its tenant. */
  lemma EventsKeepTheirOrder(run: Run, i: nat, k: nat)
    requires run.Valid() && k < i <= |run.ops| && run.ops[k].QueueEvent?
    ensures |run.states[k].queue| == Queued(run.ops, k) < |run.states[i].queue|
    ensures var op := run.ops[k];
            run.states[i].queue[Queued(run.ops, k)].envelope == Envelope(op.topic, op.event.tenantId, op.event)
  {
    QueueGrows(run, k);
    assert run.states[k + 1] == Step(run.states[k], run.ops[k], run.handle);
    MessagesAdvance(run, k + 1, i, Queued(run.ops, k));
  }

  lemma {:induction false} QueueGrows(run: Run, i: nat)
    requires run.Valid() && i <= |run.ops|
    ensures |run.states[i].queue| == Queued(run.ops, i)
    decreases i
  {
    if i > 0 {
      QueueGrows(run, i - 1);
      assert run.states[i] == Step(run.states[i - 1], run.ops[i - 1], run.handle);
    }
  }

  /** The handlers that have subscribed to an event type before operation `i`, in order. */
  function Subscribed(ops: seq<Operation>, eventType: string, i: nat): seq<string>
    requires i <= |ops|
  {
    if i == 0 then []
    else
      Subscribed(ops, eventType, i - 1) +
      if ops[i - 1].Subscribe? && ops[i - 1].eventType == eventType then [ops[i - 1].handler] else []
  }

  lemma {:induction false} SubscribersKeepTheirOrder(run: Run, i: nat, eventType: string)
    requires run.Valid() && i <= |run.ops|
    ensures HandlersOf(run.states[i].subscribers, eventType) == Subscribed(run.ops, eventType, i)
    decreases i
  {
    if i > 0 {
      SubscribersKeepTheirOrder(run, i - 1, eventType);
      assert run.states[i] == Step(run.states[i - 1], run.ops[i - 1], run.handle);
    }
  }

  lemma {:induction false} StatusesPartition(q: seq<Message>)
    ensures CountOf(PENDING, q) + CountOf(PUBLISHED, q) + CountOf(DEAD_LETTER, q) == |q|
  {
    if q != [] {
      StatusesPartition(q[..|q| - 1]);
    }
  }

  /** No message is lost: every event that was queued is pending, published or given up. */
  lemma {:induction false} EveryEventIsAccountedFor(run: Run, i: nat)
    requires run.Valid() && i <= |run.ops|
    ensures var q := run.states[i].queue;
            CountOf(PENDING, q) + CountOf(PUBLISHED, q) + CountOf(DEAD_LETTER, q) == Queued(run.ops, i)
    decreases i
  {
    StatusesPartition(run.states[i].queue);
    if i > 0 {
      EveryEventIsAccountedFor(run, i - 1);
      StatusesPartition(run.states[i - 1].queue);
      assert run.states[i] == Step(run.states[i - 1], run.ops[i - 1], run.handle);
    }
  }

  // ---------- what a flush counts ----------

  ghost function Retries(q: seq<Message>): nat {
    if q == [] then 0 else Retries(q[..|q| - 1]) + q[|q| - 1].retryCount
  }

  lemma {:induction false} RetriesUpdate(q: seq<Message>, i: nat, m: Message)
    requires i < |q|
    ensures Retries(q[i := m]) == Retries(q) - q[i].retryCount + m.retryCount
    decreases |q|
  {
    var n := |q| - 1;
    if i < n {
      assert q[i := m][..n] == q[..n][i := m];
      RetriesUpdate(q[..n], i, m);
    } else {
      assert q[i := m][..n] == q[..n];
    }
  }

  lemma AttemptCounts(q: seq<Message>, i: nat, outcome: Option<Reason>)
    requires i < |q| && q[i].status == PENDING
    ensures var r := q[i := Attempted(q[i], outcome)];
            && CountOf(PUBLISHED, r) == CountOf(PUBLISHED, q) + (if outcome.Some? then 0 else 1)
            && Retries(r) == Retries(q) + (if outcome.Some? then 1 else 0)
  {
    CountOfUpdate(PUBLISHED, q, i, Attempted(q[i], outcome));
    RetriesUpdate(q, i, Attempted(q[i], outcome));
  }

  /** The messages that the first `k` attempts of a flush publish, and the retries that they record, are `k`. */
  lemma {:induction false} AttemptsCount(f: Flush, k: nat)
    requires f.Valid() && k < |f.states|
    ensures CountOf(PUBLISHED, f.states[k].queue) + Retries(f.states[k].queue) ==
            CountOf(PUBLISHED, f.states[0].queue) + Retries(f.states[0].queue) + k
    decreases k
  {
    if k > 0 {
      AttemptsCount(f, k - 1);
      var i, outcome := NextAttempt(f, k - 1);
      AttemptCounts(f.states[k - 1].queue, i, outcome);
    }
  }

  /**
   Every message that a flush attempts is published or has one more retry recorded, and that is the whole batch
   exactly when no message of the batch but its last breaks the flush.
   */
  lemma FlushCounts(s: State, handle: Oracle, batchSize: int)
    ensures var batch, q := BatchOf(batchSize, CountOf(PENDING, s.queue)), Step(s, FlushOutbox(batchSize), handle).queue;
            var counted := (CountOf(PUBLISHED, q) - CountOf(PUBLISHED, s.queue)) + (Retries(q) - Retries(s.queue));
            && counted == TakenBy(s, batchSize, handle)
            && (counted == batch <==> forall l | 0 <= l < batch - 1 :: !BreaksAt(s, l, handle))
  {
    var n := TakenBy(s, batchSize, handle);
    var f := StatesOf(s, handle, n);
    AttemptsCount(f, n);
  }

  lemma WholeBatchCounts(s: State, handle: Oracle, batchSize: int)
    requires !Throws(s, batchSize, handle)
    ensures var q := Step(s, FlushOutbox(batchSize), handle).queue;
            (CountOf(PUBLISHED, q) - CountOf(PUBLISHED, s.queue)) + (Retries(q) - Retries(s.queue))
            == BatchOf(batchSize, CountOf(PENDING, s.queue))
  {
    FlushCounts(s, handle, batchSize);
  }

  /** A flush throws exactly when a message of its batch breaks it. */
  lemma ThrowsIff(s: State, batchSize: int, handle: Oracle)
    ensures Throws(s, batchSize, handle) <==>
            exists l :: 0 <= l < BatchOf(batchSize, CountOf(PENDING, s.queue)) && BreaksAt(s, l, handle)
  {
  }

  // ---------- what the subscribers see ----------

  /** How often the subscriber at `position` has been given a message. */
  ghost function Times(log: seq<Delivery>, message: nat, position: nat): nat {
    if log == [] then 0
    else
      var d := log[|log| - 1];
      Times(log[..|log| - 1], message, position) + if d.message == message && d.position == position then 1 else 0
  }

  lemma {:induction false} TimesConcat(a: seq<Delivery>, b: seq<Delivery>, message: nat, position: nat)
    ensures Times(a + b, message, position) == Times(a, message, position) + Times(b, message, position)
    decreases |b|
  {
    if b == [] {
      assert a + b == a;
    } else {
      assert (a + b)[..|a + b| - 1] == a + b[..|b| - 1];
      TimesConcat(a, b[..|b| - 1], message, position);
    }
  }

  lemma {:induction false} OneAttemptDeliversOnce(count: nat, i: nat, attempt: nat, handle: Oracle, from: nat,
                                                  message: nat, position: nat)
    requires from <= count
    ensures Times(Deliveries(count, i, attempt, handle, from), message, position) <=
            if message == i && position >= from then 1 else 0
    decreases count - from
  {
    if from < count {
      var first := [Delivery(i, from, attempt)];
      assert first[..0] == [];
      if handle(i, from, attempt).Some? {
        assert first + [] == first;
      } else {
        OneAttemptDeliversOnce(count, i, attempt, handle, from + 1, message, position);
        TimesConcat(first, Deliveries(count, i, attempt, handle, from + 1), message, position);
      }
    }
  }

  lemma {:induction false} AttemptsDeliverOnce(f: Flush, k: nat, message: nat, position: nat)
    requires f.Valid() && k < |f.states|
    ensures Times(f.states[k].log, message, position) <=
            Times(f.states[0].log, message, position) + if IsAttempted(f.states[0].queue, k, message) then 1 else 0
    decreases k
  {
    if k > 0 {
      AttemptsDeliverOnce(f, k - 1, message, position);
      var i, r := Nth(PENDING, f.states[0].queue, k - 1), f.states[k - 1];
      var count, attempt := SubscriberCount(r, r.queue[i]), r.queue[i].retryCount;
      assert f.states[k] == AttemptAt(r, i, f.handle);
      OneAttemptDeliversOnce(count, i, attempt, f.handle, 0, message, position);
      TimesConcat(r.log, Deliveries(count, i, attempt, f.handle, 0), message, position);
    }
  }

  ghost function Attempts(m: Message): nat {
    m.retryCount + if m.status == PUBLISHED then 1 else 0
  }

  ghost predicate DeliveriesBounded(s: State, message: nat, position: nat) {
    Times(s.log, message, position) <= if message < |s.queue| then Attempts(s.queue[message]) else 0
  }

  lemma FlushKeepsDeliveriesBounded(s: State, handle: Oracle, k: nat, message: nat, position: nat)
    requires k <= CountOf(PENDING, s.queue) && DeliveriesBounded(s, message, position)
    ensures DeliveriesBounded(Flushed(s, handle, k), message, position)
  {
    var f := StatesOf(s, handle, k);
    AttemptsDeliverOnce(f, k, message, position);
    if IsAttempted(s.queue, k, message) {
      FlushAttempts(s, handle, k, message);
    } else if message < |s.queue| {
      FlushSkips(s, handle, k, message);
    }
  }

  lemma {:induction false} DeliveriesAreAttempts(run: Run, i: nat, message: nat, position: nat)
    requires run.Valid() && i <= |run.ops|
    ensures DeliveriesBounded(run.states[i], message, position)
    decreases i
  {
    if i > 0 {
      DeliveriesAreAttempts(run, i - 1, message, position);
      var s := run.states[i - 1];
      assert run.states[i] == Step(s, run.ops[i - 1], run.handle);
      if run.ops[i - 1].FlushOutbox? {
        var taken := TakenBy(s, run.ops[i - 1].batchSize, run.handle);
        FlushKeepsDeliveriesBounded(s, run.handle, taken, message, position);
      }
    }
  }

  // ---------- no delivery happens twice ----------

  ghost predicate AllDifferent(log: seq<Delivery>) {
    forall i, j | 0 <= i < j < |log| :: log[i] != log[j]
  }

  /** Every delivery so far belongs to an attempt that has been settled. */
  ghost predicate IsSettled(d: Delivery, q: seq<Message>) {
    d.message < |q| && d.attempt < Attempts(q[d.message])
  }

  ghost predicate CleanLog(s: State) {
    AllDifferent(s.log) && forall d | d in s.log :: IsSettled(d, s.queue)
  }

  /** One attempt goes through the positions in order. */
  lemma {:induction false} DeliveriesAscend(count: nat, i: nat, attempt: nat, handle: Oracle, from: nat, k: nat)
    requires from <= count && k < |Deliveries(count, i, attempt, handle, from)|
    ensures Deliveries(count, i, attempt, handle, from)[k] == Delivery(i, from + k, attempt)
    decreases count - from
  {
    if k > 0 {
      DeliveriesAscend(count, i, attempt, handle, from + 1, k - 1);
    }
  }

  lemma OneAttemptDiffers(count: nat, i: nat, attempt: nat, handle: Oracle)
    ensures AllDifferent(Deliveries(count, i, attempt, handle, 0))
    ensures forall d | d in Deliveries(count, i, attempt, handle, 0) :: d.message == i && d.attempt == attempt
  {
    var made := Deliveries(count, i, attempt, handle, 0);
    forall k | 0 <= k < |made| ensures made[k] == Delivery(i, k, attempt) {
      DeliveriesAscend(count, i, attempt, handle, 0, k);
    }
  }

  lemma AllDifferentConcat(a: seq<Delivery>, b: seq<Delivery>)
    requires AllDifferent(a) && AllDifferent(b) && forall d | d in b :: d !in a
    ensures AllDifferent(a + b)
  {
    forall i, j | 0 <= i < j < |a + b| ensures (a + b)[i] != (a + b)[j] {
      if i < |a| <= j {
        assert b[j - |a|] in b;
      }
    }
  }

  lemma AttemptKeepsLogClean(s: State, i: nat, handle: Oracle)
    requires i < |s.queue| && s.queue[i].status == PENDING && CleanLog(s)
    ensures CleanLog(AttemptAt(s, i, handle))
  {
    var count, attempt := SubscriberCount(s, s.queue[i]), s.queue[i].retryCount;
    var new_ := Deliveries(count, i, attempt, handle, 0);
    OneAttemptDiffers(count, i, attempt, handle);
    assert forall d | d in new_ :: d !in s.log by {
      assert forall d | d in s.log :: IsSettled(d, s.queue);
    }
    AllDifferentConcat(s.log, new_);
    var r := AttemptAt(s, i, handle);
    assert Attempts(r.queue[i]) == attempt + 1;
    forall d | d in r.log ensures IsSettled(d, r.queue) {
      if d in s.log {
        assert IsSettled(d, s.queue);
      }
    }
  }

  lemma {:induction false} AttemptsKeepLogClean(f: Flush, k: nat)
    requires f.Valid() && k < |f.states| && CleanLog(f.states[0])
    ensures CleanLog(f.states[k])
    decreases k
  {
    if k > 0 {
      AttemptsKeepLogClean(f, k - 1);
      var i, outcome := NextAttempt(f, k - 1);
      assert f.states[k] == AttemptAt(f.states[k - 1], i, f.handle);
      AttemptKeepsLogClean(f.states[k - 1], i, f.handle);
    }
  }

  lemma StepKeepsLogClean(s: State, op: Operation, handle: Oracle)
    requires CleanLog(s)
    ensures CleanLog(Step(s, op, handle))
  {
    if op.FlushOutbox? {
      var k := TakenBy(s, op.batchSize, handle);
      var f := StatesOf(s, handle, k);
      AttemptsKeepLogClean(f, k);
    } else {
      forall d | d in s.log ensures IsSettled(d, Step(s, op, handle).queue) {
        assert IsSettled(d, s.queue);
      }
    }
  }

  /** No subscriber is given a message twice for one attempt, so every delivery may have an outcome of its own. */
  lemma {:induction false} DeliveriesDiffer(run: Run, i: nat)
    requires run.Valid() && i <= |run.ops|
    ensures CleanLog(run.states[i])
    decreases i
  {
    if i > 0 {
      DeliveriesDiffer(run, i - 1);
      assert run.states[i] == Step(run.states[i - 1], run.ops[i - 1], run.handle);
      StepKeepsLogClean(run.states[i - 1], run.ops[i - 1], run.handle);
    }
  }

  lemma {:induction false} SuccessIsSeen(count: nat, i: nat, attempt: nat, handle: Oracle, from: nat, p: nat)
    requires from <= p < count && Outcome(count, i, attempt, handle, from).None?
    ensures Delivery(i, p, attempt) in Deliveries(count, i, attempt, handle, from) && handle(i, p, attempt).None?
    decreases count - from
  {
    if from < p {
      SuccessIsSeen(count, i, attempt, handle, from + 1, p);
    }
  }

  lemma {:induction false} FailureIsSeen(count: nat, i: nat, attempt: nat, handle: Oracle, from: nat) returns (p: nat)
    requires from <= count && Outcome(count, i, attempt, handle, from).Some?
    ensures Delivery(i, p, attempt) in Deliveries(count, i, attempt, handle, from)
    ensures handle(i, p, attempt) == Outcome(count, i, attempt, handle, from)
    decreases count - from
  {
    if handle(i, from, attempt).Some? {
      p := from;
    } else {
      p := FailureIsSeen(count, i, attempt, handle, from + 1);
    }
  }

  lemma {:induction false} LogsGrow(f: Flush, i: nat, k: nat)
    requires f.Valid() && i <= k < |f.states|
    ensures forall d | d in f.states[i].log :: d in f.states[k].log
    decreases k
  {
    if i < k {
      LogsGrow(f, i, k - 1);
      assert f.states[k] == AttemptAt(f.states[k - 1], Nth(PENDING, f.states[0].queue, k - 1), f.handle);
    }
  }

  lemma FlushLogs(s: State, handle: Oracle, k: nat, i: nat)
    requires k <= CountOf(PENDING, s.queue) && IsAttempted(s.queue, k, i)
    ensures forall d | d in Deliveries(SubscriberCount(s, s.queue[i]), i, s.queue[i].retryCount, handle, 0) ::
              d in Flushed(s, handle, k).log
  {
    var f := StatesOf(s, handle, k);
    NthIsUnique(s.queue, i);
    var l := CountOf(PENDING, s.queue[..i]);
    Skipped(f, l, i);
    assert f.states[l + 1] == AttemptAt(f.states[l], i, handle);
    LogsGrow(f, l + 1, k);
  }

  lemma FlushKeepsLog(s: State, handle: Oracle, k: nat)
    requires k <= CountOf(PENDING, s.queue)
    ensures forall d | d in s.log :: d in Flushed(s, handle, k).log
  {
    var f := StatesOf(s, handle, k);
    LogsGrow(f, 0, k);
  }

  lemma StepKeepsLog(s: State, op: Operation, handle: Oracle)
    ensures forall d | d in s.log :: d in Step(s, op, handle).log
  {
    if op.FlushOutbox? {
      FlushKeepsLog(s, handle, TakenBy(s, op.batchSize, handle));
    }
  }

  /** All subscribers that there are in `s` have taken message `m` in its current attempt. */
  ghost predicate TakenByAll(s: State, m: nat, log: seq<Delivery>, handle: Oracle)
    requires m < |s.queue|
  {
    forall p | 0 <= p < SubscriberCount(s, s.queue[m]) ::
      Delivery(m, p, s.queue[m].retryCount) in log && handle(m, p, s.queue[m].retryCount).None?
  }

  lemma PublishingIsTaken(s: State, op: Operation, handle: Oracle, m: nat)
    requires m < |Step(s, op, handle).queue| && Step(s, op, handle).queue[m].status == PUBLISHED
    requires m < |s.queue| ==> s.queue[m].status != PUBLISHED
    ensures op.FlushOutbox? && m < |s.queue| && s.queue[m].status == PENDING
    ensures TakenByAll(s, m, Step(s, op, handle).log, handle)
  {
    if op.FlushOutbox? {
      var k := TakenBy(s, op.batchSize, handle);
      if IsAttempted(s.queue, k, m) {
        FlushAttempts(s, handle, k, m);
        FlushLogs(s, handle, k, m);
        var count, attempt := SubscriberCount(s, s.queue[m]), s.queue[m].retryCount;
        forall p | 0 <= p < count
          ensures Delivery(m, p, attempt) in Flushed(s, handle, k).log && handle(m, p, attempt).None?
        {
          SuccessIsSeen(count, m, attempt, handle, 0, p);
        }
      } else {
        FlushSkips(s, handle, k, m);
      }
    }
  }

  /** A published message has been taken, in one flush, by every subscriber that there was. */
  lemma {:induction false} PublishedWasTaken(run: Run, i: nat, m: nat) returns (f: nat)
    requires run.Valid() && i <= |run.ops| && m < |run.states[i].queue| && run.states[i].queue[m].status == PUBLISHED
    ensures f < i && run.ops[f].FlushOutbox? && m < |run.states[f].queue|
    ensures run.states[f].queue[m].status == PENDING
    ensures TakenByAll(run.states[f], m, run.states[i].log, run.handle)
    decreases i
  {
    var s, op := run.states[i - 1], run.ops[i - 1];
    assert run.states[i] == Step(s, op, run.handle);
    if m < |s.queue| && s.queue[m].status == PUBLISHED {
      f := PublishedWasTaken(run, i - 1, m);
      StepKeepsLog(s, op, run.handle);
    } else {
      f := i - 1;
      PublishingIsTaken(s, op, run.handle, m);
    }
  }

  ghost predicate FailureSeen(m: nat, attempt: nat, log: seq<Delivery>, handle: Oracle) {
    exists p :: Delivery(m, p, attempt) in log && handle(m, p, attempt).Some?
  }

  lemma AttemptIsSeen(s: State, handle: Oracle, k: nat, m: nat)
    requires k <= CountOf(PENDING, s.queue) && IsAttempted(s.queue, k, m) && OutcomeOf(s, m, handle).Some?
    ensures FailureSeen(m, s.queue[m].retryCount, Flushed(s, handle, k).log, handle)
  {
    FlushLogs(s, handle, k, m);
    var p := FailureIsSeen(SubscriberCount(s, s.queue[m]), m, s.queue[m].retryCount, handle, 0);
  }

  lemma FlushRetryWasFailure(s: State, handle: Oracle, k: nat, m: nat, attempt: nat)
    requires k <= CountOf(PENDING, s.queue) && m < |s.queue|
    requires s.queue[m].retryCount <= attempt < Flushed(s, handle, k).queue[m].retryCount
    ensures FailureSeen(m, attempt, Flushed(s, handle, k).log, handle)
  {
    if IsAttempted(s.queue, k, m) {
      FlushAttempts(s, handle, k, m);
      AttemptIsSeen(s, handle, k, m);
    } else {
      FlushSkips(s, handle, k, m);
    }
  }

  lemma NewRetryWasFailure(s: State, op: Operation, handle: Oracle, m: nat, attempt: nat)
    requires m < |Step(s, op, handle).queue| && attempt < Step(s, op, handle).queue[m].retryCount
    requires m < |s.queue| ==> attempt >= s.queue[m].retryCount
    ensures FailureSeen(m, attempt, Step(s, op, handle).log, handle)
  {
    if op.FlushOutbox? {
      FlushRetryWasFailure(s, handle, TakenBy(s, op.batchSize, handle), m, attempt);
    }
  }

  /** Every retry that is counted was caused by a subscriber that was given the message and threw. */
  lemma {:induction false} RetriesWereFailures(run: Run, i: nat, m: nat, attempt: nat)
    requires run.Valid() && i <= |run.ops| && m < |run.states[i].queue| && attempt < run.states[i].queue[m].retryCount
    ensures FailureSeen(m, attempt, run.states[i].log, run.handle)
    decreases i
  {
    var s, op := run.states[i - 1], run.ops[i - 1];
    if m < |s.queue| && attempt < s.queue[m].retryCount {
      RetriesWereFailures(run, i - 1, m, attempt);
      StepKeepsLog(s, op, run.handle);
    } else {
      NewRetryWasFailure(s, op, run.handle, m, attempt);
    }
  }

  // ---------- where deliveries come from ----------

  /** A delivery goes to a position that there is, and only after those before it have taken the message. */
  ghost predicate InTurn(d: Delivery, s: State, handle: Oracle) {
    && d.message < |s.queue| && d.position < SubscriberCount(s, s.queue[d.message])
    && forall p | 0 <= p < d.position :: handle(d.message, p, d.attempt).None?
  }

  lemma {:induction false} DeliveriesInTurn(count: nat, i: nat, attempt: nat, handle: Oracle, from: nat, d: Delivery)
    requires from <= count && d in Deliveries(count, i, attempt, handle, from)
    ensures d.message == i && d.attempt == attempt && from <= d.position < count
    ensures forall p | from <= p < d.position :: handle(i, p, attempt).None?
    decreases count - from
  {
    if d != Delivery(i, from, attempt) {
      DeliveriesGoOn(count, i, attempt, handle, from, d);
      DeliveriesInTurn(count, i, attempt, handle, from + 1, d);
    }
  }

  lemma DeliveriesGoOn(count: nat, i: nat, attempt: nat, handle: Oracle, from: nat, d: Delivery)
    requires from <= count && d in Deliveries(count, i, attempt, handle, from) && d != Delivery(i, from, attempt)
    ensures from < count && handle(i, from, attempt).None? && d in Deliveries(count, i, attempt, handle, from + 1)
  {
  }

  /** The first subscriber that throws decides, however many there are behind it. */
  lemma {:induction false} FirstDecides(count: nat, i: nat, attempt: nat, handle: Oracle, from: nat, p: nat)
    requires from <= p < count && handle(i, p, attempt).Some?
    ensures Outcome(count, i, attempt, handle, from).Some?
    ensures (forall q | from <= q < p :: handle(i, q, attempt).None?) ==>
              Outcome(count, i, attempt, handle, from) == handle(i, p, attempt)
    decreases count - from
  {
    if handle(i, from, attempt).None? {
      FirstDecides(count, i, attempt, handle, from + 1, p);
    }
  }

  lemma {:induction false} LoggedByFlush(f: Flush, k: nat, d: Delivery)
    requires f.Valid() && k < |f.states| && d in f.states[k].log && d !in f.states[0].log
    ensures var s := f.states[0];
            && IsAttempted(s.queue, k, d.message)
            && d in Deliveries(SubscriberCount(s, s.queue[d.message]), d.message, s.queue[d.message].retryCount, f.handle, 0)
    decreases k
  {
    if d in f.states[k - 1].log {
      LoggedByFlush(f, k - 1, d);
    } else {
      var i, outcome := NextAttempt(f, k - 1);
      var r := f.states[k - 1];
      assert f.states[k] == AttemptAt(r, i, f.handle);
      DeliveriesInTurn(SubscriberCount(r, r.queue[i]), i, r.queue[i].retryCount, f.handle, 0, d);
    }
  }

  /** What a step adds to the log are deliveries of the messages that a flush attempts. */
  lemma LoggedByStep(s: State, op: Operation, handle: Oracle, d: Delivery)
    requires d in Step(s, op, handle).log && d !in s.log
    ensures op.FlushOutbox? && IsAttempted(s.queue, TakenBy(s, op.batchSize, handle), d.message)
    ensures d in Deliveries(SubscriberCount(s, s.queue[d.message]), d.message, s.queue[d.message].retryCount, handle, 0)
  {
    var k := TakenBy(s, op.batchSize, handle);
    var f := StatesOf(s, handle, k);
    LoggedByFlush(f, k, d);
  }

  lemma StepKeepsSubscribers(s: State, op: Operation, handle: Oracle, i: nat)
    requires i < |s.queue|
    ensures i < |Step(s, op, handle).queue|
    ensures SubscriberCount(s, s.queue[i]) <= SubscriberCount(Step(s, op, handle), Step(s, op, handle).queue[i])
  {
    StepAdvances(s, op, handle, i);
  }

  lemma StepKeepsTurn(s: State, op: Operation, handle: Oracle, d: Delivery)
    requires d in Step(s, op, handle).log && (d in s.log ==> InTurn(d, s, handle))
    ensures InTurn(d, Step(s, op, handle), handle)
  {
    if d !in s.log {
      LoggedByStep(s, op, handle, d);
      DeliveriesInTurn(SubscriberCount(s, s.queue[d.message]), d.message, s.queue[d.message].retryCount, handle, 0, d);
    }
    StepKeepsSubscribers(s, op, handle, d.message);
  }

  lemma {:induction false} AllInTurn(run: Run, i: nat, d: Delivery)
    requires run.Valid() && i <= |run.ops| && d in run.states[i].log
    ensures InTurn(d, run.states[i], run.handle)
    decreases i
  {
    var s, op := run.states[i - 1], run.ops[i - 1];
    assert run.states[i] == Step(s, op, run.handle);
    if d in s.log {
      AllInTurn(run, i - 1, d);
    }
    StepKeepsTurn(s, op, run.handle, d);
  }

  // ---------- messages that are given up ----------

  /** A message is given up exactly at its fifth failure. */
  ghost predicate Sound(m: Message) {
    m.retryCount <= 5 && (m.status == DEAD_LETTER <==> m.retryCount == 5)
  }

  /** An attempt at the message was rejected with nothing. */
  ghost predicate GotNothing(m: nat, attempt: nat, log: seq<Delivery>, handle: Oracle) {
    exists p :: Delivery(m, p, attempt) in log && handle(m, p, attempt) == Some(Nothing)
  }

  lemma AttemptIsSound(m: Message, outcome: Option<Reason>)
    requires m.status == PENDING
    ensures Sound(Attempted(m, outcome)) <==> Sound(m) && !(m.retryCount == LAST_ATTEMPT && outcome == Some(Nothing))
  {
  }

  /** The attempt of a flush at a message is the one that its log tells of. */
  lemma FlushGetsNothing(s: State, op: Operation, handle: Oracle, m: nat, attempt: nat)
    requires op.FlushOutbox? && m < |s.queue|
    ensures GotNothing(m, attempt, Step(s, op, handle).log, handle) <==>
            || GotNothing(m, attempt, s.log, handle)
            || (IsAttempted(s.queue, TakenBy(s, op.batchSize, handle), m) && s.queue[m].retryCount == attempt
                && OutcomeOf(s, m, handle) == Some(Nothing))
  {
    var k, count := TakenBy(s, op.batchSize, handle), SubscriberCount(s, s.queue[m]);
    FlushKeepsLog(s, handle, k);
    if IsAttempted(s.queue, k, m) && s.queue[m].retryCount == attempt && OutcomeOf(s, m, handle) == Some(Nothing) {
      FlushLogs(s, handle, k, m);
      var p := FailureIsSeen(count, m, attempt, handle, 0);
    }
    if GotNothing(m, attempt, Step(s, op, handle).log, handle) && !GotNothing(m, attempt, s.log, handle) {
      var p :| Delivery(m, p, attempt) in Step(s, op, handle).log && handle(m, p, attempt) == Some(Nothing);
      LoggedByStep(s, op, handle, Delivery(m, p, attempt));
      DeliveriesInTurn(count, m, s.queue[m].retryCount, handle, 0, Delivery(m, p, attempt));
      FirstDecides(count, m, attempt, handle, 0, p);
    }
  }

  /** In attempt `a` the message failed with that error. */
  ghost predicate FailedWith(m: nat, a: nat, error: Reason, log: seq<Delivery>, handle: Oracle) {
    exists p :: Delivery(m, p, a) in log && handle(m, p, a) == Some(error)
  }

  /** The recorded error is that of the latest failure that had one. */
  ghost predicate ErrorIsLatest(m: nat, retries: nat, error: Option<Reason>, log: seq<Delivery>, handle: Oracle) {
    if error == None then forall a | 0 <= a < retries :: GotNothing(m, a, log, handle)
    else
      && error != Some(Nothing)
      && exists a :: && 0 <= a < retries && FailedWith(m, a, error.value, log, handle)
                     && forall b | a < b < retries :: GotNothing(m, b, log, handle)
  }

  lemma LongerLogKeepsError(m: nat, retries: nat, error: Option<Reason>, log: seq<Delivery>, log': seq<Delivery>, handle: Oracle)
    requires ErrorIsLatest(m, retries, error, log, handle) && forall d | d in log :: d in log'
    ensures ErrorIsLatest(m, retries, error, log', handle)
  {
    forall a | GotNothing(m, a, log, handle) ensures GotNothing(m, a, log', handle) {
    }
    if error != None {
      var a :| && 0 <= a < retries && FailedWith(m, a, error.value, log, handle)
               && forall b | a < b < retries :: GotNothing(m, b, log, handle);
      assert FailedWith(m, a, error.value, log', handle);
    }
  }

  lemma OneMoreFailure(m: nat, retries: nat, error: Option<Reason>, outcome: Reason, log: seq<Delivery>, handle: Oracle)
    requires ErrorIsLatest(m, retries, error, log, handle) && FailedWith(m, retries, outcome, log, handle)
    ensures ErrorIsLatest(m, retries + 1, if outcome == Nothing then error else Some(outcome), log, handle)
  {
    if outcome == Nothing {
      assert GotNothing(m, retries, log, handle);
      if error != None {
        var a :| && 0 <= a < retries && FailedWith(m, a, error.value, log, handle)
                 && forall b | a < b < retries :: GotNothing(m, b, log, handle);
        assert forall b | a < b < retries + 1 :: GotNothing(m, b, log, handle);
      }
    }
  }

  lemma StepKeepsError(s: State, op: Operation, handle: Oracle, m: nat)
    requires m < |s.queue| && ErrorIsLatest(m, s.queue[m].retryCount, s.queue[m].errorMessage, s.log, handle)
    ensures m < |Step(s, op, handle).queue|
    ensures var after := Step(s, op, handle);
            ErrorIsLatest(m, after.queue[m].retryCount, after.queue[m].errorMessage, after.log, handle)
  {
    StepAdvances(s, op, handle, m);
    StepKeepsLog(s, op, handle);
    LongerLogKeepsError(m, s.queue[m].retryCount, s.queue[m].errorMessage, s.log, Step(s, op, handle).log, handle);
    if op.FlushOutbox? {
      var k := TakenBy(s, op.batchSize, handle);
      AttemptedAt(s, handle, k, m);
      var outcome := OutcomeOf(s, m, handle);
      if IsAttempted(s.queue, k, m) && outcome.Some? {
        FlushLogs(s, handle, k, m);
        var p := FailureIsSeen(SubscriberCount(s, s.queue[m]), m, s.queue[m].retryCount, handle, 0);
        OneMoreFailure(m, s.queue[m].retryCount, s.queue[m].errorMessage, outcome.value, Step(s, op, handle).log, handle);
      }
    }
  }

  /** In every run the error of a message is that of its latest failure with an error, or none if there was none. */
  lemma {:induction false} ErrorsAreLatest(run: Run, i: nat, m: nat)
    requires run.Valid() && i <= |run.ops| && m < |run.states[i].queue|
    ensures var message := run.states[i].queue[m];
            ErrorIsLatest(m, message.retryCount, message.errorMessage, run.states[i].log, run.handle)
    decreases i
  {
    var s, op := run.states[i - 1], run.ops[i - 1];
    assert run.states[i] == Step(s, op, run.handle);
    if m < |s.queue| {
      ErrorsAreLatest(run, i - 1, m);
      StepKeepsError(s, op, run.handle, m);
    }
  }

  lemma StepIsSound(s: State, op: Operation, handle: Oracle, m: nat)
    requires m < |s.queue| && (Sound(s.queue[m]) <==> !GotNothing(m, LAST_ATTEMPT, s.log, handle))
    ensures m < |Step(s, op, handle).queue|
    ensures Sound(Step(s, op, handle).queue[m]) <==> !GotNothing(m, LAST_ATTEMPT, Step(s, op, handle).log, handle)
  {
    if op.FlushOutbox? {
      var k := TakenBy(s, op.batchSize, handle);
      FlushGetsNothing(s, op, handle, m, LAST_ATTEMPT);
      AttemptedAt(s, handle, k, m);
      if IsAttempted(s.queue, k, m) {
        AttemptIsSound(s.queue[m], OutcomeOf(s, m, handle));
      }
    }
  }

  /** A message is given up exactly at its fifth failure, unless its fifth attempt was rejected with nothing. */
  lemma {:induction false} StatusTellsRetries(run: Run, i: nat, m: nat)
    requires run.Valid() && i <= |run.ops| && m < |run.states[i].queue|
    ensures Sound(run.states[i].queue[m]) <==> !GotNothing(m, LAST_ATTEMPT, run.states[i].log, run.handle)
    decreases i
  {
    var s, op := run.states[i - 1], run.ops[i - 1];
    assert run.states[i] == Step(s, op, run.handle);
    if m < |s.queue| {
      StatusTellsRetries(run, i - 1, m);
      StepIsSound(s, op, run.handle, m);
    } else {
      DeliveriesDiffer(run, i - 1);
      assert forall d | d in s.log :: IsSettled(d, s.queue);
    }
  }

  /** No subscriber is given a message more than five times whose fifth attempt was not rejected with nothing. */
  lemma AtMostFiveDeliveries(run: Run, i: nat, m: nat, position: nat)
    requires run.Valid() && i <= |run.ops| && !GotNothing(m, LAST_ATTEMPT, run.states[i].log, run.handle)
    ensures Times(run.states[i].log, m, position) <= MAX_RETRIES
  {
    DeliveriesAreAttempts(run, i, m, position);
    if m < |run.states[i].queue| {
      StatusTellsRetries(run, i, m);
    }
  }

  // ---------- draining ----------

  /** The attempts that the pending messages have left. */
  ghost function Work(q: seq<Message>): int {
    if q == [] then 0
    else Work(q[..|q| - 1]) + WorkOf(q[|q| - 1])
  }

  ghost function WorkOf(m: Message): int {
    if m.status == PENDING then MAX_RETRIES - m.retryCount else 0
  }

  ghost predicate AllSound(q: seq<Message>) {
    forall i | 0 <= i < |q| :: Sound(q[i])
  }

  lemma {:induction false} WorkUpdate(q: seq<Message>, i: nat, m: Message)
    requires i < |q|
    ensures Work(q[i := m]) == Work(q) - WorkOf(q[i]) + WorkOf(m)
    decreases |q|
  {
    var n := |q| - 1;
    if i < n {
      assert q[i := m][..n] == q[..n][i := m];
      WorkUpdate(q[..n], i, m);
    } else {
      assert q[i := m][..n] == q[..n];
    }
  }

  lemma {:induction false} WorkBounds(q: seq<Message>)
    requires AllSound(q)
    ensures CountOf(PENDING, q) <= Work(q) <= MAX_RETRIES * CountOf(PENDING, q)
  {
    if q != [] {
      WorkBounds(q[..|q| - 1]);
      assert Sound(q[|q| - 1]);
    }
  }

  lemma {:induction false} AttemptsWork(f: Flush, k: nat)
    requires f.Valid() && k < |f.states| && AllSound(f.states[0].queue)
    ensures Work(f.states[k].queue) <= Work(f.states[0].queue) - k
    decreases k
  {
    if k > 0 {
      AttemptsWork(f, k - 1);
      var i, outcome := NextAttempt(f, k - 1);
      assert Sound(f.states[0].queue[i]);
      WorkUpdate(f.states[k - 1].queue, i, Attempted(f.states[0].queue[i], outcome));
    }
  }

  /** The operations from `i` on and before `j` are flushes that take at least one message. */
  ghost predicate Flushing(ops: seq<Operation>, i: nat, j: nat)
    requires j <= |ops|
  {
    forall f | i <= f < j :: ops[f].FlushOutbox? && ops[f].batchSize >= 1
  }

  /** So far, no fifth attempt was rejected with nothing. */
  ghost predicate FifthsExplained(s: State, handle: Oracle) {
    forall d | d in s.log && d.attempt == LAST_ATTEMPT :: handle(d.message, d.position, d.attempt) != Some(Nothing)
  }

  lemma {:induction false} RunKeepsLog(run: Run, i: nat, j: nat)
    requires run.Valid() && i <= j <= |run.ops|
    ensures forall d | d in run.states[i].log :: d in run.states[j].log
    decreases j
  {
    if i < j {
      RunKeepsLog(run, i, j - 1);
      StepKeepsLog(run.states[j - 1], run.ops[j - 1], run.handle);
      assert run.states[j] == Step(run.states[j - 1], run.ops[j - 1], run.handle);
    }
  }

  /** All messages are given up exactly at their fifth failure, exactly as long as the fifth attempts are explained. */
  lemma AllAreSound(run: Run, i: nat)
    requires run.Valid() && i <= |run.ops|
    ensures AllSound(run.states[i].queue) <==> FifthsExplained(run.states[i], run.handle)
  {
    var s := run.states[i];
    if FifthsExplained(s, run.handle) {
      forall m | 0 <= m < |s.queue| ensures Sound(s.queue[m]) {
        StatusTellsRetries(run, i, m);
      }
    } else {
      var d :| d in s.log && d.attempt == LAST_ATTEMPT && run.handle(d.message, d.position, d.attempt) == Some(Nothing);
      AllInTurn(run, i, d);
      StatusTellsRetries(run, i, d.message);
    }
  }

  lemma EarlierAreSound(run: Run, i: nat, j: nat)
    requires run.Valid() && i <= j <= |run.ops| && FifthsExplained(run.states[j], run.handle)
    ensures AllSound(run.states[i].queue)
  {
    RunKeepsLog(run, i, j);
    AllAreSound(run, i);
  }

  lemma FlushShrinksWork(s: State, handle: Oracle, batchSize: int)
    requires AllSound(s.queue) && batchSize >= 1
    ensures var work := Work(Step(s, FlushOutbox(batchSize), handle).queue);
            work <= Work(s.queue) && (Work(s.queue) > 0 ==> work < Work(s.queue))
  {
    var k := TakenBy(s, batchSize, handle);
    var f := StatesOf(s, handle, k);
    AttemptsWork(f, k);
    WorkBounds(s.queue);
  }

  lemma StepShrinksWork(run: Run, f: nat)
    requires run.Valid() && f < |run.ops| && Flushing(run.ops, f, f + 1) && AllSound(run.states[f].queue)
    ensures var before, after := Work(run.states[f].queue), Work(run.states[f + 1].queue);
            after <= before && (before > 0 ==> after < before)
  {
    FlushShrinksWork(run.states[f], run.handle, run.ops[f].batchSize);
  }

  lemma {:induction false} WorkEnds(run: Run, i: nat, j: nat, work: nat)
    requires run.Valid() && i <= j <= |run.ops| && Flushing(run.ops, i, j)
    requires FifthsExplained(run.states[j], run.handle) && Work(run.states[i].queue) <= work <= j - i
    ensures Work(run.states[j].queue) <= 0
    decreases j - i
  {
    if i < j {
      EarlierAreSound(run, i, j);
      StepShrinksWork(run, i);
      if work > 0 {
        WorkEnds(run, i + 1, j, work - 1);
      } else {
        WorkEnds(run, i + 1, j, 0);
      }
    }
  }

  /** The pending messages are gone after five flushes for each of them, unless a fifth attempt got nothing. */
  lemma FlushesDrain(run: Run, i: nat, j: nat)
    requires run.Valid() && i <= j <= |run.ops| && Flushing(run.ops, i, j)
    requires j - i >= MAX_RETRIES * CountOf(PENDING, run.states[i].queue) && FifthsExplained(run.states[j], run.handle)
    ensures CountOf(PENDING, run.states[j].queue) == 0
  {
    EarlierAreSound(run, i, j);
    EarlierAreSound(run, j, j);
    WorkBounds(run.states[i].queue);
    WorkBounds(run.states[j].queue);
    WorkEnds(run, i, j, MAX_RETRIES * CountOf(PENDING, run.states[i].queue));
  }

  /** A flush of the whole queue leaves a message pending that no other blocks only after one more attempt. */
  lemma FullFlushRetries(s: State, handle: Oracle, batchSize: int, m: nat)
    requires m < |s.queue| && batchSize >= |s.queue| && IsReachable(s, m, handle)
    ensures var q := Step(s, FlushOutbox(batchSize), handle).queue;
            && |q| == |s.queue|
            && (q[m].status == PENDING ==> s.queue[m].status == PENDING && q[m].retryCount == s.queue[m].retryCount + 1)
  {
    StatusesPartition(s.queue);
    FlushedAt(s, batchSize, handle, m);
    if s.queue[m].status == PENDING {
      NthIsUnique(s.queue, m);
    }
  }

  /** The operations from `i` on and before `j` are flushes that take the whole queue. */
  ghost predicate FlushingAll(run: Run, i: nat, j: nat)
    requires run.Valid() && i <= j <= |run.ops|
  {
    forall f | i <= f < j :: run.ops[f].FlushOutbox? && run.ops[f].batchSize >= |run.states[i].queue|
  }

  /** At `j` the message is settled, or there has been a retry for every operation since `i`. */
  ghost predicate IsRetried(run: Run, i: nat, j: nat, m: nat)
    requires run.Valid() && i <= j <= |run.ops|
  {
    var q := run.states[j].queue;
    m < |q| && (q[m].status == PENDING ==> q[m].retryCount >= j - i)
  }

  /** Each of `n` full flushes tries a message that is still pending, if none before it breaks the flush. */
  lemma {:induction false} FullFlushesRetry(run: Run, i: nat, j: nat, m: nat)
    requires run.Valid() && i <= j <= |run.ops| && m < |run.states[i].queue| && FlushingAll(run, i, j)
    requires forall f | i <= f < j :: IsReachable(run.states[f], m, run.handle)
    ensures |run.states[j].queue| == |run.states[i].queue|
    ensures IsRetried(run, i, j, m)
    decreases j
  {
    if i < j {
      FullFlushesRetry(run, i, j - 1, m);
      FullFlushRetries(run.states[j - 1], run.handle, run.ops[j - 1].batchSize, m);
    }
  }

  /** So a message is settled by five of them, if its fifth attempt does not get nothing. */
  lemma FiveFullFlushesDrain(run: Run, i: nat, m: nat)
    requires run.Valid() && i + MAX_RETRIES <= |run.ops| && m < |run.states[i].queue| && FlushingAll(run, i, i + MAX_RETRIES)
    requires forall f | i <= f < i + MAX_RETRIES :: IsReachable(run.states[f], m, run.handle)
    requires !GotNothing(m, LAST_ATTEMPT, run.states[i + MAX_RETRIES].log, run.handle)
    ensures m < |run.states[i + MAX_RETRIES].queue|
    ensures run.states[i + MAX_RETRIES].queue[m].status != PENDING
  {
    FullFlushesRetry(run, i, i + MAX_RETRIES, m);
    StatusTellsRetries(run, i + MAX_RETRIES, m);
  }

  // ---------- which subscribers the outbox can cope with ----------

  /** With so many subscribers, every attempt before `attempt` fails, and that one is rejected with nothing. */
  ghost predicate EndsInNothing(handle: Oracle, message: nat, count: nat, attempt: nat) {
    && (forall a | 0 <= a < attempt :: Outcome(count, message, a, handle, 0).Some?)
    && Outcome(count, message, attempt, handle, 0) == Some(Nothing)
  }

  /** No message fails five times so that the fifth failure is without an error. */
  ghost predicate Explains(handle: Oracle) {
    forall message: nat, count: nat :: !EndsInNothing(handle, message, count, LAST_ATTEMPT)
  }

  /** No failure of a message is without an error. */
  ghost predicate ExplainsAll(handle: Oracle) {
    forall message: nat, count: nat, a: nat | a < MAX_RETRIES :: !EndsInNothing(handle, message, count, a)
  }

  ghost predicate AlwaysSound(handle: Oracle) {
    forall run: Run, i | run.Valid() && run.handle == handle && 0 <= i <= |run.ops| :: AllSound(run.states[i].queue)
  }

  ghost predicate AlwaysDrains(handle: Oracle) {
    forall run: Run, i, j | && run.Valid() && run.handle == handle && 0 <= i <= j <= |run.ops| && Flushing(run.ops, i, j)
                            && j - i >= MAX_RETRIES * CountOf(PENDING, run.states[i].queue) ::
      CountOf(PENDING, run.states[j].queue) == 0
  }

  ghost predicate AlwaysAtMostFive(handle: Oracle) {
    forall run: Run, i, m: nat, p: nat {:trigger run.Valid(), Times(run.states[i].log, m, p)}
      | run.Valid() && run.handle == handle && 0 <= i <= |run.ops| :: Times(run.states[i].log, m, p) <= MAX_RETRIES
  }

  ghost predicate AlwaysRetries(handle: Oracle) {
    forall run: Run, i, j, m: nat | && run.Valid() && run.handle == handle && 0 <= i <= j <= |run.ops|
                                    && m < |run.states[i].queue| && FlushingAll(run, i, j) ::
      IsRetried(run, i, j, m)
  }

  // ---------- what a run tells of its subscribers ----------

  lemma PastFailure(run: Run, i: nat, m: nat, a: nat)
    requires run.Valid() && i <= |run.ops| && m < |run.states[i].queue| && a < run.states[i].queue[m].retryCount
    ensures Outcome(SubscriberCount(run.states[i], run.states[i].queue[m]), m, a, run.handle, 0).Some?
  {
    RetriesWereFailures(run, i, m, a);
    var p :| Delivery(m, p, a) in run.states[i].log && run.handle(m, p, a).Some?;
    AllInTurn(run, i, Delivery(m, p, a));
    FirstDecides(SubscriberCount(run.states[i], run.states[i].queue[m]), m, a, run.handle, 0, p);
  }

  lemma UnexplainedFifth(run: Run, i: nat, d: Delivery)
    requires run.Valid() && i <= |run.ops| && d in run.states[i].log && d.attempt == LAST_ATTEMPT
    requires run.handle(d.message, d.position, d.attempt) == Some(Nothing)
    ensures !Explains(run.handle)
  {
    var s := run.states[i];
    AllInTurn(run, i, d);
    DeliveriesDiffer(run, i);
    assert IsSettled(d, s.queue);
    var count := SubscriberCount(s, s.queue[d.message]);
    forall a | 0 <= a < LAST_ATTEMPT ensures Outcome(count, d.message, a, run.handle, 0).Some? {
      PastFailure(run, i, d.message, a);
    }
    FirstDecides(count, d.message, d.attempt, run.handle, 0, d.position);
    assert EndsInNothing(run.handle, d.message, count, LAST_ATTEMPT);
  }

  lemma ExplainedFifths(run: Run, i: nat)
    requires run.Valid() && i <= |run.ops| && Explains(run.handle)
    ensures FifthsExplained(run.states[i], run.handle)
  {
    forall d | d in run.states[i].log && d.attempt == LAST_ATTEMPT
      ensures run.handle(d.message, d.position, d.attempt) != Some(Nothing)
    {
      if run.handle(d.message, d.position, d.attempt) == Some(Nothing) {
        UnexplainedFifth(run, i, d);
      }
    }
  }

  lemma NothingBreaks(run: Run, i: nat, m: nat)
    requires run.Valid() && i <= |run.ops| && ExplainsAll(run.handle)
    ensures IsReachable(run.states[i], m, run.handle)
  {
    var s := run.states[i];
    forall j | 0 <= j < m && j < |s.queue| && s.queue[j].status == PENDING ensures !Breaks(s, j, run.handle) {
      ExplainedFifths(run, i);
      AllAreSound(run, i);
      assert Sound(s.queue[j]);
      var count, r := SubscriberCount(s, s.queue[j]), s.queue[j].retryCount;
      forall a | 0 <= a < r ensures Outcome(count, j, a, run.handle, 0).Some? {
        PastFailure(run, i, j, a);
      }
      assert !EndsInNothing(run.handle, j, count, r);
    }
  }

  // ---------- a run that shows what its subscribers do ----------

  lemma OneMoreOperation(run: Run, op: Operation) returns (r: Run)
    requires run.Valid()
    ensures r.Valid() && r.handle == run.handle && r.ops == run.ops + [op]
    ensures r.states == run.states + [Step(run.states[|run.ops|], op, run.handle)]
  {
    r := Run(run.states + [Step(run.states[|run.ops|], op, run.handle)], run.ops + [op], run.handle);
    forall i | 0 <= i < |r.ops| ensures r.states[i + 1] == Step(r.states[i], r.ops[i], r.handle) {
      if i < |run.ops| {
        assert run.states[i + 1] == Step(run.states[i], run.ops[i], run.handle);
      }
    }
  }

  /** Message `m` is the last and the only one that is pending. */
  ghost predicate IsAlone(s: State, m: nat, count: nat, retries: nat) {
    && |s.queue| == m + 1 && (forall j | 0 <= j < m :: s.queue[j].status != PENDING)
    && s.queue[m].status == PENDING && s.queue[m].retryCount == retries && SubscriberCount(s, s.queue[m]) == count
    && Times(s.log, m, 0) >= retries
  }

  /** There are `m` messages, and none of them is pending. */
  ghost predicate IsQuiet(s: State, m: nat, count: nat) {
    && |s.queue| == m && (forall j | 0 <= j < m :: s.queue[j].status != PENDING)
    && |HandlersOf(s.subscribers, "watched")| == count && HandlersOf(s.subscribers, "ignored") == []
  }

  lemma {:induction false} NonePending(q: seq<Message>)
    requires forall j | 0 <= j < |q| :: q[j].status != PENDING
    ensures CountOf(PENDING, q) == 0
  {
    if q != [] {
      NonePending(q[..|q| - 1]);
    }
  }

  lemma AloneIsCounted(s: State, m: nat, count: nat, retries: nat)
    requires IsAlone(s, m, count, retries)
    ensures CountOf(PENDING, s.queue) == 1 && Nth(PENDING, s.queue, 0) == m
  {
    NonePending(s.queue[..m]);
    NthIsUnique(s.queue, m);
  }

  lemma AloneIsAttempted(s: State, m: nat, count: nat, retries: nat, handle: Oracle)
    requires IsAlone(s, m, count, retries)
    ensures Step(s, FlushOutbox(1), handle) == AttemptAt(s, m, handle)
    ensures count > 0 ==> Times(AttemptAt(s, m, handle).log, m, 0) >= retries + 1
  {
    AloneIsCounted(s, m, count, retries);
    assert Taken(s, handle, 0) == 0;
    assert Flushed(s, handle, 0) == s;
    if count > 0 {
      var first := [Delivery(m, 0, retries)];
      var all := Deliveries(count, m, retries, handle, 0);
      assert first[..0] == [] && all == first + all[1..];
      TimesConcat(first, all[1..], m, 0);
      TimesConcat(s.log, all, m, 0);
    }
  }

  /** A message can be left alone at any position, with any number of subscribers. */
  lemma {:induction false} QuietRun(handle: Oracle, m: nat, count: nat) returns (run: Run)
    ensures run.Valid() && run.handle == handle && IsQuiet(run.states[|run.ops|], m, count)
    decreases m, count
  {
    if m == 0 && count == 0 {
      run := Run([EMPTY], [], handle);
    } else if m == 0 {
      run := QuietRun(handle, 0, count - 1);
      run := OneMoreOperation(run, Subscribe("watched", ""));
    } else {
      run := QuietRun(handle, m - 1, count);
      run := OneMoreOperation(run, QueueEvent("", Event("ignored", "", "")));
      AloneIsAttempted(run.states[|run.ops|], m - 1, 0, 0, handle);
      run := OneMoreOperation(run, FlushOutbox(1));
    }
  }

  lemma LonelyRun(handle: Oracle, m: nat, count: nat) returns (run: Run)
    ensures run.Valid() && run.handle == handle && IsAlone(run.states[|run.ops|], m, count, 0)
  {
    run := QuietRun(handle, m, count);
    run := OneMoreOperation(run, QueueEvent("", Event("watched", "", "")));
  }

  /** A message that fails but is not given up stays alone. */
  lemma StaysAlone(s: State, m: nat, count: nat, retries: nat, handle: Oracle)
    requires IsAlone(s, m, count, retries) && Outcome(count, m, retries, handle, 0).Some?
    requires retries >= LAST_ATTEMPT ==> Outcome(count, m, retries, handle, 0) == Some(Nothing)
    ensures IsAlone(Step(s, FlushOutbox(1), handle), m, count, retries + 1)
  {
    AloneIsAttempted(s, m, count, retries, handle);
  }

  lemma {:induction false} FailingRun(run: Run, m: nat, count: nat, a: nat) returns (r: Run)
    requires run.Valid() && IsAlone(run.states[|run.ops|], m, count, 0)
    requires forall b | 0 <= b < a :: Outcome(count, m, b, run.handle, 0).Some?
    requires forall b | LAST_ATTEMPT <= b < a :: Outcome(count, m, b, run.handle, 0) == Some(Nothing)
    ensures r.Valid() && r.handle == run.handle && |r.ops| == |run.ops| + a
    ensures r.states[|run.ops|] == run.states[|run.ops|] && Flushing(r.ops, |run.ops|, |r.ops|)
    ensures IsAlone(r.states[|r.ops|], m, count, a)
    decreases a
  {
    if a == 0 {
      r := run;
    } else {
      r := FailingRun(run, m, count, a - 1);
      StaysAlone(r.states[|r.ops|], m, count, a - 1, run.handle);
      r := OneMoreOperation(r, FlushOutbox(1));
    }
  }

  /** A subscriber that always rejects with nothing keeps its message pending, and is given it with every flush. */
  lemma NothingForever(n: nat) returns (run: Run)
    ensures run.Valid() && run.handle == ((m, p, a) => Some(Nothing))
    ensures |run.ops| >= n && Flushing(run.ops, |run.ops| - n, |run.ops|)
    ensures var s := run.states[|run.ops|];
            |s.queue| == 1 && s.queue[0].status == PENDING && s.queue[0].retryCount == n && Times(s.log, 0, 0) == n
  {
    var handle: Oracle := (m, p, a) => Some(Nothing);
    run := LonelyRun(handle, 0, 1);
    run := FailingRun(run, 0, 1, n);
    DeliveriesAreAttempts(run, |run.ops|, 0, 0);
  }

  /** Five flushes leave the only pending message pending, and a sixth delivers it once more. */
  lemma StuckRun(handle: Oracle, m: nat, count: nat) returns (run: Run, i: nat)
    requires EndsInNothing(handle, m, count, LAST_ATTEMPT)
    ensures run.Valid() && run.handle == handle && i + MAX_RETRIES + 1 == |run.ops| && Flushing(run.ops, i, i + MAX_RETRIES)
    ensures IsAlone(run.states[i], m, count, 0) && IsAlone(run.states[i + MAX_RETRIES], m, count, MAX_RETRIES)
    ensures Times(run.states[i + MAX_RETRIES + 1].log, m, 0) >= MAX_RETRIES + 1
  {
    run := LonelyRun(handle, m, count);
    i := |run.ops|;
    run := FailingRun(run, m, count, MAX_RETRIES);
    AloneIsAttempted(run.states[|run.ops|], m, count, MAX_RETRIES, handle);
    run := OneMoreOperation(run, FlushOutbox(1));
  }

  /** A flush of the whole queue does not get to a message behind one that breaks it. */
  lemma OvertakenRun(handle: Oracle, m: nat, count: nat, a: nat) returns (run: Run, i: nat)
    requires EndsInNothing(handle, m, count, a) && a < MAX_RETRIES
    ensures run.Valid() && run.handle == handle && i + 1 == |run.ops| && m + 1 < |run.states[i].queue|
    ensures FlushingAll(run, i, i + 1) && !IsRetried(run, i, i + 1, m + 1)
  {
    run := LonelyRun(handle, m, count);
    run := FailingRun(run, m, count, a);
    run := OneMoreOperation(run, QueueEvent("", Event("ignored", "", "")));
    i := |run.ops|;
    var s := run.states[i];
    assert Breaks(s, m, handle);
    FlushedAt(s, m + 2, handle, m + 1);
    run := OneMoreOperation(run, FlushOutbox(m + 2));
  }

  // ---------- the exact conditions ----------

  /** Every message is given up exactly at its fifth failure, in all runs, exactly with subscribers that explain it. */
  lemma SoundIffExplained(handle: Oracle)
    ensures AlwaysSound(handle) <==> Explains(handle)
  {
    if Explains(handle) {
      forall run: Run, i | run.Valid() && run.handle == handle && 0 <= i <= |run.ops| ensures AllSound(run.states[i].queue) {
        ExplainedFifths(run, i);
        AllAreSound(run, i);
      }
    } else {
      var m: nat, count: nat :| EndsInNothing(handle, m, count, LAST_ATTEMPT);
      var run, i := StuckRun(handle, m, count);
      assert !Sound(run.states[i + MAX_RETRIES].queue[m]);
    }
  }

  /** Five flushes for each pending message are always enough exactly with such subscribers. */
  lemma DrainsIffExplained(handle: Oracle)
    ensures AlwaysDrains(handle) <==> Explains(handle)
  {
    if Explains(handle) {
      forall run: Run, i, j | && run.Valid() && run.handle == handle && 0 <= i <= j <= |run.ops| && Flushing(run.ops, i, j)
                              && j - i >= MAX_RETRIES * CountOf(PENDING, run.states[i].queue)
        ensures CountOf(PENDING, run.states[j].queue) == 0
      {
        ExplainedFifths(run, j);
        FlushesDrain(run, i, j);
      }
    } else {
      var m: nat, count: nat :| EndsInNothing(handle, m, count, LAST_ATTEMPT);
      var run, i := StuckRun(handle, m, count);
      AloneIsCounted(run.states[i], m, count, 0);
      AloneIsCounted(run.states[i + MAX_RETRIES], m, count, MAX_RETRIES);
    }
  }

  /** No subscriber is ever given a message a sixth time exactly with such subscribers. */
  lemma AtMostFiveIffExplained(handle: Oracle)
    ensures AlwaysAtMostFive(handle) <==> Explains(handle)
  {
    if Explains(handle) {
      forall run: Run, i, m: nat, p: nat | run.Valid() && run.handle == handle && 0 <= i <= |run.ops|
        ensures Times(run.states[i].log, m, p) <= MAX_RETRIES
      {
        ExplainedFifths(run, i);
        AtMostFiveDeliveries(run, i, m, p);
      }
    } else {
      var m: nat, count: nat :| EndsInNothing(handle, m, count, LAST_ATTEMPT);
      var run, i := StuckRun(handle, m, count);
    }
  }

  /** Flushes of the whole queue always try every pending message exactly if no failure is without an error. */
  lemma RetriesIffAllExplained(handle: Oracle)
    ensures AlwaysRetries(handle) <==> ExplainsAll(handle)
  {
    if ExplainsAll(handle) {
      forall run: Run, i, j, m: nat | && run.Valid() && run.handle == handle && 0 <= i <= j <= |run.ops|
                                      && m < |run.states[i].queue| && FlushingAll(run, i, j)
        ensures IsRetried(run, i, j, m)
      {
        forall f | i <= f < j ensures IsReachable(run.states[f], m, handle) {
          NothingBreaks(run, f, m);
        }
        FullFlushesRetry(run, i, j, m);
      }
    } else {
      var m: nat, count: nat, a: nat :| a < MAX_RETRIES && EndsInNothing(handle, m, count, a);
      var run, i := OvertakenRun(handle, m, count, a);
    }
  }
}
