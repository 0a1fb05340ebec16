/**
 The outbox of FinancialLedgerTransactionEventOutboxHandler.ts as the program keeps it: message objects that
 a flush changes in place. Every method is proved to do what module Outbox says.
 */
module OutboxHandler {

  import opened Options
  import opened Outbox

  class OutboxMessage {
    /** The position in the queue; it stands for the unique id of the message. */
    const messageId: nat
    const destinationTopic: string
    const partitionKey: string
    const eventPayload: Event
    var status: Status
    var retryCount: nat
    var errorMessage: Option<Reason>

    function Value(): Message
      reads this
    {
      Message(Envelope(destinationTopic, partitionKey, eventPayload), status, retryCount, errorMessage)
    }

    constructor (messageId: nat, topic: string, event: Event)
      ensures this.messageId == messageId && Value() == NewMessage(topic, event)
    {
      this.messageId := messageId;
      destinationTopic, partitionKey, eventPayload := topic, event.tenantId, event;
      status, retryCount, errorMessage := PENDING, 0, None;
    }

    /** Marks the message after an attempt; that throws when there is no error of which to read a message. */
    method Settle(outcome: Option<Reason>) returns (thrown: bool)
      modifies this
      ensures Value() == Attempted(old(Value()), outcome) && thrown == (outcome == Some(Nothing))
    {
      thrown := false;
      if outcome.None? {
        status := PUBLISHED;
      } else {
        retryCount := retryCount + 1;
        if outcome.value == Nothing {
          return true;
        }
        errorMessage := outcome;
        if retryCount >= MAX_RETRIES {
          status := DEAD_LETTER;
        }
      }
    }
  }

  datatype FlushResult = FlushResult(processedCount: nat, failureCount: nat)

  /** The result tells how many messages were published and how many retries were recorded. */
  ghost predicate Counts(result: FlushResult, before: seq<Message>, after: seq<Message>) {
    && result.processedCount == CountOf(PUBLISHED, after) - CountOf(PUBLISHED, before)
    && result.failureCount == Retries(after) - Retries(before)
  }

  ghost function Values(messages: seq<OutboxMessage>): (r: seq<Message>)
    reads messages
    ensures |r| == |messages| && forall i | 0 <= i < |messages| :: r[i] == messages[i].Value()
  {
    if messages == [] then [] else Values(messages[..|messages| - 1]) + [messages[|messages| - 1].Value()]
  }

  class FinancialLedgerTransactionEventOutboxHandler {
    var outboxQueue: seq<OutboxMessage>
    var subscribers: map<string, seq<string>>
    /** What the subscribers have been given so far. */
    ghost var log: seq<Delivery>

    ghost predicate Valid()
      reads this
    {
      forall i | 0 <= i < |outboxQueue| :: outboxQueue[i].messageId == i
    }

    ghost function View(): State
      reads this, outboxQueue
    {
      State(Values(outboxQueue), subscribers, log)
    }

    constructor ()
      ensures Valid() && View() == EMPTY
    {
      outboxQueue, subscribers, log := [], map[], [];
    }

    method QueueEvent(topic: string, event: Event) returns (message: OutboxMessage)
      requires Valid()
      modifies this
      ensures Valid() && fresh(message) && outboxQueue == old(outboxQueue) + [message]
      ensures forall handle :: View() == Step(old(View()), Operation.QueueEvent(topic, event), handle)
    {
      message := new OutboxMessage(|outboxQueue|, topic, event);
      outboxQueue := outboxQueue + [message];
    }

    method Subscribe(eventType: string, handler: string)
      requires Valid()
      modifies this
      ensures Valid() && outboxQueue == old(outboxQueue)
      ensures forall handle :: View() == Step(old(View()), Operation.Subscribe(eventType, handler), handle)
    {
      if eventType !in subscribers {
        subscribers := subscribers[eventType := []];
      }
      subscribers := subscribers[eventType := subscribers[eventType] + [handler]];
    }

    method WithStatus(status: Status) returns (r: seq<OutboxMessage>)
      ensures |r| == CountOf(status, View().queue)
      ensures forall k | 0 <= k < |r| :: r[k] == outboxQueue[Nth(status, View().queue, k)]
    {
      r := [];
      ghost var q := Values(outboxQueue);
      for n := 0 to |outboxQueue|
        invariant |r| == CountOf(status, q[..n])
        invariant forall k | 0 <= k < |r| :: r[k] == outboxQueue[Nth(status, q[..n], k)]
      {
        assert q[..n + 1][..n] == q[..n];
        if outboxQueue[n].status == status {
          r := r + [outboxQueue[n]];
        }
      }
      assert q[..|outboxQueue|] == q;
    }

    method GetPendingCount() returns (n: nat)
      ensures n == CountOf(PENDING, View().queue)
    {
      var pending := WithStatus(PENDING);
      n := |pending|;
    }

    method GetDeadLetterMessages() returns (r: seq<OutboxMessage>)
      ensures |r| == CountOf(DEAD_LETTER, View().queue)
      ensures forall k | 0 <= k < |r| :: r[k] == outboxQueue[Nth(DEAD_LETTER, View().queue, k)]
    {
      r := WithStatus(DEAD_LETTER);
    }

    /** Hands the message to its subscribers until one of them throws. */
    method Deliver(message: OutboxMessage, handle: Oracle) returns (outcome: Option<Reason>)
      modifies this`log
      ensures var count := SubscriberCount(old(View()), message.Value());
              && outcome == Outcome(count, message.messageId, message.retryCount, handle, 0)
              && log == old(log) + Deliveries(count, message.messageId, message.retryCount, handle, 0)
    {
      var handlers := HandlersOf(subscribers, message.eventPayload.eventType);
      var i, attempt := message.messageId, message.retryCount;
      var position := 0;
      outcome := None;
      ghost var all := old(log) + Deliveries(|handlers|, i, attempt, handle, 0);
      ghost var result := Outcome(|handlers|, i, attempt, handle, 0);
      while position < |handlers|
        invariant position <= |handlers| && outcome.None?
        invariant result == Outcome(|handlers|, i, attempt, handle, position)
        invariant all == log + Deliveries(|handlers|, i, attempt, handle, position)
      {
        NextDelivery(log, |handlers|, i, attempt, handle, position);
        log := log + [Delivery(i, position, attempt)];
        outcome := handle(i, position, attempt);
        if outcome.Some? {
          return;
        }
        position := position + 1;
      }
    }

    method Attempt(message: OutboxMessage, handle: Oracle) returns (failed: bool, thrown: bool)
      requires Valid() && message in outboxQueue
      modifies message, this`log
      ensures Valid()
      ensures var s, i := old(View()), message.messageId;
              && i < |s.queue| && View() == AttemptAt(s, i, handle)
              && failed == OutcomeOf(s, i, handle).Some? && thrown == Breaks(s, i, handle)
    {
      ghost var before := Values(outboxQueue);
      var outcome := Deliver(message, handle);
      thrown := message.Settle(outcome);
      failed := outcome.Some?;
      assert Values(outboxQueue) == before[message.messageId := message.Value()];
    }

    /** The loop over a batch, through the states of `flush`; the result is absent where it throws. */
    method AttemptAll(pending: seq<OutboxMessage>, handle: Oracle, ghost flush: Flush) returns (result: Option<FlushResult>)
      requires Valid() && |pending| <= CountOf(PENDING, View().queue)
      requires forall k | 0 <= k < |pending| :: pending[k] == outboxQueue[Nth(PENDING, View().queue, k)]
      requires flush.Valid() && flush.handle == handle && flush.states[0] == View()
      requires |flush.states| - 1 == Taken(View(), handle, |pending|)
      modifies outboxQueue, this`log
      ensures Valid() && View() == flush.states[|flush.states| - 1]
      ensures result.None? <==> IsBroken(flush.states[0], handle, |pending|)
      ensures result.Some? ==> Counts(result.value, flush.states[0].queue, View().queue)
    {
      var processedCount, failureCount := 0, 0;
      for k := 0 to |pending|
        invariant Valid() && k < |flush.states| && View() == flush.states[k]
        invariant k > 0 ==> !BreaksAt(flush.states[0], k - 1, handle)
        invariant Counts(FlushResult(processedCount, failureCount), flush.states[0].queue, flush.states[k].queue)
      {
        ghost var i, outcome := NextInBatch(flush, |pending|, k);
        var failed, thrown := Attempt(pending[k], handle);
        if thrown {
          return None;
        } else if failed {
          failureCount := failureCount + 1;
        } else {
          processedCount := processedCount + 1;
        }
      }
      UnbrokenBatch(flush.states[0], handle, |pending|);
      result := Some(FlushResult(processedCount, failureCount));
    }

    /** The result is absent where the source throws. */
    method FlushOutbox(batchSize: int, handle: Oracle) returns (result: Option<FlushResult>)
      requires Valid()
      modifies outboxQueue, this`log
      ensures Valid()
      ensures View() == Step(old(View()), Operation.FlushOutbox(batchSize), handle)
      ensures result.None? <==> Throws(old(View()), batchSize, handle)
      ensures result.Some? ==>
                && Counts(result.value, old(View()).queue, View().queue)
                && result.value.processedCount + result.value.failureCount == BatchOf(batchSize, CountOf(PENDING, old(View()).queue))
    {
      ghost var start := View();
      var pending := WithStatus(PENDING);
      pending := pending[..BatchOf(batchSize, |pending|)];
      ghost var flush := FlushOf(start, batchSize, handle, |pending|);
      result := AttemptAll(pending, handle, flush);
      if result.Some? {
        WholeBatchCounts(start, handle, batchSize);
      }
    }
  }
}
