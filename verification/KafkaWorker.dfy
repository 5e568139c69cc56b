/** Workers consuming queued events, and the services that keep the books of an asynchronous run. */
module KafkaWorker {
  import opened Json
  import opened IdempotencyStore
  import opened IdempotencyService
  import opened Retry
  import opened Dlq
  import opened Processing
  import opened Webhooks
  import opened AsyncBooks

  class KafkaConsumerService {
    const processing: ProcessingService

    constructor (processing: ProcessingService)
      ensures this.processing == processing
    {
      this.processing := processing;
    }

    /** One message. Whatever goes wrong is logged and swallowed: the message is consumed either way.
        A message naming a DLQ item is a retry of it. */
    method EachMessage(dto: Event, dlqItemId: Option<Id>, decoded: bool, fx: Effects, resolve: Update, fail: Update)
      requires fx.Valid() && (IsRetry(dlqItemId) || fx.dlqId !in processing.dlq.items)
      modifies processing, processing.dlq
      ensures processing.delivered == old(processing.delivered)
        + (if decoded && !IsRetry(dlqItemId) && fx.Succeeds() then [dto] else [])
      ensures processing.redelivered == old(processing.redelivered)
        + (if decoded && IsRetry(dlqItemId) && fx.Succeeds() then [dto] else [])
      ensures processing.dlq.items ==
        if !decoded then old(processing.dlq.items)
        else if IsRetry(dlqItemId) then Retried(old(processing.dlq.items), dlqItemId.value, fx, resolve, fail)
        else Parked(old(processing.dlq.items), dto, fx)
    {
      if !decoded {
        return;
      }
      if IsRetry(dlqItemId) {
        var _ := processing.ProcessRetry(dto, dlqItemId.value, fx, resolve, fail);
      } else {
        var _ := processing.Process(dto, fx);
      }
    }
  }

  /** The ids of the events whose webhook was answered as processed. */
  function Acknowledged(steps: seq<Step>, replies: seq<Option<Reply>>): seq<Event>
    requires |replies| == |steps|
  {
    if steps == [] then []
    else
      var n := |steps| - 1;
      Acknowledged(steps[..n], replies[..n])
      + if steps[n].Webhook? && replies[n] == Some(Processed(true, None)) then [steps[n].dto] else []
  }

  class AsyncSystem {
    const webhook: WebhookService
    const consumer: KafkaConsumerService

    constructor (webhook: WebhookService, consumer: KafkaConsumerService)
      requires webhook.dispatcher.mode.Async? && consumer.processing == webhook.dispatcher.processing
      ensures this.webhook == webhook && this.consumer == consumer
    {
      this.webhook, this.consumer := webhook, consumer;
    }

    ghost predicate Valid() {
      webhook.dispatcher.mode.Async? && consumer.processing == webhook.dispatcher.processing
    }

    /** The services agree with the books in all that they store. */
    ghost predicate Shows(b: Books)
      reads webhook.idempotency.store, webhook.dispatcher, consumer.processing, consumer.processing.dlq
    {
      && webhook.idempotency.store.table == b.table && webhook.dispatcher.queue == b.queue
      && consumer.processing.delivered == b.delivered && consumer.processing.redelivered == b.redelivered
      && consumer.processing.dlq.items == b.items
    }

    method RunStep(step: Step, ghost b: Books) returns (reply: Option<Reply>)
      requires Valid() && Shows(b) && ValidStep(step) && step.NewIds() !! b.items.Keys
      modifies webhook.idempotency.store, webhook.dispatcher, consumer.processing, consumer.processing.dlq
      ensures Shows(After(webhook.dispatcher.kafkaEnabled, b, step))
      ensures After(webhook.dispatcher.kafkaEnabled, b, step).accepted == b.accepted
        + if step.Webhook? && reply == Some(Processed(true, None)) then [step.dto] else []
    {
      hide Effects.Valid, Effects.Succeeds, Effects.Failure, Retried, Locking.Answer, Locking.Locked, Locking.Released;
      reply := None;
      match step {
        case Webhook(dto, keys, locking, fx, sends) =>
          var r := webhook.ProcessWrite(dto, keys, locking, fx, sends);
          reply := Some(r);
        case Work(decoded, fx) =>
          if webhook.dispatcher.queue != [] {
            var dto := webhook.dispatcher.queue[0];
            webhook.dispatcher.queue := webhook.dispatcher.queue[1..];
            FailureIsNoSuccess(fx);
            consumer.EachMessage(dto, None, decoded, fx, Update(true, true), Update(true, true));
          }
        case Claim(id, leaseSeconds, now, readable, update) =>
          var _ := consumer.processing.dlq.Retry(id, leaseSeconds, now, "", readable, update);
        case Skip(id, update) =>
          var _ := consumer.processing.dlq.Skip(id, update);
        case RetryItem(dto, id, decoded, fx, resolve, fail) =>
          if IsRetry(Some(id)) {
            consumer.EachMessage(dto, Some(id), decoded, fx, resolve, fail);
          }
      }
    }

    /** A whole schedule from empty stores: the state is that of the books, the acknowledged events are those
        accepted there, and so every acknowledged event is delivered, in the DLQ, still queued, or lost. */
    method Run(steps: seq<Step>) returns (replies: seq<Option<Reply>>)
      requires Valid() && Shows(EMPTY) && ValidSteps(steps) && FreshIds(steps, map[])
      modifies webhook.idempotency.store, webhook.dispatcher, consumer.processing, consumer.processing.dlq
      ensures |replies| == |steps|
      ensures var b := Play(webhook.dispatcher.kafkaEnabled, EMPTY, steps);
        Shows(b) && Balanced(b) && b.accepted == Acknowledged(steps, replies)
    {
      hide After, Effects.Valid, Balanced, Shows, Rows;
      EmptyBalances();
      replies := [];
      ghost var b := EMPTY;
      for n := 0 to |steps|
        invariant |replies| == n
        invariant Shows(b) && b == Play(webhook.dispatcher.kafkaEnabled, EMPTY, steps[..n])
        invariant b.accepted == Acknowledged(steps[..n], replies)
      {
        assert steps[..n + 1][..n] == steps[..n];
        FreshAt(webhook.dispatcher.kafkaEnabled, steps, n);
        var reply := RunStep(steps[n], b);
        b := After(webhook.dispatcher.kafkaEnabled, b, steps[n]);
        replies := replies + [reply];
        assert replies[..n] + [reply] == replies;
      }
      assert steps[..|steps|] == steps;
      BooksBalance(webhook.dispatcher.kafkaEnabled, EMPTY, steps);
    }
  }
}
