/** Accepting a webhook: take the lock, dispatch, and keep the lock or give it back. */
module Webhooks {
  import opened Json
  import opened IdempotencyStore
  import opened IdempotencyService
  import opened Retry
  import opened Dlq
  import opened Processing

  datatype Mode = Sync | Async

  /** What the surroundings decide during one dispatch: `queuedOk` is the send of an event to be processed
      later, `statusOk` the send of a success or failure status. */
  datatype Sends = Sends(queuedOk: bool, statusOk: bool)

  class DispatcherService {
    const processing: ProcessingService
    const kafkaEnabled: bool
    const mode: Mode
    /** The topic of events to be processed by workers. */
    var queue: seq<Event>

    constructor (processing: ProcessingService, kafkaEnabled: bool, mode: Mode)
      ensures this.processing == processing && this.kafkaEnabled == kafkaEnabled && this.mode == mode && queue == []
    {
      this.processing, this.kafkaEnabled, this.mode, queue := processing, kafkaEnabled, mode, [];
    }

    /** Status messages are sent only after a synchronous processing, and only when Kafka is on. */
    predicate StatusLost(sends: Sends) {
      kafkaEnabled && !sends.statusOk
    }

    method Dispatch(dto: Event, fx: Effects, sends: Sends) returns (out: Outcome)
      requires fx.Valid() && fx.dlqId !in processing.dlq.items
      modifies this, processing, processing.dlq
      ensures processing.redelivered == old(processing.redelivered)
      ensures mode.Async? ==>
        (out.Done? <==> kafkaEnabled && sends.queuedOk)
        && (out.Thrown? ==> out.error.Plain?)
        && queue == old(queue) + (if out.Done? then [dto] else [])
        && processing.delivered == old(processing.delivered) && processing.dlq.items == old(processing.dlq.items)
      ensures mode.Sync? ==>
        queue == old(queue)
        && (out.Done? <==> fx.Succeeds() && !StatusLost(sends))
        && (out.Thrown? ==> (IsDurablyAcceptedError(out.error) <==>
              !fx.Succeeds() && fx.RowCreated() && fx.counted && !StatusLost(sends)))
        && processing.delivered == old(processing.delivered) + (if fx.Succeeds() then [dto] else [])
        && processing.dlq.items == Parked(old(processing.dlq.items), dto, fx)
    {
      if mode == Async {
        if !kafkaEnabled || !sends.queuedOk {
          return Thrown(Plain("send"));
        }
        queue := queue + [dto];
        return Done;
      }
      out := processing.Process(dto, fx);
      if kafkaEnabled && !sends.statusOk {
        // A failed success status is handled like a failed processing, and a failed failure status
        // replaces the processing error.
        out := Thrown(Plain("send"));
      }
    }
  }

  /** What the surroundings decide about the lock: the clock when it is taken and when it may be released,
      whether each candidate can be asked for, whether the store takes the lock, and which deletes fail. */
  datatype Locking = Locking(now: int, later: int, asks: nat -> bool, stored: bool, undeleted: set<string>) {
    ghost function Answer(t: Table, keys: seq<string>): LockAnswer {
      AnswerTo(t, keys, now, asks, stored)
    }

    function Locked(t: Table, keys: seq<string>): Table
      requires keys != []
    {
      PgNext(t, Call(now, SetIfNotExists(keys[0], DEFAULT_TTL_SECONDS), true))
    }

    function Released(t: Table, keys: seq<string>): Table {
      t - ((set k | k in keys) - undeleted)
    }
  }

  /** `Processed` with the flag of the answer and, for a read, the data of the connector. */
  datatype Reply = Duplicate | Processed(processed: bool, data: Option<Json>) | Failed(error: Error)

  class WebhookService {
    const idempotency: IdempotencyService
    const dispatcher: DispatcherService

    constructor (idempotency: IdempotencyService, dispatcher: DispatcherService)
      ensures this.idempotency == idempotency && this.dispatcher == dispatcher
    {
      this.idempotency, this.dispatcher := idempotency, dispatcher;
    }

    /** The lock survives a call that accepted it: on success, and on a failure that was durably accepted. */
    ghost predicate Keeps(fx: Effects, sends: Sends) {
      if dispatcher.mode.Async? then dispatcher.kafkaEnabled && sends.queuedOk
      else !dispatcher.StatusLost(sends) && (fx.Succeeds() || (fx.RowCreated() && fx.counted))
    }

    /** Has the event been delivered, parked in the DLQ, or queued by the call? */
    ghost predicate Accounted(fx: Effects, sends: Sends) {
      if dispatcher.mode.Async? then dispatcher.kafkaEnabled && sends.queuedOk
      else fx.Succeeds() || fx.RowCreated()
    }

    /** A write webhook; `keys` are the candidate lock keys of the event. */
    method ProcessWrite(
        dto: Event, keys: seq<string>, locking: Locking, fx: Effects, sends: Sends) returns (reply: Reply)
      requires keys != [] && fx.Valid() && fx.dlqId !in dispatcher.processing.dlq.items && locking.now <= locking.later
      modifies idempotency.store, dispatcher, dispatcher.processing, dispatcher.processing.dlq
      ensures dispatcher.processing.redelivered == old(dispatcher.processing.redelivered)
      ensures var answer := locking.Answer(old(idempotency.store.table), keys);
        && (reply == Duplicate <==> answer == AlreadyHeld)
        && (answer == LockThrew ==> reply.Failed?)
      // Without the lock everything stays as it was.
      ensures locking.Answer(old(idempotency.store.table), keys) != Taken ==>
        idempotency.store.table == old(idempotency.store.table)
        && dispatcher.queue == old(dispatcher.queue)
        && dispatcher.processing.delivered == old(dispatcher.processing.delivered)
        && dispatcher.processing.dlq.items == old(dispatcher.processing.dlq.items)
      // With it the event is delivered, parked or queued exactly as its effects decide.
      ensures locking.Answer(old(idempotency.store.table), keys) == Taken ==>
        dispatcher.queue == old(dispatcher.queue) + (if dispatcher.mode.Async? && Keeps(fx, sends) then [dto] else [])
        && dispatcher.processing.delivered
           == old(dispatcher.processing.delivered)
              + (if dispatcher.mode.Sync? && fx.Succeeds() then [dto] else [])
        && dispatcher.processing.dlq.items
           == (if dispatcher.mode.Sync? then Parked(old(dispatcher.processing.dlq.items), dto, fx)
               else old(dispatcher.processing.dlq.items))
      ensures locking.Answer(old(idempotency.store.table), keys) == Taken ==>
        if (if dispatcher.mode.Async? then Keeps(fx, sends) else fx.Succeeds() && !dispatcher.StatusLost(sends))
        then reply == Processed(true, None) else reply.Failed?
      ensures locking.Answer(old(idempotency.store.table), keys) == Taken ==>
        var locked := locking.Locked(old(idempotency.store.table), keys);
        idempotency.store.table == if Keeps(fx, sends) then locked else locking.Released(locked, keys)
      // The lock is in force afterwards exactly when the call keeps it, or fails to delete it, and its time
      // has not run out.
      ensures locking.Answer(old(idempotency.store.table), keys) == Taken ==>
        (LiveAmong(idempotency.store.table, keys, locking.later) <==>
          (Keeps(fx, sends) || keys[0] in locking.undeleted)
          && locking.later < locking.now + DEFAULT_TTL_SECONDS * 1000)
      // No silent loss: unless its release fails, a lock that stays means the event is delivered, parked or queued.
      ensures locking.Answer(old(idempotency.store.table), keys) == Taken && keys[0] !in locking.undeleted ==>
        (LiveAmong(idempotency.store.table, keys, locking.later) ==> Accounted(fx, sends))
    {
      var answer := idempotency.CheckAndLock(keys, DEFAULT_TTL_SECONDS, locking.now, locking.asks, locking.stored);
      if answer == LockThrew {
        return Failed(Plain("The lock store cannot be read"));
      }
      if answer == AlreadyHeld {
        return Duplicate;
      }
      OnlyTheActiveKey(old(idempotency.store.table), keys, locking);
      var out := dispatcher.Dispatch(dto, fx, sends);
      if out.Done? {
        return Processed(true, None);
      }
      if !IsDurablyAcceptedError(out.error) {
        idempotency.Release(keys, locking.later, locking.undeleted);
      }
      return Failed(out.error);
    }

    /** A read webhook keeps the lock exactly when nothing is thrown, even if a native call reports failure. */
    method ProcessRead(
        keys: seq<string>, locking: Locking, connector: bool, native: bool, result: Attempt<ConnectorResult>)
      returns (reply: Reply)
      requires keys != [] && locking.now <= locking.later
      modifies idempotency.store
      ensures var answer := locking.Answer(old(idempotency.store.table), keys);
        && (reply == Duplicate <==> answer == AlreadyHeld)
        && (answer == LockThrew ==> reply.Failed?)
        && (answer != Taken ==> idempotency.store.table == old(idempotency.store.table))
      ensures locking.Answer(old(idempotency.store.table), keys) == Taken ==>
        if connector && result.Returned? && (native || result.value.success)
        then reply == Processed(result.value.success, result.value.data) else reply.Failed?
      ensures locking.Answer(old(idempotency.store.table), keys) == Taken ==>
        var locked := locking.Locked(old(idempotency.store.table), keys);
        idempotency.store.table == if reply.Processed? then locked else locking.Released(locked, keys)
      ensures locking.Answer(old(idempotency.store.table), keys) == Taken ==>
        (LiveAmong(idempotency.store.table, keys, locking.later) <==>
          (reply.Processed? || keys[0] in locking.undeleted)
          && locking.later < locking.now + DEFAULT_TTL_SECONDS * 1000)
    {
      var answer := idempotency.CheckAndLock(keys, DEFAULT_TTL_SECONDS, locking.now, locking.asks, locking.stored);
      if answer == LockThrew {
        return Failed(Plain("The lock store cannot be read"));
      }
      if answer == AlreadyHeld {
        return Duplicate;
      }
      OnlyTheActiveKey(old(idempotency.store.table), keys, locking);
      var r := dispatcher.processing.ProcessWithResult(connector, native, result);
      match r
      case Returned(value) =>
        return Processed(value.success, value.data);
      case Threw(message) =>
        idempotency.Release(keys, locking.later, locking.undeleted);
        return Failed(Plain(message));
    }
  }

  predicate LiveAmong(t: Table, keys: seq<string>, now: int) {
    exists k | k in keys :: Live(t, k, now)
  }

  /** Of the candidates only the active one is live once the lock is taken, until its time has run out, and
      after a release only if its delete failed. */
  lemma OnlyTheActiveKey(t: Table, keys: seq<string>, locking: Locking)
    requires keys != [] && locking.Answer(t, keys) == Taken && locking.now <= locking.later
    ensures var (locked, inTime) := (locking.Locked(t, keys), locking.later < locking.now + DEFAULT_TTL_SECONDS * 1000);
      && (LiveAmong(locked, keys, locking.later) <==> inTime)
      && (LiveAmong(locking.Released(locked, keys), keys, locking.later) <==> inTime && keys[0] in locking.undeleted)
  {
    var locked := locking.Locked(t, keys);
    assert keys[0] in keys;
    assert forall k | k in keys ::
      Live(locked, k, locking.later) <==> k == keys[0] && locking.later < locking.now + DEFAULT_TTL_SECONDS * 1000;
  }

  /** An event can be accounted for and yet have its lock released, so that a repeat is processed again:
      exactly when a status message is lost, or the DLQ row was created but the call failed after it. */
  lemma ReleasedThoughAccounted(w: WebhookService, fx: Effects, sends: Sends)
    ensures w.Accounted(fx, sends) && !w.Keeps(fx, sends) <==>
      w.dispatcher.mode.Sync? && (fx.Succeeds() || fx.RowCreated())
      && (w.dispatcher.StatusLost(sends) || (!fx.Succeeds() && !fx.counted))
  {
  }
}
