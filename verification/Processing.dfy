/** Running one event against its connector, and what becomes of it when that fails. */
module Processing {
  import opened Json
  import opened Retry
  import opened Dlq

  /** An event as the dispatcher hands it on; its payload plays no part in the control flow. */
  datatype Event = Event(eventId: string, targetSystem: string)

  datatype ConnectorResult = ConnectorResult(success: bool, error: Option<string>, data: Option<Json>)

  /** `ProcessingFailure` carries whether the failed event was durably accepted. */
  datatype Error = Plain(message: string) | ProcessingFailure(message: string, durableAccepted: bool)

  datatype Outcome = Done | Thrown(error: Error)

  predicate IsDurablyAcceptedError(e: Error) {
    e.ProcessingFailure? && e.durableAccepted
  }

  /** Everything the surroundings decide during one processing: whether a connector is registered, whether
      each policy read works, what each connector call does, and how far the DLQ insert gets. */
  datatype Effects = Effects(
    connector: bool, policyRead: bool, attempt: nat -> Attempt<ConnectorResult>,
    options: RetryOptions, random: nat -> real,
    policyReadAgain: bool, dlqId: Id, written: bool, counted: bool)
  {
    ghost predicate Valid() {
      options.maxRetries >= 0 && forall i :: 0.0 <= random(i) < 1.0
    }

    /** The connector's first call that does not throw, within the allowed number, reports success. */
    ghost predicate Succeeds() {
      connector && policyRead &&
      exists k: nat | k <= options.maxRetries ::
        attempt(k).Returned? && attempt(k).value.success && forall i: nat | i < k :: attempt(i).Threw?
    }

    predicate RowCreated() {
      policyReadAgain && written
    }

    /** The error the processing fails with, if it fails. */
    function Failure(): Option<string>
      requires options.maxRetries >= 0
    {
      if !connector then Some(UNSUPPORTED)
      else if !policyRead then Some(UNREADABLE)
      else
        match Settled(attempt, 0, options.maxRetries)
        case Threw(message) => Some(message)
        case Returned(r) =>
          if r.success then None else Some(if r.error.Some? then r.error.value else CONNECTOR_FAILED)
    }
  }

  // Fixed texts stand for those that name the target system or come from the database.
  const UNSUPPORTED := "Unsupported target system"
  const UNREADABLE := "The target's policy cannot be read"
  const CONNECTOR_FAILED := "Connector returned failure"
  const UPDATE_FAILED := "The item cannot be updated"

  function NewItem(dto: Event, fx: Effects): Item
    requires fx.options.maxRetries >= 0 && fx.Failure().Some?
  {
    Item(dto.eventId, dto.targetSystem, fx.Failure().value, fx.options.maxRetries, Pending, None, None)
  }

  /** The rows after the first processing of an event: one more when it failed and its row was written. */
  function Parked(items: Items, dto: Event, fx: Effects): Items
    requires fx.options.maxRetries >= 0
  {
    if fx.Failure().Some? && fx.RowCreated() then items[fx.dlqId := NewItem(dto, fx)] else items
  }

  function FailedRow(row: Item, error: string, fail: Update): Item {
    if fail.written then Unlocked(row, Pending).(error := error) else row
  }

  /** The row of an item after its retry: resolving it can fail before the update or after it, and then it is
      marked as failed like any other, if that works. */
  function RetriedRow(row: Item, fx: Effects, resolve: Update, fail: Update): Item
    requires fx.options.maxRetries >= 0
  {
    match fx.Failure()
    case Some(error) => FailedRow(row, error, fail)
    case None =>
      if !resolve.written then FailedRow(row, UPDATE_FAILED, fail)
      else if resolve.counted then Unlocked(row, Resolved)
      else FailedRow(Unlocked(row, Resolved), UPDATE_FAILED, fail)
  }

  function Retried(items: Items, id: Id, fx: Effects, resolve: Update, fail: Update): Items
    requires fx.options.maxRetries >= 0
  {
    if id in items then items[id := RetriedRow(items[id], fx, resolve, fail)] else items
  }

  /** What that means for the item. Only when no update works does it stay claimed. */
  lemma RetriedRowMeans(row: Item, fx: Effects, resolve: Update, fail: Update)
    requires fx.Valid()
    ensures var (after, resolves) := (RetriedRow(row, fx, resolve, fail), fx.Succeeds() && resolve.written);
      && (resolves && (resolve.counted || !fail.written) ==> after == Unlocked(row, Resolved))
      && (fail.written && !(resolves && resolve.counted) ==> after == Unlocked(row, Pending).(error := after.error))
      && (!resolves && !fail.written ==> after == row)
  {
    FailureIsNoSuccess(fx);
  }

  /** There is no error exactly when the first call that does not throw, if one is allowed, reports success. */
  lemma FailureIsNoSuccess(fx: Effects)
    requires fx.Valid()
    ensures fx.Failure() == None <==> fx.Succeeds()
  {
    if k: nat :|
      k <= fx.options.maxRetries && fx.attempt(k).Returned? && forall i: nat | i < k :: fx.attempt(i).Threw?
    {
      ExecuteSettles(fx.attempt, 0, fx.options.maxRetries, k);
      if fx.Succeeds() {
        var j: nat :| j <= fx.options.maxRetries && fx.attempt(j).Returned? && fx.attempt(j).value.success
          && forall i: nat | i < j :: fx.attempt(i).Threw?;
        assert j == k;
      }
    } else {
      AllThrew(fx.attempt, fx.options.maxRetries, 0);
    }
  }

  lemma {:induction false} AllThrew<T>(attempt: nat -> Attempt<T>, last: nat, n: nat)
    requires forall k: nat | k <= last && attempt(k).Returned? :: exists i: nat :: i < k && !attempt(i).Threw?
    requires n <= last && forall i: nat | i < n :: attempt(i).Threw?
    ensures Settled(attempt, n, last).Threw?
    decreases last - n
  {
    if n < last && attempt(n).Threw? {
      AllThrew(attempt, last, n + 1);
    }
  }

  /** The event that a row was parked for. */
  function EventOf(item: Item): Event {
    Event(item.eventId, item.targetSystem)
  }

  /** The error that is kept is the connector's own: the text of its last throw when all calls threw, what it
      gave as the reason of a failure it returned, and otherwise a text of the service. */
  lemma ErrorIsTheConnectors(fx: Effects, n: nat)
    requires fx.Valid() && fx.connector && fx.policyRead && n <= fx.options.maxRetries
    requires forall i: nat | i < n :: fx.attempt(i).Threw?
    ensures n == fx.options.maxRetries && fx.attempt(n).Threw? ==> fx.Failure() == Some(fx.attempt(n).error)
    ensures fx.attempt(n).Returned? && !fx.attempt(n).value.success && fx.attempt(n).value.error.Some? ==>
      fx.Failure() == fx.attempt(n).value.error
  {
    if n == fx.options.maxRetries || fx.attempt(n).Returned? {
      ExecuteSettles(fx.attempt, 0, fx.options.maxRetries, n);
    }
  }

  function Rows(items: Items, e: Event): set<Id> {
    set id | id in items && EventOf(items[id]) == e
  }

  class ProcessingService {
    const dlq: DlqService
    /** The events whose connector reported success: first-time processing, and retries of DLQ items. */
    ghost var delivered: seq<Event>
    ghost var redelivered: seq<Event>

    constructor (dlq: DlqService)
      ensures this.dlq == dlq && delivered == [] && redelivered == []
    {
      this.dlq := dlq;
      delivered, redelivered := [], [];
    }

    /** A connector that returns a failure is not called again; only a throwing one is. */
    method ExecuteWithRetry(fx: Effects) returns (error: Option<string>)
      requires fx.Valid()
      ensures error == fx.Failure() && (error.None? <==> fx.Succeeds())
    {
      FailureIsNoSuccess(fx);
      if !fx.connector {
        return Some(UNSUPPORTED);
      }
      if !fx.policyRead {
        return Some(UNREADABLE);
      }
      var result, calls, _ := Execute(fx.attempt, fx.options, fx.random);
      ExecuteSettles(fx.attempt, 0, fx.options.maxRetries, calls - 1);
      match result
      case Threw(msg) =>
        return Some(msg);
      case Returned(r) =>
        if !r.success {
          return Some(if r.error.Some? then r.error.value else CONNECTOR_FAILED);
        }
        return None;
    }

    method Process(dto: Event, fx: Effects) returns (out: Outcome)
      requires fx.Valid() && fx.dlqId !in dlq.items
      modifies this, dlq
      ensures redelivered == old(redelivered)
      ensures fx.Succeeds() ==> out == Done && delivered == old(delivered) + [dto]
      ensures !fx.Succeeds() ==>
        delivered == old(delivered) && out.Thrown? && out.error.ProcessingFailure?
      ensures !fx.Succeeds() ==>
        (out.error.durableAccepted <==> fx.RowCreated() && fx.counted)
      ensures dlq.items == Parked(old(dlq.items), dto, fx)
      ensures !fx.Succeeds() && fx.RowCreated() ==>
        && fx.Failure().Some?
        && dlq.items == old(dlq.items)[fx.dlqId := Item(
             dto.eventId, dto.targetSystem, fx.Failure().value, fx.options.maxRetries, Pending, None, None)]
      ensures fx.Succeeds() || !fx.RowCreated() ==> dlq.items == old(dlq.items)
    {
      var error := ExecuteWithRetry(fx);
      if error == None {
        delivered := delivered + [dto];
        return Done;
      }
      if !fx.policyReadAgain {
        return Thrown(ProcessingFailure("Processing failed before durable DLQ acceptance", false));
      }
      var threw := dlq.Add(
        fx.dlqId, dto.eventId, dto.targetSystem, error.value, fx.options.maxRetries, fx.written, fx.counted);
      if threw {
        return Thrown(ProcessingFailure("Processing failed before durable DLQ acceptance", false));
      }
      return Thrown(ProcessingFailure(error.value, true));
    }

    /** `resolve` and `fail` are the fates of the two updates. An error while resolving is handled like a failed
        retry, so a delivered item can end up pending again; when that fails too, it stays as it is. */
    method ProcessRetry(dto: Event, itemId: Id, fx: Effects, resolve: Update, fail: Update) returns (out: Outcome)
      requires fx.Valid()
      modifies this, dlq
      ensures delivered == old(delivered)
      ensures redelivered == old(redelivered) + if fx.Succeeds() then [dto] else []
      ensures out.Done? <==> fx.Succeeds() && itemId in old(dlq.items) && resolve.written && resolve.counted
      ensures dlq.items == Retried(old(dlq.items), itemId, fx, resolve, fail)
    {
      var error := ExecuteWithRetry(fx);
      var msg := "";
      match error {
        case None =>
          redelivered := redelivered + [dto];
          var threw := dlq.Resolve(itemId, resolve);
          if !threw {
            return Done;
          }
          msg := UPDATE_FAILED;
        case Some(m) =>
          msg := m;
      }
      var threw := dlq.MarkRetryFailed(itemId, msg, fail);
      return Thrown(Plain(msg));
    }

    /** A read runs the connector once, without retry or DLQ. `native` is the schema or sync call of the
        connector, whose own `success` is not looked at. */
    method ProcessWithResult(connector: bool, native: bool, result: Attempt<ConnectorResult>)
      returns (r: Attempt<ConnectorResult>)
      ensures r.Returned? <==> connector && result.Returned? && (native || result.value.success)
      ensures r.Returned? ==> r == result
    {
      if !connector {
        return Threw(UNSUPPORTED);
      }
      if result.Threw? {
        return result;
      }
      if !native && !result.value.success {
        return Threw(if result.value.error.Some? then result.value.error.value else CONNECTOR_FAILED);
      }
      return result;
    }
  }

  /** Adding a row for an event adds one to the rows of that event and to no others. */
  lemma RowsAfterAdd(items: Items, id: Id, item: Item, e: Event)
    requires id !in items
    ensures |Rows(items[id := item], e)| == |Rows(items, e)| + if EventOf(item) == e then 1 else 0
  {
    var after := Rows(items[id := item], e);
    assert after == Rows(items, e) + if EventOf(item) == e then {id} else {};
  }
}
