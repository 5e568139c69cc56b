/** The books of a whole asynchronous run: what becomes of every event that was accepted. */
module AsyncBooks {
  import opened Json
  import opened IdempotencyStore
  import opened IdempotencyService
  import opened Retry
  import opened Dlq
  import opened Processing
  import opened Webhooks

  predicate IsRetry(dlqItemId: Option<Id>) {
    dlqItemId.Some? && dlqItemId.value != ""
  }

  /** A webhook call, a worker taking the next queued event, a claim of a DLQ item, a worker retrying one, or a
      skip. */
  datatype Step =
    | Webhook(dto: Event, keys: seq<string>, locking: Locking, fx: Effects, sends: Sends)
    | Work(decoded: bool, fx: Effects)
    | Claim(id: Id, leaseSeconds: int, now: int, readable: bool, update: Update)
    | RetryItem(dto: Event, id: Id, decoded: bool, fx: Effects, resolve: Update, fail: Update)
    | Skip(id: Id, update: Update)
  {
    /** The id of a row that the step may create. */
    function NewIds(): set<Id> {
      match this
      case Webhook(_, _, _, fx, _) => {fx.dlqId}
      case Work(_, fx) => {fx.dlqId}
      case _ => {}
    }
  }

  /** The shared state, with the events acknowledged to their sender and of those that are lost:
      taken from the queue without being delivered or parked. */
  datatype Books = Books(
    table: Table, queue: seq<Event>, delivered: seq<Event>, redelivered: seq<Event>, items: Items,
    accepted: seq<Event>, lost: seq<Event>)

  const EMPTY := Books(map[], [], [], [], map[], [], [])

  ghost predicate ValidStep(step: Step) {
    match step
    case Webhook(_, keys, locking, fx, _) => fx.Valid() && keys != [] && locking.now <= locking.later
    case Work(_, fx) => fx.Valid()
    case RetryItem(_, _, _, fx, _, _) => fx.Valid()
    case _ => true
  }

  ghost function AfterWebhook(kafkaEnabled: bool, b: Books, step: Step): Books
    requires step.Webhook? && step.keys != []
  {
    if step.locking.Answer(b.table, step.keys) != Taken then b
    else
      var locked := step.locking.Locked(b.table, step.keys);
      if kafkaEnabled && step.sends.queuedOk then
        b.(table := locked, queue := b.queue + [step.dto], accepted := b.accepted + [step.dto])
      else b.(table := step.locking.Released(locked, step.keys))
  }

  ghost function AfterWork(b: Books, step: Step): Books
    requires step.Work? && step.fx.Valid() && b.queue != []
  {
    var dto := b.queue[0];
    var rest := b.(queue := b.queue[1..]);
    if !step.decoded then rest.(lost := b.lost + [dto])
    else if step.fx.Succeeds() then rest.(delivered := b.delivered + [dto])
    else if step.fx.RowCreated() then rest.(items := Parked(b.items, dto, step.fx))
    else rest.(lost := b.lost + [dto])
  }

  ghost function After(kafkaEnabled: bool, b: Books, step: Step): Books
    requires ValidStep(step)
  {
    match step
    case Webhook(_, _, _, _, _) => AfterWebhook(kafkaEnabled, b, step)
    case Work(_, _) => if b.queue == [] then b else AfterWork(b, step)
    case Claim(id, leaseSeconds, now, readable, update) =>
      if !ClaimWins(b.items, id, leaseSeconds, now, readable, update) then b
      else b.(items := b.items[id := Claimed(b.items[id], now, "")])
    case Skip(id, update) =>
      if id !in b.items || !update.written then b
      else b.(items := b.items[id := Unlocked(b.items[id], Skipped)])
    case RetryItem(dto, id, decoded, fx, resolve, fail) =>
      if !decoded || !IsRetry(Some(id)) then b
      else b.(items := Retried(b.items, id, fx, resolve, fail),
              redelivered := b.redelivered + if fx.Succeeds() then [dto] else [])
  }

  ghost predicate ValidSteps(steps: seq<Step>) {
    forall i | 0 <= i < |steps| :: ValidStep(steps[i])
  }

  /** The books after a schedule of steps. */
  ghost function Play(kafkaEnabled: bool, b: Books, steps: seq<Step>): Books
    requires ValidSteps(steps)
  {
    if steps == [] then b else After(kafkaEnabled, Play(kafkaEnabled, b, steps[..|steps| - 1]), steps[|steps| - 1])
  }

  /** Every step that may create a row brings an id that no row has yet. */
  ghost predicate FreshIds(steps: seq<Step>, items: Items) {
    && (forall i | 0 <= i < |steps| :: steps[i].NewIds() !! items.Keys)
    && (forall i, j | 0 <= i < j < |steps| :: steps[i].NewIds() !! steps[j].NewIds())
  }

  function Count(events: seq<Event>, e: Event): nat {
    multiset(events)[e]
  }

  /** For every event: accepted = delivered + in the DLQ + still queued + lost. */
  ghost predicate Balanced(b: Books) {
    forall e ::
      Count(b.accepted, e) == Count(b.delivered, e) + |Rows(b.items, e)| + Count(b.queue, e) + Count(b.lost, e)
  }

  /** In every schedule of webhooks, workers, claims, retries and skips, with any pattern of failures, the books
      balance. */
  lemma {:induction false} BooksBalance(kafkaEnabled: bool, b: Books, steps: seq<Step>)
    requires ValidSteps(steps) && FreshIds(steps, b.items) && Balanced(b)
    ensures Balanced(Play(kafkaEnabled, b, steps))
    ensures forall id | id in Play(kafkaEnabled, b, steps).items ::
      id in b.items || exists i :: 0 <= i < |steps| && id in steps[i].NewIds()
  {
    hide Balanced, ValidStep, After, Step.NewIds;
    if steps != [] {
      var n := |steps| - 1;
      assert forall i | 0 <= i < n :: steps[..n][i] == steps[i];
      assert ValidStep(steps[n]);
      BooksBalance(kafkaEnabled, b, steps[..n]);
      StepBalances(kafkaEnabled, Play(kafkaEnabled, b, steps[..n]), steps[n]);
    }
  }

  /** The step takes an event from the queue and leaves it nowhere: its message cannot be decoded, or its
      processing fails and no row is written. */
  ghost predicate Loses(b: Books, step: Step) {
    step.Work? && b.queue != [] && (!step.decoded || !(step.fx.Succeeds() || step.fx.RowCreated()))
  }

  lemma StepLoses(kafkaEnabled: bool, b: Books, step: Step)
    requires ValidStep(step)
    ensures b.lost <= After(kafkaEnabled, b, step).lost
    ensures After(kafkaEnabled, b, step).lost == b.lost <==> !Loses(b, step)
  {
    hide Effects.Valid, Effects.Succeeds, Effects.RowCreated, Parked, Retried, Locking.Answer;
  }

  ghost predicate LosesAt(kafkaEnabled: bool, b: Books, steps: seq<Step>, i: nat)
    requires i < |steps| && ValidSteps(steps)
  {
    Loses(Play(kafkaEnabled, b, steps[..i]), steps[i])
  }

  lemma LosesAtPrefix(kafkaEnabled: bool, b: Books, steps: seq<Step>, n: nat, i: nat)
    requires i < n <= |steps| && ValidSteps(steps)
    ensures LosesAt(kafkaEnabled, b, steps[..n], i) <==> LosesAt(kafkaEnabled, b, steps, i)
  {
    hide ValidStep, Loses, After, Play;
    assert steps[..n][..i] == steps[..i];
  }

  /** Nothing is lost exactly when no step of the schedule loses its event. */
  lemma {:induction false} LostIff(kafkaEnabled: bool, b: Books, steps: seq<Step>)
    requires ValidSteps(steps)
    ensures b.lost <= Play(kafkaEnabled, b, steps).lost
    ensures Play(kafkaEnabled, b, steps).lost == b.lost <==>
      forall i | 0 <= i < |steps| :: !LosesAt(kafkaEnabled, b, steps, i)
  {
    hide ValidStep, Loses, After, LosesAt;
    if steps != [] {
      var n := |steps| - 1;
      assert ValidStep(steps[n]);
      LostIff(kafkaEnabled, b, steps[..n]);
      forall i | 0 <= i < n
        ensures LosesAt(kafkaEnabled, b, steps[..n], i) <==> LosesAt(kafkaEnabled, b, steps, i)
      {
        LosesAtPrefix(kafkaEnabled, b, steps, n, i);
      }
      StepLoses(kafkaEnabled, Play(kafkaEnabled, b, steps[..n]), steps[n]);
      LosesAtLast(kafkaEnabled, b, steps);
    }
  }

  lemma LosesAtLast(kafkaEnabled: bool, b: Books, steps: seq<Step>)
    requires ValidSteps(steps) && steps != []
    ensures LosesAt(kafkaEnabled, b, steps, |steps| - 1)
      <==> Loses(Play(kafkaEnabled, b, steps[..|steps| - 1]), steps[|steps| - 1])
  {
  }

  lemma StepBalances(kafkaEnabled: bool, b: Books, step: Step)
    requires ValidStep(step) && step.NewIds() !! b.items.Keys && Balanced(b)
    ensures Balanced(After(kafkaEnabled, b, step))
    ensures After(kafkaEnabled, b, step).items.Keys <= b.items.Keys + step.NewIds()
  {
    hide Rows, Effects.Valid, Effects.Succeeds, Effects.Failure, Retried, Parked, Count, Locking.Answer;
    match step
    case Webhook(dto, _, _, _, _) =>
      forall e
        ensures Count(b.accepted + [dto], e) == Count(b.accepted, e) + if e == dto then 1 else 0
        ensures Count(b.queue + [dto], e) == Count(b.queue, e) + if e == dto then 1 else 0
      {
        Counted(b.accepted, dto, e);
        Counted(b.queue, dto, e);
      }
    case Work(_, _) =>
      if b.queue != [] {
        WorkBalances(b, step);
      }
    case Claim(id, _, now, _, _) =>
      if id in b.items {
        SameEventSameRows(b.items, id, Claimed(b.items[id], now, ""));
      }
    case Skip(id, _) =>
      if id in b.items {
        SameEventSameRows(b.items, id, Unlocked(b.items[id], Skipped));
      }
    case RetryItem(_, id, _, fx, resolve, fail) =>
      RetryKeepsEvents(b.items, id, fx, resolve, fail);
  }

  lemma SameEventSameRows(items: Items, id: Id, row: Item)
    requires id in items && EventOf(row) == EventOf(items[id])
    ensures forall e :: Rows(items[id := row], e) == Rows(items, e)
  {
  }

  lemma WorkBalances(b: Books, step: Step)
    requires step.Work? && ValidStep(step) && step.fx.dlqId !in b.items && Balanced(b) && b.queue != []
    ensures Balanced(AfterWork(b, step))
    ensures AfterWork(b, step).items.Keys <= b.items.Keys + step.NewIds()
  {
    hide Rows, Effects.Succeeds, Effects.Failure, Count;
    var dto, fx := b.queue[0], step.fx;
    assert b.queue == [dto] + b.queue[1..];
    FailureIsNoSuccess(fx);
    forall e
      ensures Count(b.queue, e) == Count(b.queue[1..], e) + if e == dto then 1 else 0
      ensures Count(b.delivered + [dto], e) == Count(b.delivered, e) + if e == dto then 1 else 0
      ensures Count(b.lost + [dto], e) == Count(b.lost, e) + if e == dto then 1 else 0
      ensures fx.Failure().Some? ==>
        |Rows(b.items[fx.dlqId := NewItem(dto, fx)], e)| == |Rows(b.items, e)| + if e == dto then 1 else 0
    {
      CountedFirst(dto, b.queue[1..], e);
      Counted(b.delivered, dto, e);
      Counted(b.lost, dto, e);
      if fx.Failure().Some? {
        RowsAfterAdd(b.items, fx.dlqId, NewItem(dto, fx), e);
      }
    }
  }

  /** A retry changes no event, so it leaves the rows of every event alone. */
  lemma RetryKeepsEvents(items: Items, id: Id, fx: Effects, resolve: Update, fail: Update)
    requires fx.Valid()
    ensures forall e :: Rows(Retried(items, id, fx, resolve, fail), e) == Rows(items, e)
    ensures Retried(items, id, fx, resolve, fail).Keys == items.Keys
  {
    hide Effects.Failure;
    var after := Retried(items, id, fx, resolve, fail);
    assert forall k | k in items :: EventOf(after[k]) == EventOf(items[k]);
  }

  lemma Counted(a: seq<Event>, x: Event, e: Event)
    ensures Count(a + [x], e) == Count(a, e) + if e == x then 1 else 0
  {
  }

  lemma CountedFirst(x: Event, rest: seq<Event>, e: Event)
    ensures Count([x] + rest, e) == Count(rest, e) + if e == x then 1 else 0
  {
  }

  lemma EmptyBalances()
    ensures Balanced(EMPTY)
  {
    assert forall e :: Rows(map[], e) == {};
  }

  lemma FreshAt(kafkaEnabled: bool, steps: seq<Step>, n: nat)
    requires ValidSteps(steps) && FreshIds(steps, map[]) && n < |steps|
    ensures steps[n].NewIds() !! Play(kafkaEnabled, EMPTY, steps[..n]).items.Keys
  {
    hide Balanced, Play, ValidStep, Step.NewIds;
    EmptyBalances();
    assert forall i | 0 <= i < n :: steps[..n][i] == steps[i];
    BooksBalance(kafkaEnabled, EMPTY, steps[..n]);
  }

  // ----- Resolved rows -----

  function Resolutions(items: Items, e: Event): set<Id> {
    set id | id in items && items[id].status == Resolved && EventOf(items[id]) == e
  }

  /** Each resolved row of an event stands for a redelivery of its own. */
  ghost predicate Redelivered(b: Books) {
    forall e :: |Resolutions(b.items, e)| <= Count(b.redelivered, e)
  }

  /** A retry message carries the event of the item that it names. */
  ghost predicate TrueMessage(b: Books, step: Step) {
    step.RetryItem? && step.id in b.items ==> step.dto == EventOf(b.items[step.id])
  }

  ghost predicate TrueMessageAt(kafkaEnabled: bool, b: Books, steps: seq<Step>, i: nat)
    requires i < |steps| && ValidSteps(steps)
  {
    TrueMessage(Play(kafkaEnabled, b, steps[..i]), steps[i])
  }

  lemma TrueMessagesBefore(kafkaEnabled: bool, b: Books, steps: seq<Step>, n: nat)
    requires n <= |steps| && ValidSteps(steps)
    requires forall i | 0 <= i < |steps| :: TrueMessageAt(kafkaEnabled, b, steps, i)
    ensures forall i | 0 <= i < n :: TrueMessageAt(kafkaEnabled, b, steps[..n], i)
  {
    hide ValidStep, After, Play, TrueMessage;
    forall i | 0 <= i < n ensures TrueMessageAt(kafkaEnabled, b, steps[..n], i) {
      assert steps[..n][..i] == steps[..i];
      assert TrueMessageAt(kafkaEnabled, b, steps, i);
    }
  }

  lemma TrueMessageAtLast(kafkaEnabled: bool, b: Books, steps: seq<Step>)
    requires ValidSteps(steps) && steps != [] && TrueMessageAt(kafkaEnabled, b, steps, |steps| - 1)
    ensures TrueMessage(Play(kafkaEnabled, b, steps[..|steps| - 1]), steps[|steps| - 1])
  {
  }

  /** In every schedule each resolved row has been redelivered: no item is resolved but by a connector that
      reported success for its event. */
  lemma {:induction false} ResolvedWasRedelivered(kafkaEnabled: bool, b: Books, steps: seq<Step>)
    requires ValidSteps(steps) && FreshIds(steps, b.items) && Balanced(b) && Redelivered(b)
    requires forall i | 0 <= i < |steps| :: TrueMessageAt(kafkaEnabled, b, steps, i)
    ensures Redelivered(Play(kafkaEnabled, b, steps))
  {
    hide Balanced, Redelivered, TrueMessage, TrueMessageAt, ValidStep, After, Step.NewIds;
    if steps != [] {
      var n := |steps| - 1;
      var init := steps[..n];
      assert ValidStep(steps[n]) && TrueMessageAt(kafkaEnabled, b, steps, n);
      TrueMessagesBefore(kafkaEnabled, b, steps, n);
      TrueMessageAtLast(kafkaEnabled, b, steps);
      ResolvedWasRedelivered(kafkaEnabled, b, init);
      BooksBalance(kafkaEnabled, b, init);
      StepRedelivers(kafkaEnabled, Play(kafkaEnabled, b, init), steps[n]);
    }
  }

  lemma StepRedelivers(kafkaEnabled: bool, b: Books, step: Step)
    requires ValidStep(step) && step.NewIds() !! b.items.Keys && Redelivered(b) && TrueMessage(b, step)
    ensures Redelivered(After(kafkaEnabled, b, step))
  {
    hide Effects.Succeeds, Effects.Failure, Count, Locking.Answer, Resolutions;
    forall e
      ensures |Resolutions(After(kafkaEnabled, b, step).items, e)| <= Count(After(kafkaEnabled, b, step).redelivered, e)
    {
      assert |Resolutions(b.items, e)| <= Count(b.redelivered, e);
      match step
      case Webhook(_, _, _, _, _) =>
      case Work(_, fx) =>
        if b.queue != [] && fx.Failure().Some? {
          NoneMoreResolved(b.items, fx.dlqId, NewItem(b.queue[0], fx), e);
        }
      case Claim(id, _, now, _, _) =>
        if id in b.items {
          NoneMoreResolved(b.items, id, Claimed(b.items[id], now, ""), e);
        }
      case Skip(id, _) =>
        if id in b.items {
          NoneMoreResolved(b.items, id, Unlocked(b.items[id], Skipped), e);
        }
      case RetryItem(dto, id, _, fx, resolve, fail) =>
        Counted(b.redelivered, dto, e);
        assert b.redelivered + [] == b.redelivered;
        FailureIsNoSuccess(fx);
        if id in b.items {
          RetryResolvesOne(b.items, id, fx, resolve, fail, e);
        }
    }
  }

  lemma NoneMoreResolved(items: Items, id: Id, row: Item, e: Event)
    requires row.status != Resolved
    ensures |Resolutions(items[id := row], e)| <= |Resolutions(items, e)|
  {
    SubsetIsSmaller(Resolutions(items[id := row], e), Resolutions(items, e));
  }

  lemma SubsetIsSmaller(a: set<Id>, b: set<Id>)
    requires a <= b
    ensures |a| <= |b|
  {
    assert b == a + (b - a);
  }

  lemma OnlySuccessResolves(row: Item, fx: Effects, resolve: Update, fail: Update)
    requires fx.Valid()
    ensures var after := RetriedRow(row, fx, resolve, fail);
      EventOf(after) == EventOf(row) && (after.status == Resolved && row.status != Resolved ==> fx.Failure() == None)
  {
    hide Effects.Failure;
  }

  /** A retry resolves at most its own item, and only when the connector reported success. */
  lemma RetryResolvesOne(items: Items, id: Id, fx: Effects, resolve: Update, fail: Update, e: Event)
    requires fx.Valid() && id in items
    ensures |Resolutions(Retried(items, id, fx, resolve, fail), e)|
      <= |Resolutions(items, e)| + if fx.Failure() == None && e == EventOf(items[id]) then 1 else 0
  {
    hide Effects.Failure, RetriedRow;
    OnlySuccessResolves(items[id], fx, resolve, fail);
    var after := Retried(items, id, fx, resolve, fail);
    if fx.Failure() == None && e == EventOf(items[id]) {
      SubsetIsSmaller(Resolutions(after, e), Resolutions(items, e) + {id});
    } else {
      SubsetIsSmaller(Resolutions(after, e), Resolutions(items, e));
    }
  }

  // ----- Once per time to live -----

  /** The step is a webhook that is answered as processed. */
  ghost predicate Accepts(kafkaEnabled: bool, b: Books, step: Step)
    requires ValidStep(step)
  {
    step.Webhook? && step.locking.Answer(b.table, step.keys) == Taken && kafkaEnabled && step.sends.queuedOk
  }

  function Deadline(step: Step): int
    requires step.Webhook?
  {
    step.locking.now + DEFAULT_TTL_SECONDS * 1000
  }

  /** Webhooks one after the other, whose lock keys tell different events apart, while each asks for the key that
      an earlier one of the same event locked: the keyring grows or is reordered. */
  ghost predicate Orderly(steps: seq<Step>) {
    forall i, j | 0 <= i < j < |steps| && steps[i].Webhook? && steps[j].Webhook? ::
      && steps[i].locking.later <= steps[j].locking.now
      && (steps[i].keys != [] ==>
            if steps[i].dto == steps[j].dto then steps[i].keys[0] in steps[j].keys
            else forall k | k in steps[i].keys :: k !in steps[j].keys)
  }

  ghost predicate HoldsLock(b: Books, step: Step)
    requires step.Webhook? && step.keys != []
  {
    step.keys[0] in b.table && b.table[step.keys[0]].expiresAt == Deadline(step)
  }

  /** The row of an accepted event outlives every step that ends before its deadline. */
  lemma LockOutlivesStep(kafkaEnabled: bool, b: Books, step: Step, accepted: Step)
    requires ValidStep(step) && ValidStep(accepted) && accepted.Webhook? && HoldsLock(b, accepted)
    requires step.Webhook? ==>
      && step.locking.now < Deadline(accepted)
      && if accepted.dto == step.dto then accepted.keys[0] in step.keys else accepted.keys[0] !in step.keys
    ensures HoldsLock(After(kafkaEnabled, b, step), accepted)
    ensures step.Webhook? && accepted.dto == step.dto ==> !Accepts(kafkaEnabled, b, step)
  {
    hide Effects.Valid, Effects.Succeeds, Effects.Failure, Parked, Retried, ClaimWins;
    if step.Webhook? {
      assert Live(b.table, accepted.keys[0], step.locking.now);
    }
  }

  lemma {:induction false} LockStays(kafkaEnabled: bool, b: Books, steps: seq<Step>, i: nat, n: nat)
    requires ValidSteps(steps) && Orderly(steps) && i < n <= |steps|
    requires Accepts(kafkaEnabled, Play(kafkaEnabled, b, steps[..i]), steps[i])
    requires forall m | i < m < n && steps[m].Webhook? :: steps[m].locking.now < Deadline(steps[i])
    ensures HoldsLock(Play(kafkaEnabled, b, steps[..n]), steps[i])
  {
    hide After, HoldsLock, Accepts, ValidStep;
    assert steps[..n][..n - 1] == steps[..n - 1] && ValidStep(steps[n - 1]) && ValidStep(steps[i]);
    if n == i + 1 {
      AcceptedHoldsLock(kafkaEnabled, Play(kafkaEnabled, b, steps[..i]), steps[i]);
    } else {
      LockStays(kafkaEnabled, b, steps, i, n - 1);
      AcceptedIsWebhook(kafkaEnabled, Play(kafkaEnabled, b, steps[..i]), steps[i]);
      LockOutlivesStep(kafkaEnabled, Play(kafkaEnabled, b, steps[..n - 1]), steps[n - 1], steps[i]);
    }
  }

  lemma AcceptedIsWebhook(kafkaEnabled: bool, b: Books, step: Step)
    requires ValidStep(step) && Accepts(kafkaEnabled, b, step)
    ensures step.Webhook? && step.keys != [] && step.keys[0] in step.keys
  {
  }

  lemma AcceptedHoldsLock(kafkaEnabled: bool, b: Books, step: Step)
    requires ValidStep(step) && Accepts(kafkaEnabled, b, step)
    ensures step.Webhook? && step.keys != [] && HoldsLock(After(kafkaEnabled, b, step), step)
  {
    hide Effects.Valid;
    assert step.keys[0] in step.keys;
  }

  /** One event is accepted at most once an hour, which is the time to live of its lock, whatever else happens in
      the schedule. */
  lemma AcceptedOncePerTtl(kafkaEnabled: bool, b: Books, steps: seq<Step>, i: nat, j: nat)
    requires ValidSteps(steps) && Orderly(steps) && i < j < |steps|
    requires Accepts(kafkaEnabled, Play(kafkaEnabled, b, steps[..i]), steps[i])
    requires Accepts(kafkaEnabled, Play(kafkaEnabled, b, steps[..j]), steps[j])
    requires steps[i].dto == steps[j].dto
    ensures steps[j].locking.now >= steps[i].locking.now + 3_600_000
  {
    hide Play, After, HoldsLock, Accepts;
    assert ValidStep(steps[i]) && ValidStep(steps[j]);
    AcceptedIsWebhook(kafkaEnabled, Play(kafkaEnabled, b, steps[..i]), steps[i]);
    AcceptedIsWebhook(kafkaEnabled, Play(kafkaEnabled, b, steps[..j]), steps[j]);
    if steps[j].locking.now < Deadline(steps[i]) {
      forall m | i < m < j && steps[m].Webhook? ensures steps[m].locking.now < Deadline(steps[i]) {
        assert ValidStep(steps[m]);
      }
      LockStays(kafkaEnabled, b, steps, i, j);
      LockOutlivesStep(kafkaEnabled, Play(kafkaEnabled, b, steps[..j]), steps[j], steps[i]);
    }
  }
}
