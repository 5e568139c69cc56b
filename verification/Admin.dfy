/** Retrying dead-letter items by hand, one or many. */
module Admin {
  import opened Json
  import opened Retry
  import opened Dlq
  import opened Processing

  /** What the surroundings decide while one item is retried: its lease and the clock, whether the item and
      its policy can be read, whether the claim reaches the database and is counted, whether the payload
      decodes, whether Kafka takes the message, and, when the item is processed on the spot, the effects of
      that and the fates of the two updates after it. */
  datatype Surroundings = Surroundings(
    leaseSeconds: int, now: int, readable: bool, claim: Update, decodes: bool, sent: bool,
    fx: Effects, resolve: Update, fail: Update)

  datatype Fate = Queued | Skipped | Errored

  class AdminService {
    const processing: ProcessingService
    const kafkaEnabled: bool
    var retryTopic: seq<Id>

    constructor (processing: ProcessingService, kafkaEnabled: bool)
      ensures this.processing == processing && this.kafkaEnabled == kafkaEnabled && retryTopic == []
    {
      this.processing, this.kafkaEnabled, retryTopic := processing, kafkaEnabled, [];
    }

    predicate Claims(items: Items, id: Id, s: Surroundings) {
      ClaimWins(items, id, s.leaseSeconds, s.now, s.readable, s.claim)
    }

    /** What becomes of an item, going by its row before anything happens. A claim that throws is an error,
        whether or not the item could have been claimed. */
    ghost function FateOf(items: Items, id: Id, s: Surroundings): Fate {
      if !s.readable || !s.claim.written then Errored
      else if !Claims(items, id, s) then Fate.Skipped
      else if s.claim.counted && GoesThrough(s) then Queued
      else Errored
    }

    /** The retry of a claimed item does not throw. */
    ghost predicate GoesThrough(s: Surroundings) {
      s.decodes && if kafkaEnabled then s.sent else s.fx.Succeeds() && s.resolve.written && s.resolve.counted
    }

    /** The row of an item that is in the queue, after one round. A row handed to Kafka stays claimed for the
        worker; so does one whose payload or message fails, until its lease has passed. */
    ghost function RowAfter(items: Items, id: Id, s: Surroundings): Item
      requires id in items && s.fx.Valid()
    {
      if !Claims(items, id, s) then items[id]
      else
        var claimed := Claimed(items[id], s.now, "");
        if !s.claim.counted || kafkaEnabled || !s.decodes then claimed
        else RetriedRow(claimed, s.fx, s.resolve, s.fail)
    }

    ghost function IndicesOf(fate: Fate, items: Items, ids: seq<Id>, s: nat -> Surroundings, n: nat): set<nat>
      requires n <= |ids|
    {
      set i: nat | i < n && FateOf(items, ids[i], s(i)) == fate
    }

    /** The retry of a claimed item. */
    method RetryItem(id: Id, s: Surroundings) returns (threw: bool)
      requires s.fx.Valid() && id in processing.dlq.items
      modifies this, processing, processing.dlq
      ensures threw <==> !GoesThrough(s)
      ensures processing.dlq.items == if kafkaEnabled || !s.decodes then old(processing.dlq.items)
                                      else Retried(old(processing.dlq.items), id, s.fx, s.resolve, s.fail)
      ensures retryTopic == old(retryTopic) + if kafkaEnabled && !threw then [id] else []
      ensures processing.delivered == old(processing.delivered)
      ensures processing.redelivered == old(processing.redelivered)
        + if s.decodes && !kafkaEnabled && s.fx.Succeeds() then [EventOf(old(processing.dlq.items[id]))] else []
    {
      if !s.decodes {
        return true;
      }
      if kafkaEnabled {
        if s.sent {
          retryTopic := retryTopic + [id];
        }
        return !s.sent;
      }
      var item := processing.dlq.items[id];
      var out := processing.ProcessRetry(EventOf(item), id, s.fx, s.resolve, s.fail);
      return out.Thrown?;
    }

    /** One item by hand. It throws unless the item is claimable and its retry goes all the way. */
    method Retry(id: Id, s: Surroundings, countedAgain: bool) returns (threw: bool)
      requires s.fx.Valid()
      modifies this, processing, processing.dlq
      ensures threw <==> old(FateOf(processing.dlq.items, id, s)) != Queued || !countedAgain
      ensures processing.dlq.items == if id in old(processing.dlq.items)
        then old(processing.dlq.items)[id := old(RowAfter(processing.dlq.items, id, s))] else old(processing.dlq.items)
    {
      var fate := ClaimAndRetry(id, s);
      if fate != Queued {
        return true;
      }
      threw := processing.dlq.UpdateMetrics(countedAgain);
    }

    /** Claiming an item and retrying it, told apart by where it stops. */
    method ClaimAndRetry(id: Id, s: Surroundings) returns (fate: Fate)
      requires s.fx.Valid()
      modifies this, processing, processing.dlq
      ensures fate == old(FateOf(processing.dlq.items, id, s))
      ensures processing.dlq.items == if id in old(processing.dlq.items)
        then old(processing.dlq.items)[id := old(RowAfter(processing.dlq.items, id, s))] else old(processing.dlq.items)
    {
      var claim := processing.dlq.Retry(id, s.leaseSeconds, s.now, "", s.readable, s.claim);
      match claim
      case Lost => return Fate.Skipped;
      case ClaimThrew => return Errored;
      case Won =>
        var threw := RetryItem(id, s);
        return if threw then Errored else Queued;
    }

    /** `ids` are the rows the query returned. Every one of them is counted once, by what became of it, and its
        row is as one round leaves it; one failure does not stop the others. Only the count at the end can
        make the whole call throw, and then its answer is lost. */
    method RetryMany(ids: seq<Id>, s: nat -> Surroundings, countedAgain: bool)
      returns (threw: bool, requested: nat, queued: nat, skipped: nat, errors: seq<Id>)
      requires forall i, j | 0 <= i < j < |ids| :: ids[i] != ids[j]
      requires forall i :: s(i).fx.Valid()
      modifies this, processing, processing.dlq
      ensures threw <==> !countedAgain
      ensures !threw ==> processing.dlq.gauge == Counts(processing.dlq.items)
      ensures requested == |ids| == queued + skipped + |errors|
      ensures queued == |IndicesOf(Queued, old(processing.dlq.items), ids, s, |ids|)|
      ensures skipped == |IndicesOf(Fate.Skipped, old(processing.dlq.items), ids, s, |ids|)|
      ensures forall id :: id in errors <==>
        exists i: nat :: i < |ids| && ids[i] == id && FateOf(old(processing.dlq.items), ids[i], s(i)) == Errored
      ensures processing.dlq.items.Keys == old(processing.dlq.items.Keys)
      ensures forall i: nat | i < |ids| && ids[i] in processing.dlq.items ::
        processing.dlq.items[ids[i]] == RowAfter(old(processing.dlq.items), ids[i], s(i))
      ensures forall id | id in processing.dlq.items && id !in ids ::
        processing.dlq.items[id] == old(processing.dlq.items)[id]
    {
      hide Effects.Valid, FateOf, IndicesOf, RowAfter;
      queued, skipped, errors := 0, 0, [];
      ghost var before := processing.dlq.items;
      NoIndices(before, ids, s);
      for i := 0 to |ids|
        invariant i == queued + skipped + |errors|
        invariant queued == |IndicesOf(Queued, before, ids, s, i)|
        invariant skipped == |IndicesOf(Fate.Skipped, before, ids, s, i)|
        invariant forall id :: id in errors <==>
          exists j: nat :: j < i && ids[j] == id && FateOf(before, ids[j], s(j)) == Errored
        invariant processing.dlq.items.Keys == before.Keys
        invariant forall id | id in before && (forall j | 0 <= j < i :: ids[j] != id) ::
          processing.dlq.items[id] == before[id]
        invariant forall j: nat | j < i && ids[j] in before ::
          processing.dlq.items[ids[j]] == RowAfter(before, ids[j], s(j))
      {
        var id := ids[i];
        OneMoreIndex(before, ids, s, i);
        FollowsRow(before, processing.dlq.items, id, s(i));
        var fate := ClaimAndRetry(id, s(i));
        assert fate == FateOf(before, ids[i], s(i));
        match fate {
          case Skipped => skipped := skipped + 1;
          case Queued => queued := queued + 1;
          case Errored => errors := errors + [id];
        }
      }
      requested := |ids|;
      threw := processing.dlq.UpdateMetrics(countedAgain);
    }

    /** Exactly the claimed rows gain a retry, whatever their fate. */
    lemma ClaimsAreCounted(items: Items, id: Id, s: Surroundings)
      requires id in items && s.fx.Valid()
      ensures RowAfter(items, id, s).retryCount == items[id].retryCount + if Claims(items, id, s) then 1 else 0
      ensures FateOf(items, id, s) == Queued ==> Claims(items, id, s)
      ensures FateOf(items, id, s) == Fate.Skipped ==> RowAfter(items, id, s) == items[id]
    {
    }

    lemma FollowsRow(a: Items, b: Items, id: Id, s: Surroundings)
      requires s.fx.Valid()
      requires id in a <==> id in b
      requires id in a ==> a[id] == b[id]
      ensures FateOf(a, id, s) == FateOf(b, id, s)
      ensures id in a ==> RowAfter(a, id, s) == RowAfter(b, id, s)
    {
    }

    lemma NoIndices(items: Items, ids: seq<Id>, s: nat -> Surroundings)
      ensures forall fate :: IndicesOf(fate, items, ids, s, 0) == {}
    {
    }

    lemma OneMoreIndex(items: Items, ids: seq<Id>, s: nat -> Surroundings, n: nat)
      requires n < |ids|
      ensures forall fate ::
        |IndicesOf(fate, items, ids, s, n + 1)|
        == |IndicesOf(fate, items, ids, s, n)| + if FateOf(items, ids[n], s(n)) == fate then 1 else 0
    {
      hide FateOf;
      forall fate
        ensures |IndicesOf(fate, items, ids, s, n + 1)|
          == |IndicesOf(fate, items, ids, s, n)| + if FateOf(items, ids[n], s(n)) == fate then 1 else 0
      {
        assert IndicesOf(fate, items, ids, s, n + 1)
          == IndicesOf(fate, items, ids, s, n) + if FateOf(items, ids[n], s(n)) == fate then {n} else {};
      }
    }
  }

  /** The number of rows a query may return, from what the caller asked for. */
  function Limit(value: Option<int>, defaultValue: nat, maxValue: nat): (n: nat)
    requires 0 < defaultValue <= maxValue
    ensures 0 < n <= maxValue
    ensures value.Some? && 0 < value.value <= maxValue ==> n == value.value
    ensures value.Some? && value.value > maxValue ==> n == maxValue
    ensures value.None? || value.value <= 0 ==> n == defaultValue
  {
    if value == None || value.value <= 0 then defaultValue else Min(value.value, maxValue)
  }
}
