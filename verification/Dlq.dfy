/** The dead-letter queue: its rows, the retry lease on them, and the size gauge. */
module Dlq {
  import opened Json

  type Id = string

  datatype Status = Pending | Retrying | Skipped | Resolved

  const STATUSES := [Pending, Retrying, Skipped, Resolved]

  datatype Item = Item(
    eventId: string, targetSystem: string, error: string, retryCount: nat,
    status: Status, lockedAt: Option<int>, lockedBy: Option<string>)

  type Items = map<Id, Item>

  /** The guard of the claiming update. */
  predicate Claimable(item: Item, now: int, leaseSeconds: int) {
    && item.status != Skipped && item.status != Resolved
    && (item.status != Retrying || item.lockedAt == None || item.lockedAt.value < now - leaseSeconds * 1000)
  }

  function Claimed(item: Item, now: int, worker: string): Item {
    item.(status := Retrying, retryCount := item.retryCount + 1, lockedAt := Some(now), lockedBy := Some(worker))
  }

  function Unlocked(item: Item, status: Status): Item {
    item.(status := status, lockedAt := None, lockedBy := None)
  }

  /** Whether an update reaches the database, and whether the count after it works. */
  datatype Update = Update(written: bool, counted: bool)

  /** The answer to a claim: it can also throw, before the row is claimed or after. */
  datatype Claim = Won | Lost | ClaimThrew

  predicate ClaimWins(items: Items, id: Id, leaseSeconds: int, now: int, readable: bool, update: Update) {
    readable && update.written && id in items && Claimable(items[id], now, leaseSeconds)
  }

  function WithStatus(items: Items, status: Status): set<Id> {
    set id | id in items && items[id].status == status
  }

  class DlqService {
    var items: Items
    var gauge: map<Status, nat>

    constructor ()
      ensures items == map[] && gauge == map[]
    {
      items, gauge := map[], map[];
    }

    /** `written` and `counted` say whether the insert and the count succeed: the call can fail after the row exists. */
    method Add(id: Id, eventId: string, targetSystem: string, error: string, retryCount: nat,
               written: bool, counted: bool) returns (threw: bool)
      requires id !in items
      modifies this
      ensures threw <==> !(written && counted)
      ensures items == if written then
          old(items)[id := Item(eventId, targetSystem, error, retryCount, Pending, None, None)]
        else old(items)
      ensures gauge == if threw then old(gauge) else Counts(items)
    {
      if !written {
        return true;
      }
      items := items[id := Item(eventId, targetSystem, error, retryCount, Pending, None, None)];
      threw := UpdateMetrics(counted);
    }

    /** The lease comes from the target's policy or the default; `now` was read just before the update.
        `readable` says whether the row and the policy can be read. An exception leaves the row claimed
        exactly when only the count after the claim failed. */
    method Retry(
        id: Id, leaseSeconds: int, now: int, worker: string, readable: bool, update: Update) returns (claim: Claim)
      modifies this
      ensures claim == Won <==> ClaimWins(old(items), id, leaseSeconds, now, readable, update) && update.counted
      ensures claim == ClaimThrew <==>
        !readable || !update.written
        || (ClaimWins(old(items), id, leaseSeconds, now, readable, update) && !update.counted)
      ensures items == if ClaimWins(old(items), id, leaseSeconds, now, readable, update)
        then old(items)[id := old(items)[id].(status := Retrying, retryCount := old(items)[id].retryCount + 1,
                                              lockedAt := Some(now), lockedBy := Some(worker))]
        else old(items)
      ensures gauge == if claim == Won then Counts(items) else old(gauge)
    {
      if !readable || !update.written {
        return ClaimThrew;
      }
      if id !in items || !Claimable(items[id], now, leaseSeconds) {
        return Lost;
      }
      items := items[id := Claimed(items[id], now, worker)];
      var threw := UpdateMetrics(update.counted);
      return if threw then ClaimThrew else Won;
    }

    method Skip(id: Id, update: Update) returns (threw: bool)
      modifies this
      ensures items ==
        if id in old(items) && update.written
        then old(items)[id := old(items)[id].(status := Skipped, lockedAt := None, lockedBy := None)] else old(items)
      ensures threw <==> !(id in old(items) && update.written && update.counted)
      ensures gauge == if threw then old(gauge) else Counts(items)
    {
      threw := SetStatus(id, Skipped, None, update);
    }

    method Resolve(id: Id, update: Update) returns (threw: bool)
      modifies this
      ensures items ==
        if id in old(items) && update.written
        then old(items)[id := old(items)[id].(status := Resolved, lockedAt := None, lockedBy := None)] else old(items)
      ensures threw <==> !(id in old(items) && update.written && update.counted)
      ensures gauge == if threw then old(gauge) else Counts(items)
    {
      threw := SetStatus(id, Resolved, None, update);
    }

    method MarkRetryFailed(id: Id, error: string, update: Update) returns (threw: bool)
      modifies this
      ensures items == if id in old(items) && update.written then
          old(items)[id := old(items)[id].(status := Pending, lockedAt := None, lockedBy := None, error := error)]
        else old(items)
      ensures threw <==> !(id in old(items) && update.written && update.counted)
      ensures gauge == if threw then old(gauge) else Counts(items)
    {
      threw := SetStatus(id, Pending, Some(error), update);
    }

    /** An unconditional update: nothing checks who holds the lease. A missing row is an error. */
    method SetStatus(id: Id, status: Status, error: Option<string>, update: Update) returns (threw: bool)
      modifies this
      ensures items == if id in old(items) && update.written then
          old(items)[id := Unlocked(old(items)[id], status).(
            error := if error.Some? then error.value else old(items)[id].error)]
        else old(items)
      ensures threw <==> !(id in old(items) && update.written && update.counted)
      ensures gauge == if threw then old(gauge) else Counts(items)
    {
      if id !in items || !update.written {
        return true;
      }
      var item := Unlocked(items[id], status);
      items := items[id := if error.Some? then item.(error := error.value) else item];
      threw := UpdateMetrics(update.counted);
    }

    method UpdateMetrics(counted: bool) returns (threw: bool)
      modifies this`gauge
      ensures threw <==> !counted
      ensures gauge == if counted then Counts(items) else old(gauge)
    {
      if !counted {
        return true;
      }
      var next := gauge;
      for i := 0 to |STATUSES|
        invariant forall j | 0 <= j < i :: STATUSES[j] in next && next[STATUSES[j]] == |WithStatus(items, STATUSES[j])|
      {
        next := next[STATUSES[i] := |WithStatus(items, STATUSES[i])|];
      }
      forall s: Status
        ensures s in next && next[s] == |WithStatus(items, s)|
      {
        assert s == STATUSES[0] || s == STATUSES[1] || s == STATUSES[2] || s == STATUSES[3];
      }
      assert next == Counts(items);
      gauge := next;
      return false;
    }
  }

  function Counts(items: Items): map<Status, nat> {
    map s: Status | true :: |WithStatus(items, s)|
  }

  /** The four gauge values add up to the size of the queue. */
  lemma CountsCoverQueue(items: Items)
    ensures var c := Counts(items); c[Pending] + c[Retrying] + c[Skipped] + c[Resolved] == |items|
  {
    var p, r := WithStatus(items, Pending), WithStatus(items, Retrying);
    var s, v := WithStatus(items, Skipped), WithStatus(items, Resolved);
    assert items.Keys == p + r + s + v;
    DisjointSum(p, r);
    DisjointSum(p + r, s);
    DisjointSum(p + r + s, v);
  }

  lemma DisjointSum(a: set<Id>, b: set<Id>)
    requires a !! b
    ensures |a + b| == |a| + |b|
  {
  }
}
