/** Any number of workers and admins acting on the dead-letter queue, one database call at a time. */
module DlqProtocol {
  import opened Json
  import opened Dlq

  type Worker = nat

  /** A worker that claimed an item and has not finished with it; `since` is the time its claim recorded. */
  datatype Claim = Claim(id: Id, since: int)

  datatype State = State(now: int, items: Items, busy: map<Worker, Claim>)

  /** `sampled` is when the claimer read the clock, at or before the update itself. A worker keeps its claim
      after resolving the item, because an error behind the update makes it mark the retry failed. `Leave` is
      the end of a call, by return, exception or crash. An update that fails is no step at all. */
  datatype Step =
    | Add(id: Id, item: Item)
    | Retry(w: Worker, id: Id, sampled: int, leaseSeconds: int)
    | Skip(id: Id)
    | Resolve(w: Worker)
    | MarkRetryFailed(w: Worker, error: string)
    | Leave(w: Worker)
    | Tick(ms: nat)

  predicate Enabled(s: State, step: Step) {
    match step
    case Add(id, item) => id !in s.items && item.status == Pending && item.lockedAt == None && item.lockedBy == None
    case Retry(w, _, sampled, _) => w !in s.busy && sampled <= s.now
    case Skip(id) => id in s.items
    case Resolve(w) => w in s.busy && s.busy[w].id in s.items
    case MarkRetryFailed(w, _) => w in s.busy && s.busy[w].id in s.items
    case Leave(w) => w in s.busy
    case Tick(_) => true
  }

  predicate ClaimSucceeds(s: State, step: Step) {
    step.Retry? && step.id in s.items && Claimable(s.items[step.id], step.sampled, step.leaseSeconds)
  }

  function Next(s: State, step: Step): State
    requires Enabled(s, step)
  {
    match step
    case Add(id, item) => s.(items := s.items[id := item])
    case Retry(w, id, sampled, leaseSeconds) =>
      if ClaimSucceeds(s, step) then
        s.(items := s.items[id := Claimed(s.items[id], sampled, "")], busy := s.busy[w := Claim(id, sampled)])
      else s
    case Skip(id) => s.(items := s.items[id := Unlocked(s.items[id], Skipped)])
    case Resolve(w) =>
      var id := s.busy[w].id;
      s.(items := s.items[id := Unlocked(s.items[id], Resolved)])
    case MarkRetryFailed(w, error) =>
      var id := s.busy[w].id;
      s.(items := s.items[id := Unlocked(s.items[id], Pending).(error := error)], busy := s.busy - {w})
    case Leave(w) => s.(busy := s.busy - {w})
    case Tick(ms) => s.(now := s.now + ms)
  }

  predicate Follows(states: seq<State>, steps: seq<Step>) {
    |states| == |steps| + 1
    && forall i | 0 <= i < |steps| :: Enabled(states[i], steps[i]) && states[i + 1] == Next(states[i], steps[i])
  }

  predicate Interleaving(states: seq<State>, steps: seq<Step>) {
    Follows(states, steps) && states[0].items == map[] && states[0].busy == map[]
  }

  // ----- What holds in every interleaving -----

  predicate Consistent(s: State) {
    && (forall id | id in s.items ::
          && (s.items[id].lockedAt.Some? <==> s.items[id].status == Retrying)
          && (s.items[id].lockedBy.Some? <==> s.items[id].status == Retrying))
    && (forall w | w in s.busy :: s.busy[w].id in s.items)
  }

  function SuccessfulClaims(states: seq<State>, steps: seq<Step>, id: Id, n: nat): nat
    requires n <= |steps| <= |states|
  {
    if n == 0 then 0
    else
      var last := if ClaimSucceeds(states[n - 1], steps[n - 1]) && steps[n - 1].id == id then 1 else 0;
      SuccessfulClaims(states, steps, id, n - 1) + last
  }

  function AddedRetryCount(steps: seq<Step>, id: Id, n: nat): nat
    requires n <= |steps|
  {
    if n == 0 then 0
    else if steps[n - 1].Add? && steps[n - 1].id == id then steps[n - 1].item.retryCount
    else AddedRetryCount(steps, id, n - 1)
  }

  /** A row records a lock time and a holder exactly while it is being retried, and its retry count is the one it was
      created with plus the number of claims that succeeded on it. */
  lemma {:induction false} RowsAreConsistent(states: seq<State>, steps: seq<Step>, n: nat)
    requires Interleaving(states, steps) && n < |states|
    ensures Consistent(states[n])
    ensures forall id | id in states[n].items ::
      states[n].items[id].retryCount == AddedRetryCount(steps, id, n) + SuccessfulClaims(states, steps, id, n)
    ensures forall id | id !in states[n].items :: SuccessfulClaims(states, steps, id, n) == 0
  {
    if n > 0 {
      RowsAreConsistent(states, steps, n - 1);
      assert states[n] == Next(states[n - 1], steps[n - 1]);
    }
  }

  predicate Ended(s: State, id: Id) {
    id in s.items && (s.items[id].status == Skipped || s.items[id].status == Resolved)
  }

  predicate Unclaimed(s: State, id: Id) {
    forall w | w in s.busy :: s.busy[w].id != id
  }

  /** An item that is skipped or resolved, and that nobody is working on, stays so for ever. */
  lemma {:induction false} ClosedForever(states: seq<State>, steps: seq<Step>, id: Id, n: nat)
    requires Follows(states, steps) && n < |states| && Ended(states[0], id) && Unclaimed(states[0], id)
    ensures Ended(states[n], id) && Unclaimed(states[n], id)
  {
    if n > 0 {
      ClosedForever(states, steps, id, n - 1);
      assert states[n] == Next(states[n - 1], steps[n - 1]);
    }
  }

  predicate EndedAtLast(states: seq<State>, steps: seq<Step>, id: Id) {
    Follows(states, steps) ==> Ended(states[|steps|], id)
  }

  /** A skip or a resolution is final, whatever happens next, if and only if no claim on the item is
      outstanding: a worker that still holds one can fail and make it pending again. */
  lemma EndIsFinalIffUnclaimed(states: seq<State>, steps: seq<Step>, id: Id)
    requires Interleaving(states, steps) && Ended(states[|steps|], id)
    ensures Unclaimed(states[|steps|], id) <==>
      forall later: seq<State>, more: seq<Step> ::
        (later != [] && later[0] == states[|steps|] ==> EndedAtLast(later, more, id))
  {
    var s := states[|steps|];
    if Unclaimed(s, id) {
      forall later: seq<State>, more: seq<Step> | later != [] && later[0] == s && Follows(later, more)
        ensures Ended(later[|more|], id)
      {
        ClosedForever(later, more, id, |more|);
      }
    } else {
      var w :| w in s.busy && s.busy[w].id == id;
      var fail := MarkRetryFailed(w, "");
      var later, more := [s, Next(s, fail)], [fail];
      assert Follows(later, more) && !Ended(later[|more|], id);
      assert !EndedAtLast(later, more, id);
    }
  }

  /** Such an end can be reached: a skip during a retry, and a resolution whose count fails. */
  lemma SkipDuringRetryIsUndone(id: Id, item: Item, now: int, leaseSeconds: int, error: string, ending: Step)
    returns (states: seq<State>, steps: seq<Step>)
    requires item.status == Pending && item.lockedAt == None && item.lockedBy == None
    requires ending == Skip(id) || ending == Resolve(0)
    ensures Interleaving(states, steps) && |steps| == 4 && steps[2] == ending && Ended(states[3], id)
    ensures id in states[4].items && states[4].items[id].status == Pending
  {
    steps := [Add(id, item), Retry(0, id, now, leaseSeconds), ending, MarkRetryFailed(0, error)];
    var s0 := State(now, map[], map[]);
    var s1 := Next(s0, steps[0]);
    var s2 := Next(s1, steps[1]);
    var s3 := Next(s2, steps[2]);
    states := [s0, s1, s2, s3, Next(s3, steps[3])];
  }

  // ----- Exclusion by the lease -----

  predicate LeasesAtLeast(steps: seq<Step>, seconds: nat) {
    forall i | 0 <= i < |steps| && steps[i].Retry? :: steps[i].leaseSeconds >= seconds
  }

  /** Every claim still being worked on is within the given time. */
  predicate InTime(s: State, seconds: nat) {
    forall w | w in s.busy :: s.now <= s.busy[w].since + seconds * 1000
  }

  /** A claimed item is still locked by its claim, unless it has been skipped or its worker has resolved it. */
  predicate Exclusive(s: State) {
    && (forall w | w in s.busy :: s.busy[w].id in s.items &&
          (Ended(s, s.busy[w].id)
           || (s.items[s.busy[w].id].status == Retrying && s.items[s.busy[w].id].lockedAt == Some(s.busy[w].since))))
    && (forall v, w | v in s.busy && w in s.busy && s.busy[v].id == s.busy[w].id :: v == w)
  }

  lemma StepKeepsExclusive(s: State, step: Step, seconds: nat)
    requires Enabled(s, step) && Exclusive(s) && InTime(s, seconds)
    requires step.Retry? ==> step.leaseSeconds >= seconds
    ensures Exclusive(Next(s, step))
  {
    if ClaimSucceeds(s, step) {
      forall v | v in s.busy
        ensures s.busy[v].id != step.id
      {
        assert step.sampled - step.leaseSeconds * 1000 <= s.busy[v].since;
      }
    }
  }

  /** If every claim is finished within the smallest lease in force, no two workers ever process the same
      item at once, whatever is skipped, left or resolved meanwhile. */
  lemma {:induction false} OneWorkerPerItem(states: seq<State>, steps: seq<Step>, seconds: nat, n: nat)
    requires Interleaving(states, steps) && LeasesAtLeast(steps, seconds) && n < |states|
    requires forall i | 0 <= i < n :: InTime(states[i], seconds)
    ensures Exclusive(states[n])
  {
    if n > 0 {
      OneWorkerPerItem(states, steps, seconds, n - 1);
      StepKeepsExclusive(states[n - 1], steps[n - 1], seconds);
    }
  }

  /** Up to the moment when a worker is late, a second one can claim its item exactly when the item is neither
      skipped nor resolved and the second one's lease has passed since the first one's claim. */
  lemma JoinedIffLate(states: seq<State>, steps: seq<Step>, seconds: nat, w: Worker, v: Worker, leaseSeconds: int)
    requires Interleaving(states, steps) && LeasesAtLeast(steps, seconds)
    requires forall i | 0 <= i < |steps| :: InTime(states[i], seconds)
    requires var s := states[|steps|]; w in s.busy && v !in s.busy
    ensures var s := states[|steps|];
      ClaimSucceeds(s, Retry(v, s.busy[w].id, s.now, leaseSeconds)) <==>
        !Ended(s, s.busy[w].id) && s.busy[w].since + leaseSeconds * 1000 < s.now
  {
    OneWorkerPerItem(states, steps, seconds, |steps|);
  }

  /** The lease matters: a worker one millisecond over it can be joined by a second one. */
  lemma LateWorkerIsJoined(id: Id, item: Item, now: int, leaseSeconds: nat)
    returns (states: seq<State>, steps: seq<Step>)
    requires item.status == Pending && item.lockedAt == None && item.lockedBy == None
    ensures Interleaving(states, steps) && LeasesAtLeast(steps, leaseSeconds)
    ensures var last := states[|steps|];
      last.now == now + leaseSeconds * 1000 + 1 && last.busy == map[0 := Claim(id, now), 1 := Claim(id, last.now)]
  {
    var late := leaseSeconds * 1000 + 1;
    steps := [Add(id, item), Retry(0, id, now, leaseSeconds), Tick(late), Retry(1, id, now + late, leaseSeconds)];
    var s0 := State(now, map[], map[]);
    var s1 := Next(s0, steps[0]);
    var s2 := Next(s1, steps[1]);
    var s3 := Next(s2, steps[2]);
    states := [s0, s1, s2, s3, Next(s3, steps[3])];
  }

  /** An item whose worker is gone can be claimed again as soon as, and not before, its lease has passed. */
  lemma AbandonedItemIsClaimableAgain(
      states: seq<State>, steps: seq<Step>, n: nat, w: Worker, id: Id, leaseSeconds: int)
    requires Interleaving(states, steps) && n < |states|
    requires w !in states[n].busy && id in states[n].items && states[n].items[id].status == Retrying
    ensures states[n].items[id].lockedAt.Some?
    ensures ClaimSucceeds(states[n], Retry(w, id, states[n].now, leaseSeconds))
      <==> states[n].items[id].lockedAt.value + leaseSeconds * 1000 < states[n].now
  {
    RowsAreConsistent(states, steps, n);
  }
}
