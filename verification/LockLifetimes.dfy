/** How long the lock of a source lasts among interleaved workers: a kept one until its deadline, a released one
    until its last key is deleted. */
module LockLifetimes {
  import opened IdempotencyStore
  import opened IdempotencyService
  import opened LockProtocol

  /** The source has a lock that nobody holds, because the call that took it was accepted. */
  ghost predicate Kept(x: World, s: State, source: string, deadline: int)
    requires x.SameActive() && source in x.sources
  {
    && x.keys(0, source)[0] in s.table && s.table[x.keys(0, source)[0]].expiresAt == deadline
    && forall v :: !Holds(x, v, s.At(v), source)
  }

  lemma DeleteKeepsKept(x: World, s: State, step: Step, source: string, deadline: int)
    requires x.SameActive() && source in x.sources && WellFormed(x, s) && Enabled(x, s, step) && step.DeleteOne?
    requires Kept(x, s, source, deadline)
    ensures Kept(x, Next(x, s, step), source, deadline)
  {
    DeletedKeyIsOwn(x, s, step);
    var s' := Next(x, s, step);
    assert forall v | v != step.w :: s'.At(v) == s.At(v);
    assert !Holds(x, step.w, s.At(step.w), source);
  }

  lemma LockKeepsKept(x: World, s: State, step: Step, source: string, deadline: int)
    requires x.SameActive() && source in x.sources && WellFormed(x, s) && Enabled(x, s, step) && step.Lock?
    requires Kept(x, s, source, deadline) && s.now < deadline
    ensures Kept(x, Next(x, s, step), source, deadline)
  {
    var s' := Next(x, s, step);
    assert Busy(x, step.w, s.At(step.w));
    FirstIsAKey(x);
    assert forall v | v != step.w :: s'.At(v) == s.At(v);
    assert s.At(step.w).source != source ==> x.keys(step.w, s.At(step.w).source)[0] != x.keys(0, source)[0];
  }

  lemma StepKeepsKept(x: World, s: State, step: Step, source: string, deadline: int)
    requires x.SameActive() && source in x.sources && WellFormed(x, s) && Enabled(x, s, step)
    requires Kept(x, s, source, deadline) && s.now < deadline
    ensures Kept(x, Next(x, s, step), source, deadline)
  {
    hide PgNext, PgAnswer, WellFormed;
    if step.DeleteOne? {
      DeleteKeepsKept(x, s, step, source, deadline);
    } else if step.Lock? {
      LockKeepsKept(x, s, step, source, deadline);
    } else {
      var s' := Next(x, s, step);
      forall v ensures !Holds(x, v, s'.At(v), source) {
        assert !Holds(x, v, s.At(v), source);
        assert step.Tick? || v != step.w ==> s'.At(v) == s.At(v);
      }
    }
  }

  lemma KeepMakesKept(x: World, s: State, w: Worker)
    requires x.SameActive() && WellFormed(x, s) && s.At(w).Inside? && Inv(x, s)
    ensures s.At(w).source in x.sources
    ensures Kept(x, Next(x, s, Keep(w)), s.At(w).source, s.At(w).deadline)
  {
    assert Busy(x, w, s.At(w));
    var source, s' := s.At(w).source, Next(x, s, Keep(w));
    assert Holds(x, w, s.At(w), source);
    forall v ensures !Holds(x, v, s'.At(v), source) {
      assert v != w ==> s'.At(v) == s.At(v);
    }
  }

  lemma {:induction false} KeptLasts(x: World, states: seq<State>, steps: seq<Step>, m: nat, n: nat, w: Worker)
    requires x.SameActive() && Interleaving(x, states, steps) && m < n < |states| && steps[m] == Keep(w)
    requires InTimeUntil(x, states, m)
    requires forall i | m < i < n :: states[i].now < states[m].At(w).deadline
    ensures states[m].At(w).Inside? && states[m].At(w).source in x.sources
    ensures Kept(x, states[n], states[m].At(w).source, states[m].At(w).deadline)
  {
    hide Kept, Inv, WellFormed, Next;
    RunKeepsInv(x, states, steps, m);
    KeepMakesKept(x, states[m], w);
    if n > m + 1 {
      KeptLasts(x, states, steps, m, n - 1, w);
      RunIsWellFormed(x, states, steps, n - 1);
      StepKeepsKept(x, states[n - 1], steps[n - 1], states[m].At(w).source, states[m].At(w).deadline);
    }
  }

  /** An accepted source stays accepted: in no interleaving is any worker inside for it again before the deadline,
      whoever starts, checks, locks, fails or deletes meanwhile. */
  lemma AcceptedOnce(x: World, states: seq<State>, steps: seq<Step>, m: nat, n: nat, w: Worker, v: Worker)
    requires x.SameActive() && Interleaving(x, states, steps) && m < n < |states| && steps[m] == Keep(w)
    requires InTimeUntil(x, states, m)
    requires forall i | m < i < n :: states[i].now < states[m].At(w).deadline
    ensures states[m].At(w).Inside?
    ensures !(states[n].At(v).Inside? && states[n].At(v).source == states[m].At(w).source)
  {
    hide Interleaving;
    KeptLasts(x, states, steps, m, n, w);
    assert !Holds(x, v, states[n].At(v), states[m].At(w).source);
  }

  /** And exactly until then: an idle worker gets inside for it without delay if and only if the deadline has
      passed. */
  lemma AcceptedUntilDeadline(x: World, states: seq<State>, steps: seq<Step>, m: nat, w: Worker, v: Worker)
    requires x.SameActive() && Interleaving(x, states, steps) && m < |steps| && steps[m] == Keep(w)
    requires InTimeUntil(x, states, |steps|)
    requires forall i | m < i < |steps| :: states[i].now < states[m].At(w).deadline
    requires states[|steps|].At(v).Idle?
    ensures states[m].At(w).Inside?
    ensures states[m].At(w).deadline <= states[|steps|].now <==>
      exists states', steps' :: Joins(x, states, steps, v, states[m].At(w).source, states', steps')
  {
    hide Interleaving, Inv, WellFormed;
    InterleavingLength(x, states, steps);
    KeptLasts(x, states, steps, m, |steps|, w);
    RunKeepsInv(x, states, steps, |steps|);
    var s, source, deadline := states[|steps|], states[m].At(w).source, states[m].At(w).deadline;
    if deadline <= s.now {
      OnlyFirstRows(x, s, v, source);
      var states', steps' := FreeIsJoined(x, states, steps, v, source);
    } else {
      NobodyJoins(x, states, steps, v, source, deadline);
    }
  }

  // ----- Workers with different active keys -----

  /** While the key `k` is locked, the worker cannot get inside for the source: it is still to ask for `k`, or is
      about to lock `k` itself. */
  ghost predicate Blocked(x: World, v: Worker, p: Phase, source: string, k: string) {
    match p
    case Checking(s, next) =>
      s == source ==> exists i :: next <= i < |x.keys(v, source)| && x.keys(v, source)[i] == k
    case Locking(s) => s == source ==> x.keys(v, source) != [] && x.keys(v, source)[0] == k
    case Inside(s, _) => s != source
    case Releasing(s, _, _) => s != source
    case Idle => true
  }

  /** The lock of the source is under `k`, and every worker is blocked by it, but for `w`, which may be inside. */
  ghost predicate Guarded(x: World, s: State, w: Worker, source: string, k: string, deadline: int) {
    && k in s.table && s.table[k].expiresAt == deadline
    && (forall v | v != w :: Blocked(x, v, s.At(v), source, k))
    && (s.At(w) == Inside(source, deadline) || Blocked(x, w, s.At(w), source, k))
  }

  /** Every worker has the key among its candidates for the source, whichever it locks under. */
  ghost predicate Shared(x: World, source: string, k: string) {
    forall v :: k in x.keys(v, source)
  }

  lemma OwnStepKeepsBlocked(
    x: World, s: State, step: Step, v: Worker, source: string, k: string, deadline: int)
    requires WellFormed(x, s) && Enabled(x, s, step) && OfWorker(step, v) && source in x.sources && Shared(x, source, k)
    requires Blocked(x, v, s.At(v), source, k) && k in s.table && s.table[k].expiresAt == deadline > s.now
    ensures Blocked(x, v, Next(x, s, step).At(v), source, k)
  {
    hide PgNext;
    assert Busy(x, v, s.At(v));
    assert k in x.keys(v, source);
  }

  lemma OwnStepKeepsRow(
    x: World, s: State, step: Step, v: Worker, source: string, k: string, deadline: int)
    requires WellFormed(x, s) && Enabled(x, s, step) && OfWorker(step, v) && source in x.sources && Shared(x, source, k)
    requires Blocked(x, v, s.At(v), source, k) && k in s.table && s.table[k].expiresAt == deadline > s.now
    ensures k in Next(x, s, step).table && Next(x, s, step).table[k].expiresAt == deadline
  {
    assert Busy(x, v, s.At(v));
    assert k in x.keys(v, source);
    FirstIsAKey(x);
  }

  lemma StepKeepsGuarded(
    x: World, s: State, step: Step, w: Worker, source: string, k: string, deadline: int)
    requires WellFormed(x, s) && Enabled(x, s, step) && source in x.sources && Shared(x, source, k)
    requires Guarded(x, s, w, source, k, deadline) && s.now < deadline && step != Fail(w)
    ensures Guarded(x, Next(x, s, step), w, source, k, deadline)
  {
    hide PgNext, PgAnswer, WellFormed, Blocked, Shared;
    var s' := Next(x, s, step);
    if step.Tick? {
      assert forall v :: s'.At(v) == s.At(v);
    } else {
      assert forall v | v != step.w :: s'.At(v) == s.At(v);
      if step.w == w && s.At(w) == Inside(source, deadline) {
        IdleIsBlocked(x, w, source, k);
      } else {
        OwnStepKeepsBlocked(x, s, step, step.w, source, k, deadline);
        OwnStepKeepsRow(x, s, step, step.w, source, k, deadline);
      }
    }
  }

  lemma IdleIsBlocked(x: World, v: Worker, source: string, k: string)
    ensures Blocked(x, v, Idle, source, k)
  {
  }

  lemma {:induction false} GuardedLasts(
    x: World, states: seq<State>, steps: seq<Step>, m: nat, n: nat, w: Worker, source: string, k: string, deadline: int)
    requires x.Separate() && Interleaving(x, states, steps) && m <= n < |states| && source in x.sources
    requires Shared(x, source, k) && Guarded(x, states[m], w, source, k, deadline)
    requires forall i | m <= i < n :: states[i].now < deadline && steps[i] != Fail(w)
    ensures Guarded(x, states[n], w, source, k, deadline)
  {
    hide Guarded, Shared, WellFormed, Next, Enabled;
    if m < n {
      GuardedLasts(x, states, steps, m, n - 1, w, source, k, deadline);
      RunIsWellFormed(x, states, steps, n - 1);
      StepKeepsGuarded(x, states[n - 1], steps[n - 1], w, source, k, deadline);
    }
  }

  /** Workers may lock under different keys, as in a rolling change of the active key: once one of them is inside
      with its row in place while all others are idle, nobody else gets inside for its source before the deadline
      unless it fails, also when it has long been accepted. All that is asked of the others is that its key is among
      their candidates, which each of them asks for before it locks. */
  lemma AcceptedAcrossKeyChanges(
    x: World, states: seq<State>, steps: seq<Step>, m: nat, n: nat, w: Worker, v: Worker)
    requires x.Separate() && Interleaving(x, states, steps) && m <= n < |states| && v != w
    requires states[m].At(w).Inside? && states[m].now < states[m].At(w).deadline
    requires forall u | u != w :: states[m].At(u).Idle?
    requires var k := x.keys(w, states[m].At(w).source);
      k != [] && k[0] in states[m].table && states[m].table[k[0]].expiresAt == states[m].At(w).deadline
      && Shared(x, states[m].At(w).source, k[0])
    requires forall i | m <= i < n :: states[i].now < states[m].At(w).deadline && steps[i] != Fail(w)
    ensures !(states[n].At(v).Inside? && states[n].At(v).source == states[m].At(w).source)
  {
    hide Interleaving, Shared;
    var (source, deadline) := (states[m].At(w).source, states[m].At(w).deadline);
    RunIsWellFormed(x, states, steps, m);
    assert Busy(x, w, states[m].At(w));
    GuardedLasts(x, states, steps, m, n, w, source, x.keys(w, source)[0], deadline);
  }

  // ----- Releasing -----

  /** Deleting what is left, one key after the other. */
  lemma {:induction false} DeleteAll(x: World, states: seq<State>, steps: seq<Step>, w: Worker)
    returns (states': seq<State>, steps': seq<Step>)
    requires Interleaving(x, states, steps) && WellFormed(x, states[|steps|]) && states[|steps|].At(w).Releasing?
    ensures Interleaving(x, states', steps') && |states'| == |steps'| + 1 && WellFormed(x, states'[|steps'|])
    ensures steps <= steps' && states'[0] == states[0]
    ensures forall i | |steps| <= i < |steps'| :: steps'[i].DeleteOne? && steps'[i].w == w && steps'[i].ok
    ensures var (s, t) := (states[|steps|], states'[|steps'|]);
      && t.now == s.now && t.table == s.table - s.At(w).left
      && t.At(w) == s.At(w).(left := {}) && forall v | v != w :: t.At(v) == s.At(v)
    decreases states[|steps|].At(w).left
  {
    hide WellFormed, Interleaving;
    InterleavingLength(x, states, steps);
    states', steps' := states, steps;
    var s := states[|steps|];
    if s.At(w).left != {} {
      var key :| key in s.At(w).left;
      var step := DeleteOne(w, key, true);
      states' := Extend(x, states, steps, step);
      steps' := steps + [step];
      var t := states'[|steps'|];
      assert t.At(w) == s.At(w).(left := s.At(w).left - {key}) && t.table == s.table - {key};
      states', steps' := DeleteAll(x, states', steps', w);
    }
  }

  /** A worker that fails frees its source: once it has deleted its candidates, the next one gets inside at the
      same moment, however long the lock would have lasted. */
  lemma ReleasedIsFree(x: World, states: seq<State>, steps: seq<Step>, w: Worker, v: Worker)
    returns (freed: seq<State>, deletes: seq<Step>, joined: seq<State>, joining: seq<Step>)
    requires x.SameActive() && Interleaving(x, states, steps) && InTimeUntil(x, states, |steps|)
    requires states[|steps|].At(w).Inside? && states[|steps|].At(v).Idle?
    ensures Interleaving(x, freed, deletes) && |freed| == |deletes| + 1 && steps + [Fail(w)] <= deletes
    ensures forall i | |steps| <= i < |deletes| ::
      deletes[i] in {Fail(w), Finish(w)} || (deletes[i].DeleteOne? && deletes[i].w == w)
    ensures freed[|deletes|].At(w).Idle? && freed[|deletes|].now == states[|steps|].now
    ensures Joins(x, freed, deletes, v, states[|steps|].At(w).source, joined, joining)
  {
    hide WellFormed, Interleaving, Inv;
    InterleavingLength(x, states, steps);
    RunKeepsInv(x, states, steps, |steps|);
    var s, source := states[|steps|], states[|steps|].At(w).source;
    assert source in x.sources by { assert Busy(x, w, s.At(w)) by { BusyOf(x, s, w); } }
    freed := Extend(x, states, steps, Fail(w));
    deletes := steps + [Fail(w)];
    var failing := freed[|deletes|];
    assert failing.At(v) == s.At(v);
    var failed := deletes;
    freed, deletes := DeleteAll(x, freed, deletes, w);
    assert deletes[..|failed|] == failed;
    var done := deletes;
    freed := Extend(x, freed, deletes, Finish(w));
    deletes := deletes + [Finish(w)];
    var t := freed[|deletes|];
    assert t.At(v) == s.At(v);
    assert t.table == s.table - failing.At(w).left;
    FreeAfterDeleting(x, s, t, w, v, source);
    joined, joining := FreeIsJoined(x, freed, deletes, v, source);
    forall i | |steps| <= i < |deletes|
      ensures deletes[i] in {Fail(w), Finish(w)} || (deletes[i].DeleteOne? && deletes[i].w == w)
    {
      if i < |done| {
        assert deletes[i] == done[i];
        if i == |steps| {
          assert done[i] == failed[i];
        }
      }
    }
  }

  lemma BusyOf(x: World, s: State, w: Worker)
    requires WellFormed(x, s)
    ensures Busy(x, w, s.At(w))
  {
  }

  lemma FreeAfterDeleting(x: World, s: State, t: State, w: Worker, v: Worker, source: string)
    requires x.SameActive() && Inv(x, s) && source in x.sources
    requires t.table == s.table - (set k | k in x.keys(w, source))
    ensures forall k | k in x.keys(v, source) :: !Live(t.table, k, t.now)
  {
    FirstIsAKey(x);
    forall k | k in x.keys(v, source) && k in s.table ensures k == x.keys(w, source)[0] {
      var u :| u in x.sources && k == x.keys(0, u)[0];
      assert u == source;
    }
  }
}
