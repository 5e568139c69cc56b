/** Any number of workers, interleaved one store call at a time, handling webhooks. */
module LockProtocol {
  import opened Json
  import opened Encryption
  import opened IdempotencyStore
  import opened IdempotencyService

  type Worker = nat

  const TTL_MS := DEFAULT_TTL_SECONDS * 1000

  /** Where a worker is in `processWebhook`: between store calls of `checkAndLock`, inside the section
      that calls the connector (until `deadline`, when its lock expires), or deleting the candidates. */
  datatype Phase =
    | Idle
    | Checking(source: string, next: nat)
    | Locking(source: string)
    | Inside(source: string, deadline: int)
    | Releasing(source: string, deadline: int, left: set<string>)

  datatype State = State(now: int, table: Table, workers: map<Worker, Phase>) {
    function At(w: Worker): Phase {
      if w in workers then workers[w] else Idle
    }

    function Move(w: Worker, p: Phase): State {
      this.(workers := workers[w := p])
    }
  }

  /** The source keys that occur, and each worker's candidate lock keys for them, its active one first. */
  datatype World = World(sources: set<string>, keys: (Worker, string) -> seq<string>) {
    /** Candidates of different sources differ, whichever workers they belong to. */
    ghost predicate Separate() {
      && (forall w, s | s in sources :: keys(w, s) != [])
      && (forall v, w, s, t, k | s in sources && t in sources && k in keys(v, s) && k in keys(w, t) :: s == t)
    }

    /** All workers lock a source under the same key. */
    ghost predicate SameActive() {
      Separate() && forall v, w, s | s in sources :: keys(v, s)[0] == keys(w, s)[0]
    }
  }

  /** A failing store call ends `checkAndLock`: for `Check` with an exception, for `Lock` as a duplicate. */
  datatype Step =
    | Start(w: Worker, source: string)
    | Check(w: Worker, ok: bool)
    | Lock(w: Worker, ok: bool)
    | Keep(w: Worker)
    | Fail(w: Worker)
    | DeleteOne(w: Worker, key: string, ok: bool)
    | Finish(w: Worker)
    | Tick(ms: nat)

  /** A worker is only ever busy with a source that occurs, and deletes only its own candidates. */
  ghost predicate Busy(x: World, w: Worker, p: Phase) {
    match p
    case Idle => true
    case Checking(source, next) => source in x.sources && next < |x.keys(w, source)|
    case Releasing(source, _, left) => source in x.sources && forall k | k in left :: k in x.keys(w, source)
    case _ => p.source in x.sources
  }

  ghost predicate Enabled(x: World, s: State, step: Step) {
    match step
    case Start(w, source) => s.At(w).Idle? && source in x.sources
    case Check(w, _) => s.At(w).Checking?
    case Lock(w, _) => s.At(w).Locking?
    case Keep(w) => s.At(w).Inside?
    case Fail(w) => s.At(w).Inside?
    case DeleteOne(w, key, _) => s.At(w).Releasing? && key in s.At(w).left
    case Finish(w) => s.At(w).Releasing? && s.At(w).left == {}
    case Tick(_) => true
  }

  ghost predicate WellFormed(x: World, s: State) {
    x.Separate() && forall w :: Busy(x, w, s.At(w))
  }

  ghost function Next(x: World, s: State, step: Step): State
    requires WellFormed(x, s) && Enabled(x, s, step)
  {
    match step
    case Start(w, source) => s.Move(w, if |x.keys(w, source)| > 1 then Checking(source, 0) else Locking(source))
    case Check(w, ok) =>
      var p := s.At(w);
      var found := PgAnswer(s.table, Call(s.now, Exists(x.keys(w, p.source)[p.next]), true));
      s.Move(w, if !ok || found then Idle
                else if p.next + 1 == |x.keys(w, p.source)| then Locking(p.source)
                else p.(next := p.next + 1))
    case Lock(w, ok) =>
      var p := s.At(w);
      var c := Call(s.now, SetIfNotExists(x.keys(w, p.source)[0], DEFAULT_TTL_SECONDS), ok);
      var moved := s.Move(w, if PgAnswer(s.table, c) then Inside(p.source, s.now + TTL_MS) else Idle);
      moved.(table := PgNext(s.table, c))
    case Keep(w) => s.Move(w, Idle)
    case Fail(w) =>
      var p := s.At(w);
      s.Move(w, Releasing(p.source, p.deadline, set k | k in x.keys(w, p.source)))
    case DeleteOne(w, key, ok) =>
      var p := s.At(w);
      s.Move(w, p.(left := p.left - {key})).(table := PgNext(s.table, Call(s.now, Delete(key), ok)))
    case Finish(w) => s.Move(w, Idle)
    case Tick(ms) => s.(now := s.now + ms)
  }

  /** The worker's lock is in force: it is inside, or has not yet deleted the active candidate. */
  predicate Holds(x: World, w: Worker, p: Phase, source: string)
    requires x.keys(w, source) != []
  {
    match p
    case Inside(s, _) => s == source
    case Releasing(s, _, left) => s == source && x.keys(w, source)[0] in left
    case _ => false
  }

  /** Every holder is done before its lock expires. */
  ghost predicate InTime(x: World, s: State)
    requires x.Separate()
  {
    forall w, source | source in x.sources && Holds(x, w, s.At(w), source) :: s.now < s.At(w).deadline
  }

  /** A run of steps from idle workers and no locks. */
  ghost predicate Interleaving(x: World, states: seq<State>, steps: seq<Step>) {
    && |states| == |steps| + 1
    && states[0].table == map[] && states[0].workers == map[]
    && (forall i | 0 <= i < |steps| ::
          WellFormed(x, states[i]) && Enabled(x, states[i], steps[i]) && states[i + 1] == Next(x, states[i], steps[i]))
  }

  /** Every holder was in time in the first `n` states. */
  ghost predicate InTimeUntil(x: World, states: seq<State>, n: nat)
    requires x.Separate() && n <= |states|
  {
    forall i | 0 <= i < n :: InTime(x, states[i])
  }

  /** Each holder has a row of its own that is live until its deadline, nobody else holds that source, and
      there are no rows but those of active candidates. */
  ghost predicate Inv(x: World, s: State)
    requires x.SameActive()
  {
    && (forall w, source | source in x.sources && Holds(x, w, s.At(w), source) ::
          x.keys(w, source)[0] in s.table && s.table[x.keys(w, source)[0]].expiresAt == s.At(w).deadline)
    && (forall w, v, source | source in x.sources && Holds(x, w, s.At(w), source) && Holds(x, v, s.At(v), source) ::
          w == v)
    && (forall k | k in s.table :: exists source :: source in x.sources && k == x.keys(0, source)[0])
  }

  // ----- One step -----

  lemma StaysWellFormed(x: World, s: State, step: Step)
    requires WellFormed(x, s) && Enabled(x, s, step)
    ensures WellFormed(x, Next(x, s, step))
  {
    hide PgNext, PgAnswer;
    var s' := Next(x, s, step);
    forall v ensures Busy(x, v, s'.At(v)) {
      assert Busy(x, v, s.At(v));
      assert step.Tick? || v != step.w ==> s'.At(v) == s.At(v);
    }
  }

  /** The step removes or changes the row of a holder only if it is the holder's own. */
  ghost predicate OthersKeep(x: World, s: State, step: Step)
    requires WellFormed(x, s) && Enabled(x, s, step)
  {
    forall w, source | source in x.sources && Holds(x, w, s.At(w), source) && (step.Tick? || step.w != w) ::
      var k := x.keys(w, source)[0];
      k in s.table && k in Next(x, s, step).table && Next(x, s, step).table[k] == s.table[k]
  }

  /** A deleted key is no other source's active candidate. */
  lemma DeletedKeyIsOwn(x: World, s: State, step: Step)
    requires x.SameActive() && WellFormed(x, s) && step.DeleteOne? && Enabled(x, s, step)
    ensures s.At(step.w).source in x.sources
    ensures forall w, t | t in x.sources && x.keys(w, t)[0] == step.key :: t == s.At(step.w).source
  {
    hide Next;
    assert Busy(x, step.w, s.At(step.w));
    assert step.key in x.keys(step.w, s.At(step.w).source);
    FirstIsAKey(x);
  }

  lemma DeleteOneKeepsOthers(x: World, s: State, step: Step)
    requires x.SameActive() && WellFormed(x, s) && step.DeleteOne? && Enabled(x, s, step) && Inv(x, s)
    ensures OthersKeep(x, s, step)
  {
    DeletedKeyIsOwn(x, s, step);
    var source := s.At(step.w).source;
    forall w, t | t in x.sources && Holds(x, w, s.At(w), t) && w != step.w
      ensures x.keys(w, t)[0] != step.key
    {
      if x.keys(w, t)[0] == step.key {
        assert Holds(x, step.w, s.At(step.w), source);
      }
    }
  }

  lemma DeleteOneKeepsInv(x: World, s: State, step: Step)
    requires x.SameActive() && WellFormed(x, s) && step.DeleteOne? && Enabled(x, s, step) && Inv(x, s)
    ensures Inv(x, Next(x, s, step)) && OthersKeep(x, s, step)
  {
    hide PgNext, WellFormed, OthersKeep;
    DeleteOneKeepsOthers(x, s, step);
    DeletedTable(x, s, step);
    var s' := Next(x, s, step);
    forall v, t | t in x.sources && Holds(x, v, s'.At(v), t)
      ensures Holds(x, v, s.At(v), t) && s'.At(v).deadline == s.At(v).deadline
      ensures x.keys(v, t)[0] in s'.table && s'.table[x.keys(v, t)[0]] == s.table[x.keys(v, t)[0]]
    {
      OthersKeepTheirs(x, s, step, v, t);
    }
  }

  lemma DeletedTable(x: World, s: State, step: Step)
    requires WellFormed(x, s) && step.DeleteOne? && Enabled(x, s, step)
    ensures var s' := Next(x, s, step);
      && s'.table == (if step.ok then s.table - {step.key} else s.table)
      && s'.At(step.w) == s.At(step.w).(left := s.At(step.w).left - {step.key})
      && forall v | v != step.w :: s'.At(v) == s.At(v)
  {
  }

  /** Whoever still holds a source after a delete held it before, and its row is untouched. */
  lemma OthersKeepTheirs(x: World, s: State, step: Step, v: Worker, t: string)
    requires x.SameActive() && WellFormed(x, s) && step.DeleteOne? && Enabled(x, s, step) && Inv(x, s)
    requires OthersKeep(x, s, step) && t in x.sources && Holds(x, v, Next(x, s, step).At(v), t)
    ensures var s' := Next(x, s, step);
      && Holds(x, v, s.At(v), t) && s'.At(v).deadline == s.At(v).deadline
      && x.keys(v, t)[0] in s'.table && s'.table[x.keys(v, t)[0]] == s.table[x.keys(v, t)[0]]
  {
    hide PgNext, Next, WellFormed;
    DeletedTable(x, s, step);
  }

  lemma LockKeepsOthers(x: World, s: State, step: Step)
    requires x.SameActive() && WellFormed(x, s) && step.Lock? && Enabled(x, s, step) && Inv(x, s) && InTime(x, s)
    ensures OthersKeep(x, s, step)
    ensures Next(x, s, step).At(step.w).Inside? ==>
      forall v | v != step.w :: !Holds(x, v, s.At(v), s.At(step.w).source)
  {
    hide Inv;
    var s' := Next(x, s, step);
    assert Busy(x, step.w, s.At(step.w));
    FirstIsAKey(x);
    var source := s.At(step.w).source;
    forall v, t | t in x.sources && Holds(x, v, s.At(v), t)
      ensures var k := x.keys(v, t)[0]; k in s.table && k in s'.table && s'.table[k] == s.table[k]
      ensures t == source ==> !s'.At(step.w).Inside?
    {
      HoldersAreLive(x, s, v, t);
      assert x.keys(step.w, source)[0] == x.keys(v, t)[0] ==> t == source;
    }
  }

  lemma HoldersAreLive(x: World, s: State, v: Worker, source: string)
    requires x.SameActive() && Inv(x, s) && InTime(x, s) && source in x.sources && Holds(x, v, s.At(v), source)
    ensures Live(s.table, x.keys(v, source)[0], s.now) && s.table[x.keys(v, source)[0]].expiresAt == s.At(v).deadline
  {
  }

  lemma LockKeepsInv(x: World, s: State, step: Step)
    requires x.SameActive() && WellFormed(x, s) && step.Lock? && Enabled(x, s, step) && Inv(x, s) && InTime(x, s)
    ensures Inv(x, Next(x, s, step)) && OthersKeep(x, s, step)
  {
    LockKeepsOthers(x, s, step);
    var s' := Next(x, s, step);
    assert forall v | v != step.w :: s'.At(v) == s.At(v);
    assert Busy(x, step.w, s.At(step.w));
    var source := s.At(step.w).source;
    assert forall k | k in s'.table :: k in s.table || k == x.keys(0, source)[0];
  }

  lemma FirstIsAKey(x: World)
    requires x.Separate()
    ensures forall w, source | source in x.sources :: x.keys(w, source)[0] in x.keys(w, source)
  {
  }

  /** A worker moves without touching the table and holds nothing that it did not hold. */
  lemma MoveKeepsInv(x: World, s: State, s': State, w: Worker)
    requires x.SameActive() && Inv(x, s) && s'.table == s.table
    requires forall v | v != w :: s'.At(v) == s.At(v)
    requires forall source | source in x.sources && Holds(x, w, s'.At(w), source) ::
      Holds(x, w, s.At(w), source) && s'.At(w).deadline == s.At(w).deadline
    ensures Inv(x, s')
  {
    forall v, source | source in x.sources && Holds(x, v, s'.At(v), source)
      ensures Holds(x, v, s.At(v), source) && s'.At(v).deadline == s.At(v).deadline
    {
      assert v != w ==> s'.At(v) == s.At(v);
    }
  }

  /** A step that leaves the table alone leaves the rows of holders alone. */
  lemma UntouchedTableKeepsOthers(x: World, s: State, step: Step)
    requires x.SameActive() && WellFormed(x, s) && Enabled(x, s, step) && Inv(x, s) && Next(x, s, step).table == s.table
    ensures OthersKeep(x, s, step)
  {
    hide Next, Enabled, WellFormed;
  }

  lemma MovingKeepsInv(x: World, s: State, step: Step)
    requires x.SameActive() && WellFormed(x, s) && Enabled(x, s, step) && Inv(x, s)
    requires !step.Tick? && !step.Lock? && !step.DeleteOne?
    ensures Inv(x, Next(x, s, step)) && Next(x, s, step).table == s.table
  {
    hide PgNext, PgAnswer, Live, Inv;
    FirstIsAKey(x);
    assert Busy(x, step.w, s.At(step.w));
    MoveKeepsInv(x, s, Next(x, s, step), step.w);
  }

  /** One step keeps the invariant, and the rows of all other holders. */
  lemma StepKeepsInv(x: World, s: State, step: Step)
    requires x.SameActive() && WellFormed(x, s) && Enabled(x, s, step) && Inv(x, s) && InTime(x, s)
    ensures Inv(x, Next(x, s, step)) && OthersKeep(x, s, step)
  {
    hide Inv, OthersKeep, WellFormed, PgNext, PgAnswer, InTime;
    match step
    case DeleteOne(_, _, _) => DeleteOneKeepsInv(x, s, step);
    case Lock(_, _) => LockKeepsInv(x, s, step);
    case Tick(_) =>
      assert forall v :: Next(x, s, step).At(v) == s.At(v);
      MoveKeepsInv(x, s, Next(x, s, step), 0);
      UntouchedTableKeepsOthers(x, s, step);
    case _ =>
      MovingKeepsInv(x, s, step);
      UntouchedTableKeepsOthers(x, s, step);
  }

  // ----- Whole runs -----

  lemma {:induction false} RunIsWellFormed(x: World, states: seq<State>, steps: seq<Step>, n: nat)
    requires x.Separate() && Interleaving(x, states, steps) && n < |states|
    ensures WellFormed(x, states[n])
  {
    if n > 0 {
      StaysWellFormed(x, states[n - 1], steps[n - 1]);
    }
  }

  /** The invariant lasts as long as every holder finishes in time, and one step more. */
  lemma {:induction false} RunKeepsInv(x: World, states: seq<State>, steps: seq<Step>, n: nat)
    requires x.SameActive() && Interleaving(x, states, steps) && n < |states| && InTimeUntil(x, states, n)
    ensures WellFormed(x, states[n]) && Inv(x, states[n])
  {
    hide Inv, Next, Enabled;
    RunIsWellFormed(x, states, steps, n);
    if n > 0 {
      RunKeepsInv(x, states, steps, n - 1);
      StepKeepsInv(x, states[n - 1], steps[n - 1]);
    } else {
      NothingHeld(x, states[0]);
    }
  }

  lemma NothingHeld(x: World, s: State)
    requires x.SameActive() && s.table == map[] && s.workers == map[]
    ensures Inv(x, s)
  {
  }

  /** At no moment of any interleaving are two workers inside the section for one source key. */
  lemma AtMostOneInside(x: World, states: seq<State>, steps: seq<Step>, n: nat, v: Worker, w: Worker)
    requires x.SameActive() && Interleaving(x, states, steps) && n < |states| && InTimeUntil(x, states, n)
    requires states[n].At(v).Inside? && states[n].At(w).Inside?
    requires states[n].At(v).source == states[n].At(w).source
    ensures v == w && states[n].At(w).source in x.sources
    ensures var k := x.keys(w, states[n].At(w).source)[0];
      k in states[n].table && states[n].table[k].expiresAt == states[n].At(w).deadline
  {
    RunKeepsInv(x, states, steps, n);
    var source := states[n].At(w).source;
    assert Busy(x, w, states[n].At(w));
    assert Holds(x, w, states[n].At(w), source) && Holds(x, v, states[n].At(v), source);
  }

  // ----- Attempts -----

  lemma Extend(x: World, states: seq<State>, steps: seq<Step>, step: Step) returns (longer: seq<State>)
    requires Interleaving(x, states, steps) && WellFormed(x, states[|steps|]) && Enabled(x, states[|steps|], step)
    ensures longer == states + [Next(x, states[|steps|], step)] && |longer| == |steps| + 2
    ensures Interleaving(x, longer, steps + [step]) && WellFormed(x, longer[|steps| + 1])
  {
    hide Next, Enabled, WellFormed;
    StaysWellFormed(x, states[|steps|], step);
    longer := states + [Next(x, states[|steps|], step)];
  }

  ghost predicate OfWorker(step: Step, w: Worker) {
    !step.Tick? && step.w == w
  }

  /** While a worker asks for its candidates, nothing else changes. */
  ghost predicate OnlyAsks(states: seq<State>, states': seq<State>, w: Worker)
    requires states != []
  {
    |states| <= |states'| && states'[..|states|] == states
    && forall i | |states| <= i < |states'| ::
        (states'[i].At(w).Checking? || states'[i].At(w).Locking?)
        && states'[i] == states[|states| - 1].Move(w, states'[i].At(w))
  }

  /** None of the candidates is live: a worker that asks for them one after the other gets to lock. */
  lemma {:induction false} CheckAll(x: World, states: seq<State>, steps: seq<Step>, w: Worker, source: string)
    returns (states': seq<State>, steps': seq<Step>)
    requires Interleaving(x, states, steps) && WellFormed(x, states[|steps|])
    requires states[|steps|].At(w).Checking? && states[|steps|].At(w).source == source
    requires forall k | k in x.keys(w, source) :: !Live(states[|steps|].table, k, states[|steps|].now)
    ensures Interleaving(x, states', steps') && |states'| == |steps'| + 1 && WellFormed(x, states'[|steps'|])
    ensures states'[|steps'|] == states[|steps|].Move(w, Locking(source))
    ensures steps <= steps' && OnlyAsks(states, states', w)
    ensures forall i | |steps| <= i < |steps'| :: OfWorker(steps'[i], w)
    decreases |x.keys(w, source)| - states[|steps|].At(w).next
  {
    var s := states[|steps|];
    assert Busy(x, w, s.At(w));
    states' := Extend(x, states, steps, Check(w, true));
    steps' := steps + [Check(w, true)];
    var t := states'[|steps'|];
    if s.At(w).next + 1 < |x.keys(w, source)| {
      assert forall p :: t.Move(w, p) == s.Move(w, p);
      states', steps' := CheckAll(x, states', steps', w, source);
    }
  }

  /** An idle worker gets to lock in one go when none of its candidates is live. */
  lemma GetsToLock(x: World, states: seq<State>, steps: seq<Step>, w: Worker, source: string)
    returns (states': seq<State>, steps': seq<Step>)
    requires Interleaving(x, states, steps) && WellFormed(x, states[|steps|]) && source in x.sources
    requires states[|steps|].At(w).Idle?
    requires forall k | k in x.keys(w, source) :: !Live(states[|steps|].table, k, states[|steps|].now)
    ensures Interleaving(x, states', steps') && |states'| == |steps'| + 1 && WellFormed(x, states'[|steps'|])
    ensures states'[|steps'|] == states[|steps|].Move(w, Locking(source))
    ensures steps <= steps' && OnlyAsks(states, states', w)
    ensures forall i | |steps| <= i < |steps'| :: OfWorker(steps'[i], w)
  {
    var s := states[|steps|];
    states' := Extend(x, states, steps, Start(w, source));
    steps' := steps + [Start(w, source)];
    var t := states'[|steps'|];
    if |x.keys(w, source)| > 1 {
      assert forall p :: t.Move(w, p) == s.Move(w, p);
      states', steps' := CheckAll(x, states', steps', w, source);
    }
  }

  // ----- Where exclusion ends -----

  /** A continuation by steps of `v` alone, at the same moment, that puts it inside. */
  ghost predicate Joins(
    x: World, states: seq<State>, steps: seq<Step>, v: Worker, source: string, states': seq<State>, steps': seq<Step>)
    requires states != []
  {
    && Interleaving(x, states', steps') && states'[0] == states[0] && steps <= steps'
    && (forall i | |steps| <= i < |steps'| :: OfWorker(steps'[i], v))
    && states'[|steps'|].At(v).Inside? && states'[|steps'|].At(v).source == source
  }

  /** There is a live lock for the source, and `v` is neither inside for it nor deleting its keys. */
  ghost predicate Shut(x: World, s: State, v: Worker, source: string, deadline: int)
    requires x.SameActive() && source in x.sources
  {
    && s.now < deadline
    && x.keys(v, source)[0] in s.table && s.table[x.keys(v, source)[0]].expiresAt == deadline
    && !((s.At(v).Inside? || s.At(v).Releasing?) && s.At(v).source == source)
  }

  lemma StaysShut(x: World, s: State, step: Step, v: Worker, source: string, deadline: int)
    requires x.SameActive() && source in x.sources && WellFormed(x, s) && Enabled(x, s, step) && OfWorker(step, v)
    requires Shut(x, s, v, source, deadline)
    ensures Shut(x, Next(x, s, step), v, source, deadline)
  {
    assert Busy(x, v, s.At(v));
    FirstIsAKey(x);
    if step.DeleteOne? {
      assert step.key in x.keys(v, s.At(v).source);
    }
  }

  lemma {:induction false} NoJoinWhileShut(
    x: World, states: seq<State>, steps: seq<Step>, m: nat, n: nat, v: Worker, source: string, deadline: int)
    requires x.SameActive() && source in x.sources && Interleaving(x, states, steps) && m <= n < |states|
    requires Shut(x, states[m], v, source, deadline) && forall i | m <= i < n :: OfWorker(steps[i], v)
    ensures Shut(x, states[n], v, source, deadline)
  {
    if m < n {
      NoJoinWhileShut(x, states, steps, m, n - 1, v, source, deadline);
      StaysShut(x, states[n - 1], steps[n - 1], v, source, deadline);
    }
  }

  /** While a source is shut for an idle worker, no steps of its own get it inside. */
  lemma NobodyJoins(x: World, states: seq<State>, steps: seq<Step>, v: Worker, source: string, deadline: int)
    requires x.SameActive() && source in x.sources && Interleaving(x, states, steps)
    requires Shut(x, states[|steps|], v, source, deadline)
    ensures forall states', steps' :: !Joins(x, states, steps, v, source, states', steps')
  {
    forall states', steps' | Joins(x, states, steps, v, source, states', steps')
      ensures false
    {
      SameSteps(x, states, states', steps, steps', |steps|);
      NoJoinWhileShut(x, states', steps', |steps|, |steps'|, v, source, deadline);
    }
  }

  /** An idle worker none of whose candidates is live joins. */
  lemma FreeIsJoined(x: World, states: seq<State>, steps: seq<Step>, v: Worker, source: string)
    returns (states': seq<State>, steps': seq<Step>)
    requires x.Separate() && Interleaving(x, states, steps) && WellFormed(x, states[|steps|]) && source in x.sources
    requires states[|steps|].At(v).Idle?
    requires forall k | k in x.keys(v, source) :: !Live(states[|steps|].table, k, states[|steps|].now)
    ensures Joins(x, states, steps, v, source, states', steps')
  {
    states', steps' := GetsToLock(x, states, steps, v, source);
    assert states'[..|states|][0] == states'[0];
    FirstIsAKey(x);
    var locking := states';
    states' := Extend(x, states', steps', Step.Lock(v, true));
    steps' := steps' + [Step.Lock(v, true)];
    assert states'[0] == locking[0];
  }

  /** The runs that agree on their steps agree on their states. */
  lemma {:induction false} SameSteps(
      x: World, a: seq<State>, b: seq<State>, steps: seq<Step>, steps': seq<Step>, n: nat)
    requires Interleaving(x, a, steps) && Interleaving(x, b, steps') && steps <= steps' && n <= |steps| && a[0] == b[0]
    ensures a[n] == b[n]
  {
    if n > 0 {
      SameSteps(x, a, b, steps, steps', n - 1);
      assert steps'[n - 1] == steps[n - 1];
    }
  }

  /** From any reachable state with a worker inside, an idle one can get inside as well without delay if and
      only if the first one's deadline has passed. Only up to this state need holders have been in time. */
  lemma JoinedIffLate(x: World, states: seq<State>, steps: seq<Step>, w: Worker, v: Worker)
    requires x.SameActive() && Interleaving(x, states, steps) && InTimeUntil(x, states, |steps|)
    requires states[|steps|].At(w).Inside? && states[|steps|].At(v).Idle?
    ensures var s := states[|steps|];
      s.At(w).deadline <= s.now <==>
        exists states', steps' :: Joins(x, states, steps, v, s.At(w).source, states', steps')
  {
    var s := states[|steps|];
    var source := s.At(w).source;
    RunKeepsInv(x, states, steps, |steps|);
    assert Busy(x, w, s.At(w)) && Holds(x, w, s.At(w), source);
    if s.At(w).deadline <= s.now {
      OnlyFirstRows(x, s, v, source);
      var states', steps' := FreeIsJoined(x, states, steps, v, source);
    } else {
      NobodyJoins(x, states, steps, v, source, s.At(w).deadline);
    }
  }

  /** The row of the active candidate is the only one that can stop a worker. */
  lemma OnlyFirstRows(x: World, s: State, v: Worker, source: string)
    requires x.SameActive() && Inv(x, s) && source in x.sources
    ensures !Live(s.table, x.keys(v, source)[0], s.now) ==>
      forall k | k in x.keys(v, source) :: !Live(s.table, k, s.now)
  {
    FirstIsAKey(x);
    forall k | k in x.keys(v, source) && k in s.table
      ensures k == x.keys(v, source)[0]
    {
      var t :| t in x.sources && k == x.keys(0, t)[0];
      assert t == source;
    }
  }

  /** A run with every holder in time but the last: one that outlives its lock is joined by a second worker. */
  lemma LateHolderIsJoined(x: World, source: string, v: Worker, w: Worker, now: int)
    returns (states: seq<State>, steps: seq<Step>)
    requires x.Separate() && source in x.sources && v != w && x.keys(v, source)[0] == x.keys(w, source)[0]
    ensures Interleaving(x, states, steps)
    ensures var last := states[|steps|];
      last.At(w) == Inside(source, now + TTL_MS) && last.At(v) == Inside(source, now + 2 * TTL_MS)
  {
    states, steps := EntersFirst(x, source, w, now);
    states := Extend(x, states, steps, Tick(TTL_MS));
    steps := steps + [Tick(TTL_MS)];
    states, steps := GetsToLock(x, states, steps, v, source);
    states := Extend(x, states, steps, Step.Lock(v, true));
    steps := steps + [Step.Lock(v, true)];
  }

  lemma EntersFirst(x: World, source: string, w: Worker, now: int) returns (states: seq<State>, steps: seq<Step>)
    requires x.Separate() && source in x.sources
    ensures Interleaving(x, states, steps) && WellFormed(x, states[|steps|])
    ensures states[|steps|] == State(
      now, map[x.keys(w, source)[0] := LockRow(now, now + TTL_MS)], map[w := Inside(source, now + TTL_MS)])
  {
    states, steps := [State(now, map[], map[])], [];
    states, steps := GetsToLock(x, states, steps, w, source);
    states := Extend(x, states, steps, Step.Lock(w, true));
    steps := steps + [Step.Lock(w, true)];
  }

  /** Sharing the active key is needed as well: when two workers lock a source under different keys, as in a
      rolling change of the active key, both can be inside at once although neither is late. */
  lemma DifferentActiveKeysExcludeNothing(x: World, source: string, v: Worker, w: Worker, now: int)
    returns (states: seq<State>, steps: seq<Step>)
    requires x.Separate() && source in x.sources && v != w && x.keys(v, source)[0] != x.keys(w, source)[0]
    ensures Interleaving(x, states, steps) && InTimeUntil(x, states, |states|)
    ensures var last := states[|steps|];
      last.At(w) == last.At(v) == Inside(source, now + TTL_MS)
  {
    hide Interleaving, WellFormed, OnlyAsks;
    var s0 := State(now, map[], map[]);
    StartsWell(x, s0);
    var first, steps1 := GetsToLock(x, [s0], [], w, source);
    var both, steps2 := GetsToLock(x, first, steps1, v, source);
    NobodyHolds(x, s0, first, both, w, v);
    states := TakesLock(x, both, steps2, w, source);
    steps := steps2 + [Step.Lock(w, true)];
    states := TakesLock(x, states, steps, v, source);
    steps := steps + [Step.Lock(v, true)];
    forall i | 0 <= i < |states|
      ensures InTime(x, states[i])
    {
      if i < |both| {
        assert states[i] == both[i];
      }
    }
  }

  lemma StartsWell(x: World, s: State)
    requires x.Separate() && s.table == map[] && s.workers == map[]
    ensures Interleaving(x, [s], []) && WellFormed(x, s)
  {
  }

  /** A worker about to lock a key that is not live gets inside. */
  lemma TakesLock(x: World, states: seq<State>, steps: seq<Step>, w: Worker, source: string)
    returns (longer: seq<State>)
    requires Interleaving(x, states, steps) && |states| == |steps| + 1 && WellFormed(x, states[|steps|])
    requires states[|steps|].At(w) == Locking(source) && source in x.sources && x.keys(w, source) != []
    requires !Live(states[|steps|].table, x.keys(w, source)[0], states[|steps|].now)
    ensures |longer| == |steps| + 2 && longer[..|states|] == states
    ensures Interleaving(x, longer, steps + [Step.Lock(w, true)]) && WellFormed(x, longer[|steps| + 1])
    ensures var (s, t) := (states[|steps|], longer[|steps| + 1]);
      && t.now == s.now && t.workers == s.workers[w := Inside(source, s.now + TTL_MS)]
      && t.table.Keys <= s.table.Keys + {x.keys(w, source)[0]}
  {
    longer := Extend(x, states, steps, Step.Lock(w, true));
  }

  lemma NobodyHolds(x: World, s0: State, first: seq<State>, both: seq<State>, w: Worker, v: Worker)
    requires x.Separate() && s0.workers == map[] && OnlyAsks([s0], first, w) && OnlyAsks(first, both, v) && v != w
    ensures forall i | 0 <= i < |both| :: InTime(x, both[i])
  {
    forall i | 0 <= i < |both|
      ensures InTime(x, both[i])
    {
      var last := first[|first| - 1];
      if i < |first| {
        assert both[i] == both[..|first|][i] == first[i];
        assert i == 0 ==> first[0] == first[..1][0] == s0;
      } else {
        assert |first| == 1 ==> last == first[..1][0] == s0;
      }
    }
  }

  /** At this moment of the interleaving no two workers are inside for one source. */
  ghost predicate Exclusive(x: World, states: seq<State>, steps: seq<Step>, n: nat)
    requires n < |states|
  {
    Interleaving(x, states, steps) && x.Separate() && InTimeUntil(x, states, |states|) ==>
      forall v, w | BothInside(states[n], v, w) :: v == w
  }

  predicate BothInside(s: State, v: Worker, w: Worker) {
    s.At(v).Inside? && s.At(w).Inside? && s.At(v).source == s.At(w).source
  }

  /** The exact condition: workers exclude each other in every interleaving whose holders are in time if and
      only if they all lock a source under the same key. */
  lemma ExclusionIffSameActive(x: World)
    requires x.Separate()
    ensures x.SameActive() <==>
      forall states: seq<State>, steps: seq<Step>, n: nat | n < |states| :: Exclusive(x, states, steps, n)
  {
    hide Interleaving, InTimeUntil;
    if x.SameActive() {
      forall states: seq<State>, steps: seq<Step>, n: nat | n < |states|
        ensures Exclusive(x, states, steps, n) {
        if Interleaving(x, states, steps) && InTimeUntil(x, states, |states|) {
          InTimeEarlier(x, states, n);
          forall v, w | BothInside(states[n], v, w)
            ensures v == w
          {
            AtMostOneInside(x, states, steps, n, v, w);
          }
        }
      }
    } else {
      var v, w, source :| source in x.sources && x.keys(v, source)[0] != x.keys(w, source)[0];
      var states, steps := DifferentActiveKeysExcludeNothing(x, source, v, w, 0);
      InterleavingLength(x, states, steps);
      assert BothInside(states[|steps|], v, w);
      assert !Exclusive(x, states, steps, |steps|);
    }
  }

  lemma InTimeEarlier(x: World, states: seq<State>, n: nat)
    requires x.Separate() && n <= |states| && InTimeUntil(x, states, |states|)
    ensures InTimeUntil(x, states, n)
  {
  }

  lemma InterleavingLength(x: World, states: seq<State>, steps: seq<Step>)
    requires Interleaving(x, states, steps)
    ensures |states| == |steps| + 1
  {
  }

  // ----- The keys of the service -----

  /** Workers with HMAC keys, whose digests do not collide on the sources that occur, meet the hypotheses: with
      any part of one keyring their candidates are separate, and two of them lock a source under the same key
      exactly when they have the same active key. */
  lemma HmacKeysAreSeparate(lib: Library, ring: Keyring, cfgs: Worker -> Config, sources: set<string>)
    requires lib.Lawful() && DistinctIds(ring) && NoCollisions(lib, ring, sources)
    requires forall w :: cfgs(w).idempotencyHmac && SubRing(cfgs(w).keyring, ring)
    requires forall w :: cfgs(w).activeKeyId in KeyIds(cfgs(w).keyring)
    ensures var x := World(sources, (w: Worker, s: string) => IdempotencyKeys(lib, cfgs(w), s));
      && x.Separate()
      && (forall v, w, s | s in sources ::
            x.keys(v, s)[0] == x.keys(w, s)[0] <==> cfgs(v).activeKeyId == cfgs(w).activeKeyId)
  {
    hide IdempotencyKeys, LockKey, NoCollisions, DistinctIds, Encryption.Library.Lawful, Ordered, KeyIds;
    var x := World(sources, (w: Worker, s: string) => IdempotencyKeys(lib, cfgs(w), s));
    forall w, s
      ensures x.keys(w, s) != [] && x.keys(w, s) == Candidates(lib, ServiceCall.Lock(0, cfgs(w), s, 1))
      ensures forall k :: k in x.keys(w, s) <==> exists d :: d in cfgs(w).keyring && k == LockKey(lib, d, s)
      ensures Ordered(cfgs(w)) != [] && x.keys(w, s)[0] == LockKey(lib, Ordered(cfgs(w))[0], s)
      ensures Ordered(cfgs(w))[0].id == cfgs(w).activeKeyId && Ordered(cfgs(w))[0] in ring
    {
      FirstIsActive(lib, cfgs(w), s);
      CandidatesAreTheKeyring(lib, ServiceCall.Lock(0, cfgs(w), s, 1));
    }
    forall v, w, s, t, k | s in sources && t in sources && k in x.keys(v, s) && k in x.keys(w, t)
      ensures s == t
    {
      var d :| d in cfgs(v).keyring && k == LockKey(lib, d, s);
      var e :| e in cfgs(w).keyring && k == LockKey(lib, e, t);
      SameLockKey(lib, ring, sources, d, e, s, t);
    }
    forall v, w, s | s in sources
      ensures x.keys(v, s)[0] == x.keys(w, s)[0] <==> cfgs(v).activeKeyId == cfgs(w).activeKeyId
    {
      var d, e := Ordered(cfgs(v))[0], Ordered(cfgs(w))[0];
      if d.id == e.id {
        SameIdSameKey(ring, d, e);
      }
      if LockKey(lib, d, s) == LockKey(lib, e, s) {
        LockKeyIsInjective(lib, d, e, s, s);
      }
    }
  }

  lemma FirstIsActive(lib: Library, cfg: Config, source: string)
    requires cfg.idempotencyHmac && cfg.activeKeyId in KeyIds(cfg.keyring)
    ensures Ordered(cfg) != [] && Ordered(cfg)[0].id == cfg.activeKeyId && Ordered(cfg)[0] in cfg.keyring
    ensures IdempotencyKeys(lib, cfg, source) != []
    ensures IdempotencyKeys(lib, cfg, source)[0] == LockKey(lib, Ordered(cfg)[0], source)
  {
    ActiveKeyComesFirst(cfg);
    assert Ordered(cfg)[0] in multiset(Ordered(cfg));
  }

  lemma SameIdSameKey(ring: Keyring, d: Descriptor, e: Descriptor)
    requires DistinctIds(ring) && d in ring && e in ring && d.id == e.id
    ensures d == e
  {
  }

  /** Without HMAC a source is its own single key, so workers exclude each other whatever their active keys. */
  lemma PlainKeysAreSeparate(lib: Library, cfgs: Worker -> Config, sources: set<string>)
    requires forall w :: !cfgs(w).idempotencyHmac
    ensures var x := World(sources, (w: Worker, s: string) => IdempotencyKeys(lib, cfgs(w), s));
      && x.Separate() && x.SameActive()
      && forall states: seq<State>, steps: seq<Step>, n: nat | n < |states| :: Exclusive(x, states, steps, n)
  {
    hide Exclusive;
    var x := World(sources, (w: Worker, s: string) => IdempotencyKeys(lib, cfgs(w), s));
    assert forall w, s :: x.keys(w, s) == [s];
    ExclusionIffSameActive(x);
  }

  // ----- The source key of an event -----

  function SourceKey(targetSystem: string, eventId: string): string {
    "avanpost:" + targetSystem + ":" + eventId
  }

  /** Two different targets have events that share a lock, and so are taken for duplicates of each other, if
      and only if one target's name continues the other's after a colon. */
  lemma TargetsShareLocksIff(t: string, u: string)
    requires t != u
    ensures (exists e, f :: SourceKey(t, e) == SourceKey(u, f)) <==> t + ":" <= u || u + ":" <= t
  {
    if e, f :| SourceKey(t, e) == SourceKey(u, f) {
      AfterPrefix(t, e, u, f);
      if |t| <= |u| {
        ShorterNameIsPrefix(t, e, u, f);
      } else {
        ShorterNameIsPrefix(u, f, t, e);
      }
    }
    if t + ":" <= u {
      var rest := u[|t| + 1..];
      assert u == t + ":" + rest;
      assert SourceKey(t, rest + ":") == SourceKey(u, "");
    }
    if u + ":" <= t {
      var rest := t[|u| + 1..];
      assert t == u + ":" + rest;
      assert SourceKey(u, rest + ":") == SourceKey(t, "");
    }
  }

  lemma AfterPrefix(t: string, e: string, u: string, f: string)
    requires SourceKey(t, e) == SourceKey(u, f)
    ensures t + ":" + e == u + ":" + f
  {
    var p := "avanpost:";
    assert SourceKey(t, e)[|p|..] == t + ":" + e && SourceKey(u, f)[|p|..] == u + ":" + f;
  }

  lemma ShorterNameIsPrefix(t: string, e: string, u: string, f: string)
    requires t + ":" + e == u + ":" + f && |t| <= |u| && t != u
    ensures t + ":" <= u
  {
    var whole := u + ":" + f;
    assert whole[..|t|] == t && whole[|t|] == ':' && whole[..|u|] == u;
    assert |t| < |u|;
    assert u[..|t|] == whole[..|t|] && u[|t|] == whole[|t|];
  }

  /** Otherwise two events share a lock only by being the same event. */
  lemma SourceKeyIsInjective(t: string, e: string, u: string, f: string)
    requires SourceKey(t, e) == SourceKey(u, f) && !(t + ":" <= u) && !(u + ":" <= t)
    ensures t == u && e == f
  {
    if t != u {
      TargetsShareLocksIff(t, u);
    }
    AfterPrefix(t, e, u, f);
    assert (t + ":" + e)[|t| + 1..] == e && (u + ":" + f)[|u| + 1..] == f;
  }

  /** What such a pair of events looks like. */
  lemma ColonMergesEvents(t: string, u: string, e: string)
    ensures SourceKey(t + ":" + u, e) == SourceKey(t, u + ":" + e)
    ensures t + ":" + u != t
  {
    assert |t + ":" + u| > |t|;
    assert "avanpost:" + (t + ":" + u) + ":" + e == "avanpost:" + t + ":" + (u + ":" + e);
  }
}
