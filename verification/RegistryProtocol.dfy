/** A registry polling a table that other processes edit: one atomic step per database call. */
module RegistryProtocol {
  import opened Json
  import opened TargetSystems
  import opened ConnectorRouting

  /** Between the two reads of a reload, `Loaded` waits for the version. */
  datatype Flight = Grounded | Reading | Loaded

  /** `source` is the table the connectors were built from, `seen` the table whose version was recorded. */
  datatype State = State(
    table: Table, now: int, connectors: Connectors, last: Option<Version>, flight: Flight,
    source: Option<Table>, seen: Option<Table>)

  datatype Step =
    | Put(id: Id, row: System)
    | Drop(id: Id)
    | Begin
    | ReadRows(next: Connectors)
    | ReadVersion(version: Version)
    | Fail

  /** Every write carries a later `updatedAt` than all earlier ones. */
  ghost predicate Enabled(registered: Registered, s: State, step: Step) {
    match step
    case Put(id, row) => row.updatedAt > s.now && UniqueNames(s.table[id := row])
    case Drop(id) => true
    case Begin => s.flight == Grounded
    case ReadRows(next) => s.flight == Reading && registered.Readable(s.table) && registered.Routes(next, s.table)
    case ReadVersion(version) => s.flight == Loaded && IsVersion(s.table, version)
    case Fail => s.flight != Grounded
  }

  function Next(s: State, step: Step): State {
    match step
    case Put(id, row) => s.(table := s.table[id := row], now := row.updatedAt)
    case Drop(id) => s.(table := s.table - {id})
    case Begin => s.(flight := Reading)
    case ReadRows(next) => s.(connectors := next, source := Some(s.table), flight := Loaded)
    case ReadVersion(version) => s.(last := Some(version), seen := Some(s.table), flight := Grounded)
    case Fail => s.(flight := Grounded)
  }

  ghost predicate Run(registered: Registered, states: seq<State>, steps: seq<Step>) {
    && |states| == |steps| + 1
    && states[0] == State(states[0].table, states[0].now, map[], None, Grounded, None, None)
    && UniqueNames(states[0].table)
    && (forall id | id in states[0].table :: states[0].table[id].updatedAt <= states[0].now)
    && forall i | 0 <= i < |steps| ::
         Enabled(registered, states[i], steps[i]) && states[i + 1] == Next(states[i], steps[i])
  }

  // ----- Equal versions, equal tables -----

  lemma {:induction false} StampsAreBounded(registered: Registered, states: seq<State>, steps: seq<Step>, n: nat)
    requires Run(registered, states, steps) && n < |states|
    ensures forall id | id in states[n].table :: states[n].table[id].updatedAt <= states[n].now
  {
    hide Registered.Readable, Registered.Routes, IsVersion;
    if n > 0 {
      StampsAreBounded(registered, states, steps, n - 1);
      assert states[n] == Next(states[n - 1], steps[n - 1]);
    }
  }

  /** A row not stamped since `m` is the row there was at `m`. */
  lemma {:induction false} OldRowsAreUnchanged(
      registered: Registered, states: seq<State>, steps: seq<Step>, m: nat, n: nat)
    requires Run(registered, states, steps) && m <= n < |states|
    ensures states[m].now <= states[n].now
    ensures forall id | id in states[n].table && states[n].table[id].updatedAt <= states[m].now ::
      id in states[m].table && states[m].table[id] == states[n].table[id]
  {
    hide Registered.Readable, Registered.Routes, IsVersion;
    if m < n {
      OldRowsAreUnchanged(registered, states, steps, m, n - 1);
      assert states[n] == Next(states[n - 1], steps[n - 1]);
    }
  }

  /** Along a run, the row count and the latest stamp identify the whole table. */
  lemma EqualVersionsEqualTables(
      registered: Registered, states: seq<State>, steps: seq<Step>, m: nat, n: nat, v: Version)
    requires Run(registered, states, steps) && m <= n < |states|
    requires IsVersion(states[m].table, v) && IsVersion(states[n].table, v)
    ensures states[m].table == states[n].table
  {
    hide Run;
    StampsAreBounded(registered, states, steps, m);
    OldRowsAreUnchanged(registered, states, steps, m, n);
    var (old_, new_) := (states[m].table, states[n].table);
    forall id | id in new_ ensures id in old_ && old_[id] == new_[id] {
    }
    SubmapOfSameSize(new_, old_);
  }

  lemma SubmapOfSameSize(a: Table, b: Table)
    requires |a| == |b| && forall id | id in a :: id in b && b[id] == a[id]
    ensures a == b
  {
    assert a.Keys <= b.Keys;
    assert |b.Keys - a.Keys| == |b.Keys| - |a.Keys|;
    assert a.Keys == b.Keys;
  }

  // ----- What the recorded version says -----

  /** The connectors are those of `source`; the recorded version is that of `seen`; both are tables of this
      run, read in this order unless a later reload failed in between. */
  ghost predicate Recorded(registered: Registered, states: seq<State>, n: nat)
    requires n < |states|
  {
    var s := states[n];
    && (s.flight == Loaded || s.last.Some? ==> s.source.Some?)
    && (s.source.Some? ==> registered.Routes(s.connectors, s.source.value))
    && (s.last.Some? <==> s.seen.Some?)
    && (s.last.Some? ==>
          IsVersion(s.seen.value, s.last.value) && exists m | 0 <= m <= n :: states[m].table == s.seen.value)
  }

  lemma {:induction false} RunKeepsRecorded(registered: Registered, states: seq<State>, steps: seq<Step>, n: nat)
    requires Run(registered, states, steps) && n < |states|
    ensures Recorded(registered, states, n)
  {
    hide Registered.Readable, Registered.Routes, IsVersion, Recorded;
    if n > 0 {
      RunKeepsRecorded(registered, states, steps, n - 1);
      assert states[n] == Next(states[n - 1], steps[n - 1]);
      StepKeepsRecorded(registered, states, steps[n - 1], n - 1);
    } else {
      NothingRecorded(registered, states);
    }
  }

  lemma NothingRecorded(registered: Registered, states: seq<State>)
    requires states != [] && states[0] == State(states[0].table, states[0].now, map[], None, Grounded, None, None)
    ensures Recorded(registered, states, 0)
  {
  }

  lemma StepKeepsRecorded(registered: Registered, states: seq<State>, step: Step, n: nat)
    requires n + 1 < |states| && Enabled(registered, states[n], step) && states[n + 1] == Next(states[n], step)
    requires Recorded(registered, states, n)
    ensures Recorded(registered, states, n + 1)
  {
    hide Registered.Readable, Registered.Routes, IsVersion;
    if states[n].last.Some? && !step.ReadVersion? {
      var m :| 0 <= m <= n && states[m].table == states[n].seen.value;
      assert states[m].table == states[n + 1].seen.value;
    }
  }

  /** When the poller finds nothing changed, the table is the one whose version was recorded, and the
      connectors route as it does if and only if the rows read by the last reload did. */
  lemma UnchangedVersionMeansCurrent(registered: Registered, states: seq<State>, steps: seq<Step>, n: nat)
    requires Run(registered, states, steps) && n < |states|
    requires states[n].last.Some? && IsVersion(states[n].table, states[n].last.value)
    ensures var s := states[n];
      && s.source.Some? && s.seen == Some(s.table)
      && (registered.Routes(s.connectors, s.table) <==> registered.SameRoutes(s.source.value, s.seen.value))
  {
    hide Run, IsVersion, Registered.Route;
    RunKeepsRecorded(registered, states, steps, n);
    var s := states[n];
    var m :| 0 <= m <= n && states[m].table == s.seen.value;
    EqualVersionsEqualTables(registered, states, steps, m, n, s.last.value);
    if registered.Routes(s.connectors, s.table) {
      forall name ensures registered.Route(s.source.value, name) == registered.Route(s.table, name) {
        assert Get(s.connectors, name) == registered.Route(s.source.value, name);
      }
    }
    if registered.SameRoutes(s.source.value, s.table) {
      forall name ensures Get(s.connectors, name) == registered.Route(s.table, name) {
        assert registered.Route(s.source.value, name) == registered.Route(s.table, name);
      }
    }
  }

  /** When no write fell between the two reads of the last reload, an unchanged version means that the
      connectors are exactly those of the database. */
  lemma QuietReloadStaysDetectable(registered: Registered, states: seq<State>, steps: seq<Step>, k: nat, n: nat)
    requires Run(registered, states, steps) && 0 < k < n < |states|
    requires steps[k - 1].ReadRows? && steps[k].ReadVersion?
    requires forall i | k < i < n :: !steps[i].ReadRows? && !steps[i].ReadVersion?
    requires states[n].last.Some? && IsVersion(states[n].table, states[n].last.value)
    ensures registered.Routes(states[n].connectors, states[n].table)
  {
    hide Registered.Readable, Registered.Routes, IsVersion;
    assert states[k] == Next(states[k - 1], steps[k - 1]);
    assert states[k + 1] == Next(states[k], steps[k]);
    ReadsAreKept(registered, states, steps, k + 1, n);
    UnchangedVersionMeansCurrent(registered, states, steps, n);
  }

  lemma {:induction false} ReadsAreKept(registered: Registered, states: seq<State>, steps: seq<Step>, m: nat, n: nat)
    requires Run(registered, states, steps) && m <= n < |states|
    requires forall i | m <= i < n :: !steps[i].ReadRows? && !steps[i].ReadVersion?
    ensures states[n].source == states[m].source && states[n].seen == states[m].seen
  {
    hide Registered.Readable, Registered.Routes, IsVersion;
    if m < n {
      ReadsAreKept(registered, states, steps, m, n - 1);
      assert states[n] == Next(states[n - 1], steps[n - 1]);
    }
  }

  // ----- Where the hypotheses are needed -----

  /** A write between the two reads is recorded as seen although it was not, even when the request that made
      it asked for a reload and joined the one in flight. The poller has no reason to reload. */
  lemma WriteBetweenReadsIsMissed(registered: Registered, id: Id, row: System)
    returns (states: seq<State>, steps: seq<Step>)
    requires registered.Serves(row, row.name)
    ensures Run(registered, states, steps)
    ensures var s := states[|steps|];
      && s.last.Some? && IsVersion(s.table, s.last.value) && s.flight == Grounded
      && !registered.Routes(s.connectors, s.table)
  {
    hide Registered.Routes, Registered.Readable, Registered.Serves;
    var version := Version(1, Some(row.updatedAt));
    EmptyTableRoutes(registered);
    OneRowRoutes(registered, id, row);
    steps := [Begin, ReadRows(Statics(registered)), Put(id, row), ReadVersion(version)];
    var s0 := State(map[], row.updatedAt - 1, map[], None, Grounded, None, None);
    var s1 := Next(s0, steps[0]);
    var s2 := Next(s1, steps[1]);
    var s3 := Next(s2, steps[2]);
    states := [s0, s1, s2, s3, Next(s3, steps[3])];
  }

  lemma EmptyTableRoutes(registered: Registered)
    ensures registered.Readable(map[]) && registered.Routes(Statics(registered), map[])
  {
  }

  lemma OneRowRoutes(registered: Registered, id: Id, row: System)
    requires registered.Serves(row, row.name)
    ensures map[][id := row] == map[id := row] && UniqueNames(map[id := row])
    ensures IsVersion(map[id := row], Version(1, Some(row.updatedAt)))
    ensures !registered.Routes(Statics(registered), map[id := row])
  {
    var table := map[id := row];
    assert id in table && table[id] == row;
    assert Get(Statics(registered), row.name) != registered.Route(table, row.name);
  }

  /** An update leaves the version as it was if and only if it carries the latest stamp, or an earlier one while
      another row carries the latest. */
  lemma UpdateIsMissedIff(table: Table, id: Id, row: System, v: Version)
    requires IsVersion(table, v) && id in table
    ensures v.latest.Some?
    ensures IsVersion(table[id := row], v) <==>
      row.updatedAt == v.latest.value || (row.updatedAt < v.latest.value && AnotherHas(table, id, v.latest.value))
  {
    var after := table[id := row];
    assert after.Keys == table.Keys && |after| == |after.Keys| && |table| == |table.Keys|;
    assert after[id] == row;
    if o :| o in table && o != id && table[o].updatedAt == v.latest.value {
      assert after[o] == table[o];
    }
  }

  ghost predicate AnotherHas(table: Table, id: Id, stamp: int) {
    exists o :: o in table && o != id && table[o].updatedAt == stamp
  }

  /** An insert or a delete is never missed: it changes the count. */
  lemma InsertsAndDeletesShow(table: Table, id: Id, row: System, v: Version)
    requires IsVersion(table, v)
    ensures id !in table ==> !IsVersion(table[id := row], v)
    ensures id in table ==> !IsVersion(table - {id}, v)
  {
    if id in table {
      assert (table - {id}).Keys == table.Keys - {id};
    } else {
      assert table[id := row].Keys == table.Keys + {id};
    }
  }

  /** In particular a second update in the millisecond of the first goes unnoticed. */
  lemma SameMillisecondIsMissed(table: Table, id: Id, row: System, v: Version)
    requires IsVersion(table, v) && id in table && row.updatedAt == table[id].updatedAt
    ensures IsVersion(table[id := row], v)
  {
    UpdateIsMissedIff(table, id, row, v);
    if row.updatedAt != v.latest.value {
      var o :| o in table && table[o].updatedAt == v.latest.value;
      assert o != id;
    }
  }
}
