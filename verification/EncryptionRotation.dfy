/** The services that open an encrypted database and rotate its key. */
module EncryptionRotation {
  import opened Json
  import opened Encryption
  import opened EncryptedDatabase
  import opened RotationProtocol

  type Vectors = RowId -> nat -> string

  /** Row ids in the order the three `findMany` calls return them. */
  datatype Listing = Listing(auditLogs: seq<RowId>, dlqItems: seq<RowId>, targetSystems: seq<RowId>)

  ghost predicate Lists(ids: seq<RowId>, rows: Rows, table: Table) {
    && (forall id :: id in ids <==> id in rows && id.table == table)
    && (forall i, j | 0 <= i < j < |ids| :: ids[i] != ids[j])
  }

  ghost predicate ListsAll(order: Listing, rows: Rows) {
    && Lists(order.auditLogs, rows, AuditLog)
    && Lists(order.dlqItems, rows, DlqItem)
    && Lists(order.targetSystems, rows, TargetSystem)
  }

  function RowsOf(rows: Rows, table: Table): set<RowId> {
    set id | id in rows && id.table == table
  }

  /** The rewriting of one row by a rotation with this configuration. */
  datatype Rewriter = Rewriter(lib: Library, cfg: Config, sqlite: bool, ivs: Vectors) {
    function Row(id: RowId, row: Row): Option<Row> {
      Reencrypt(lib, cfg, sqlite, row, ivs(id))
    }

    /** Some of the given rows are rewritten, once, and nothing else has changed. */
    predicate Partly(before: Rows, after: Rows, ids: set<RowId>) {
      && after.Keys == before.Keys
      && forall id | id in before ::
          after[id] == before[id] || (id in ids && Row(id, before[id]) == Some(after[id]))
    }

    predicate Fully(before: Rows, after: Rows, ids: set<RowId>) {
      && after.Keys == before.Keys
      && forall id | id in before ::
          if id in ids then Row(id, before[id]) == Some(after[id]) else after[id] == before[id]
    }

    /** Some given row cannot be read or written. */
    predicate Stuck(rows: Rows, ids: set<RowId>) {
      exists id | id in ids && id in rows :: Row(id, rows[id]) == None
    }
  }

  /** How reading the state row goes at startup. */
  datatype Reading = Read | MissingTable | Unreadable

  /** Reading the state row stops this startup: on any error but a missing table, and on that one when
      encryption is on. */
  predicate Unread(reading: Reading, cfg: Config) {
    reading == Unreadable || (reading == MissingTable && cfg.enabled)
  }

  /** Which reads of a rotation work: of the state row, of the counts, and of each table. */
  datatype Reads = Reads(state: bool, counts: bool, tables: Table -> bool)

  /** The database, with every row and the state row. Write number `n` succeeds when `accepts(n)`. */
  class PrismaService {
    const accepts: nat -> bool
    var rows: Rows
    var state: Option<EncryptionState>
    var writes: nat

    constructor (accepts: nat -> bool, rows: Rows, state: Option<EncryptionState>)
      ensures this.accepts == accepts && this.rows == rows && this.state == state && writes == 0
    {
      this.accepts, this.rows, this.state, this.writes := accepts, rows, state, 0;
    }

    /** Startup: `ok` is false when an exception stops the process. `counted` says whether the rows and locks
        can be counted when encryption is switched on. */
    method ValidateEncryptionState(cfg: Config, reading: Reading, locks: nat, counted: bool) returns (ok: bool)
      requires reading == MissingTable ==> state == None
      modifies this
      ensures ok ==>
        Startup(Database(old(rows), old(state)), cfg, locks) == Some(Database(rows, state)) && !Unread(reading, cfg)
      ensures !ok ==> state == old(state)
      ensures !ok && writes == old(writes) ==>
        || Startup(Database(old(rows), old(state)), cfg, locks) == None || Unread(reading, cfg)
        || (cfg.enabled && old(state) == None && !counted)
      ensures !ok && writes != old(writes) ==> writes == old(writes) + 1 && !accepts(old(writes))
      ensures old(state).Some? ==> writes == old(writes) && state == old(state)
      ensures rows == old(rows)
    {
      if cfg.enabled && cfg.activeKeyId !in KeyIds(cfg.keyring) {
        return false;
      }
      if Unread(reading, cfg) {
        return false;
      }
      if !cfg.enabled {
        return !(state.Some? && state.value.enabled);
      }
      if state == None {
        ok := counted;
        if ok {
          ok := EnsureStrictlyEmpty(locks);
        }
        if ok {
          ok := Save(EncryptionState(true, cfg.activeKeyId, [], Completed));
        }
        return;
      }
      if !state.value.enabled || state.value.activeKeyId !in KeyIds(cfg.keyring) {
        return false;
      }
      return state.value.activeKeyId == cfg.activeKeyId || cfg.rotationMode;
    }

    method EnsureStrictlyEmpty(locks: nat) returns (empty: bool)
      ensures empty <==> rows == map[] && locks == 0
    {
      if rows != map[] {
        ghost var id :| id in rows;
        assert id in RowsOf(rows, id.table);
      }
      var auditLogs, dlqItems, targetSystems :=
        |RowsOf(rows, AuditLog)|, |RowsOf(rows, DlqItem)|, |RowsOf(rows, TargetSystem)|;
      empty := auditLogs == 0 && dlqItems == 0 && targetSystems == 0 && locks == 0;
    }

    method Save(next: EncryptionState) returns (ok: bool)
      modifies this`state, this`writes
      ensures ok == accepts(old(writes)) && writes == old(writes) + 1
      ensures state == if ok then Some(next) else old(state)
    {
      ok := accepts(writes);
      writes := writes + 1;
      if ok {
        state := Some(next);
      }
    }

    method Update(id: RowId, row: Row) returns (ok: bool)
      requires id in rows
      modifies this`rows, this`writes
      ensures ok == accepts(old(writes)) && writes == old(writes) + 1
      ensures rows == if ok then old(rows)[id := row] else old(rows)
    {
      ok := accepts(writes);
      writes := writes + 1;
      if ok {
        rows := rows[id := row];
      }
    }
  }

  /** The previous keys of the later state are those of the earlier one and its active key, each once and the
      latter first. */
  ghost predicate LedFrom(later: EncryptionState, earlier: EncryptionState) {
    && later.enabled == earlier.enabled && NoRepeats(later.previousKeyIds)
    && later.previousKeyIds != [] && later.previousKeyIds[0] == earlier.activeKeyId
    && forall k :: k in later.previousKeyIds <==> k == earlier.activeKeyId || k in earlier.previousKeyIds
  }

  lemma MarksLead(state: EncryptionState, cfg: Config)
    ensures LedFrom(Marked(state, Running), state) && LedFrom(Marked(state, Failed), state)
    ensures LedFrom(Rotated(state, cfg), state)
    ensures Rotated(state, cfg).activeKeyId == cfg.activeKeyId && Rotated(state, cfg).rotationStatus == Completed
    ensures forall status ::
      Marked(state, status).activeKeyId == state.activeKeyId && Marked(state, status).rotationStatus == status
  {
  }

  /** How a rotation ended: done, nothing to do, stopped before it marked the state, or thrown out of a loop. */
  datatype Outcome = Finished | AlreadyActive | Refused | Thrown

  class EncryptionRotationService {
    const prisma: PrismaService
    const lib: Library
    const cfg: Config
    const sqlite: bool

    constructor (prisma: PrismaService, lib: Library, cfg: Config, sqlite: bool)
      ensures this.prisma == prisma && this.lib == lib && this.cfg == cfg && this.sqlite == sqlite
    {
      this.prisma, this.lib, this.cfg, this.sqlite := prisma, lib, cfg, sqlite;
    }

    /** `lag` is `None` when asking Kafka fails. */
    method RotateToActiveKey(order: Listing, ivs: Vectors, readings: Reads, locks: nat, lag: Option<nat>)
      returns (outcome: Outcome)
      requires ListsAll(order, prisma.rows)
      modifies prisma
      ensures outcome == AlreadyActive <==>
        && readings.state && cfg.enabled && cfg.activeKeyId in KeyIds(cfg.keyring)
        && old(prisma.state).Some? && old(prisma.state).value.activeKeyId == cfg.activeKeyId
      ensures outcome in {AlreadyActive, Refused} ==>
        prisma.rows == old(prisma.rows) && prisma.state == old(prisma.state)
      ensures outcome in {Finished, Thrown} ==>
        && cfg.enabled && cfg.activeKeyId in KeyIds(cfg.keyring) && old(prisma.state).Some? && lag.Some?
        && old(prisma.state).value.activeKeyId != cfg.activeKeyId
        && locks == 0 && lag == Some(0) && NoOpenItem(old(prisma.rows))
      ensures outcome == Finished ==>
        && Rewriter(lib, cfg, sqlite, ivs).Fully(old(prisma.rows), prisma.rows, prisma.rows.Keys)
        && prisma.state == Some(Rotated(old(prisma.state).value, cfg))
        && prisma.state.value.activeKeyId == cfg.activeKeyId && prisma.state.value.rotationStatus == Completed
        && LedFrom(prisma.state.value, old(prisma.state).value)
      ensures outcome == Thrown ==>
        && Rewriter(lib, cfg, sqlite, ivs).Partly(old(prisma.rows), prisma.rows, prisma.rows.Keys)
        && prisma.writes > 0
        && prisma.state ==
             Some(Marked(old(prisma.state).value, if prisma.accepts(prisma.writes - 1) then Failed else Running))
        && prisma.state.value.activeKeyId == old(prisma.state).value.activeKeyId
        && prisma.state.value.rotationStatus == (if prisma.accepts(prisma.writes - 1) then Failed else Running)
        && LedFrom(prisma.state.value, old(prisma.state).value)
      ensures outcome in {Refused, Thrown} && (forall n: nat :: prisma.accepts(n)) ==>
        || !readings.state || !readings.counts || (exists t :: !readings.tables(t))
        || !cfg.enabled || cfg.activeKeyId !in KeyIds(cfg.keyring) || old(prisma.state) == None || lag == None
        || !Quiet(Database(old(prisma.rows), old(prisma.state)), locks, lag.value)
        || Rewriter(lib, cfg, sqlite, ivs).Stuck(old(prisma.rows), old(prisma.rows).Keys)
    {
      hide Reencrypt, Marked, Rotated, LedFrom, Rewriter.Fully, Rewriter.Partly, Rewriter.Stuck, ListsAll;
      ghost var before := prisma.rows;
      if prisma.state.Some? {
        MarksLead(prisma.state.value, cfg);
      }
      if !cfg.enabled || cfg.activeKeyId !in KeyIds(cfg.keyring) || !readings.state || prisma.state == None {
        return Refused;
      }
      var state := prisma.state.value;
      if state.activeKeyId == cfg.activeKeyId {
        return AlreadyActive;
      }
      var quiet := AssertNoActiveProcessing(locks, lag);
      if !readings.counts || !quiet {
        return Refused;
      }
      var ok := prisma.Save(Marked(state, Running));
      if !ok {
        return Refused;
      }
      ok := RotateTables(order, ivs, readings.tables);
      if ok {
        FullyIsPartly(Rewriter(lib, cfg, sqlite, ivs), before, prisma.rows, prisma.rows.Keys);
        ok := prisma.Save(Rotated(state, cfg));
      }
      if ok {
        return Finished;
      }
      ok := prisma.Save(Marked(state, Failed));
      return Thrown;
    }

    method AssertNoActiveProcessing(locks: nat, lag: Option<nat>) returns (quiet: bool)
      ensures quiet <==> lag == Some(0) && locks == 0 && NoOpenItem(prisma.rows)
    {
      var dlqActive := set id | id in prisma.rows && id.table == DlqItem && prisma.rows[id].open;
      quiet := lag.Some? && |dlqActive| == 0 && locks == 0 && lag.value == 0;
      if exists id :: id in prisma.rows && id.table == DlqItem && prisma.rows[id].open {
        var id :| id in prisma.rows && id.table == DlqItem && prisma.rows[id].open;
        assert id in dlqActive;
      }
    }

    method RotateTables(order: Listing, ivs: Vectors, readable: Table -> bool) returns (ok: bool)
      requires ListsAll(order, prisma.rows)
      modifies prisma`rows, prisma`writes
      ensures var w := Rewriter(lib, cfg, sqlite, ivs);
        if ok then w.Fully(old(prisma.rows), prisma.rows, prisma.rows.Keys)
        else w.Partly(old(prisma.rows), prisma.rows, prisma.rows.Keys)
      ensures !ok && (forall n: nat :: prisma.accepts(n)) ==>
        || (exists t :: !readable(t)) || Rewriter(lib, cfg, sqlite, ivs).Stuck(old(prisma.rows), old(prisma.rows).Keys)
    {
      hide Rewriter.Row;
      ok := RotateTable(order.auditLogs, AuditLog, ivs, readable);
      if !ok {
        return;
      }
      ok := RotateTable(order.dlqItems, DlqItem, ivs, readable);
      if !ok {
        return;
      }
      ok := RotateTable(order.targetSystems, TargetSystem, ivs, readable);
    }

    /** One loop, for any of the three tables: read each row, write it back, stop at the first exception. */
    method RotateTable(ids: seq<RowId>, table: Table, ivs: Vectors, readable: Table -> bool) returns (ok: bool)
      requires Lists(ids, prisma.rows, table)
      modifies prisma`rows, prisma`writes
      ensures var w := Rewriter(lib, cfg, sqlite, ivs);
        if ok then w.Fully(old(prisma.rows), prisma.rows, set id | id in ids)
        else w.Partly(old(prisma.rows), prisma.rows, set id | id in ids)
      ensures !ok && (forall n: nat :: prisma.accepts(n)) ==>
        !readable(table) || Rewriter(lib, cfg, sqlite, ivs).Stuck(old(prisma.rows), set id | id in ids)
    {
      hide Reencrypt;
      if !readable(table) {
        return false;
      }
      ghost var w := Rewriter(lib, cfg, sqlite, ivs);
      var i := 0;
      while i < |ids|
        invariant 0 <= i <= |ids|
        invariant w.Fully(old(prisma.rows), prisma.rows, set id | id in ids[..i])
      {
        var row := Reencrypt(lib, cfg, sqlite, prisma.rows[ids[i]], ivs(ids[i]));
        assert prisma.rows[ids[i]] == old(prisma.rows)[ids[i]];
        if row == None {
          assert w.Row(ids[i], old(prisma.rows)[ids[i]]) == None;
          return false;
        }
        ok := prisma.Update(ids[i], row.value);
        if !ok {
          return;
        }
        i := i + 1;
      }
      assert ids[..i] == ids;
      return true;
    }
  }

  /** A maintenance session: the guard, the rotation, a normal process with the same configuration, and the
      rotation again. After a finished rotation the process starts, and there is nothing left to rotate. */
  method RotateServeRotate(
      service: EncryptionRotationService, order: Listing, ivs: Vectors, readings: Reads,
      locks: nat, later: nat, lag: Option<nat>)
    returns (admitted: bool, outcome: Outcome, started: bool, second: Outcome)
    requires ListsAll(order, service.prisma.rows) && readings.state
    modifies service.prisma
    ensures admitted && outcome == Finished ==>
      && started && second == AlreadyActive
      && service.prisma.state.Some? && service.prisma.state.value.activeKeyId == service.cfg.activeKeyId
      && service.prisma.state.value.rotationStatus == Completed
      && Rewriter(service.lib, service.cfg, service.sqlite, ivs).Fully(
           old(service.prisma.rows), service.prisma.rows, service.prisma.rows.Keys)
  {
    hide Reencrypt, Marked, Rotated, Rewriter.Row, NoRepeats;
    outcome, started, second := Refused, false, Refused;
    admitted := service.prisma.ValidateEncryptionState(service.cfg, Read, locks, true);
    if admitted {
      outcome := service.RotateToActiveKey(order, ivs, readings, locks, lag);
    }
    if outcome == Finished {
      started := service.prisma.ValidateEncryptionState(service.cfg.(rotationMode := false), Read, later, true);
      second := service.RotateToActiveKey(order, ivs, readings, later, lag);
    }
  }

  // ----- What the outcomes mean -----

  lemma FullyIsPartly(w: Rewriter, before: Rows, after: Rows, ids: set<RowId>)
    requires w.Fully(before, after, ids)
    ensures w.Partly(before, after, ids)
  {
    hide Rewriter.Row;
  }

  /** However far a rotation got, no row says anything else than before. */
  lemma PartlyKeepsMeaning(w: Rewriter, all: Keyring, before: Rows, after: Rows, ids: set<RowId>)
    requires w.lib.Lawful() && PartOf(w.cfg.keyring, all) && w.cfg.enabled && w.cfg.activeKeyId in KeyIds(w.cfg.keyring)
    requires w.Partly(before, after, ids)
    ensures forall id | id in before :: Meaning(w.lib, all, after[id]) == Meaning(w.lib, all, before[id])
  {
    hide Reencrypt, Meaning, Encryption.Library.Lawful, PartOf;
    forall id | id in before ensures Meaning(w.lib, all, after[id]) == Meaning(w.lib, all, before[id]) {
      if after[id] != before[id] {
        ReencryptKeepsMeaning(w.lib, w.cfg, all, w.sqlite, before[id], w.ivs(id));
      }
    }
  }

  /** A finished rotation leaves every row under the new key, saying what it said. */
  lemma FullyIsUnderKey(w: Rewriter, all: Keyring, before: Rows, after: Rows)
    requires w.lib.Lawful() && PartOf(w.cfg.keyring, all) && w.cfg.enabled && w.cfg.activeKeyId in KeyIds(w.cfg.keyring)
    requires w.Fully(before, after, before.Keys)
    ensures AllUnderKey(w.lib, after, w.cfg.activeKeyId)
    ensures forall id | id in before :: Meaning(w.lib, all, after[id]) == Meaning(w.lib, all, before[id])
  {
    hide Reencrypt, Meaning, Encryption.Library.Lawful, PartOf, RowUnderKey;
    forall id | id in before
      ensures RowUnderKey(w.lib, after[id], w.cfg.activeKeyId)
      ensures Meaning(w.lib, all, after[id]) == Meaning(w.lib, all, before[id])
    {
      ReencryptKeepsMeaning(w.lib, w.cfg, all, w.sqlite, before[id], w.ivs(id));
    }
  }

  /** A rotation is stuck on a row exactly when some column of it cannot be read with its keyring. */
  lemma StuckIffUnreadable(w: Rewriter, rows: Rows, ids: set<RowId>)
    requires w.lib.Lawful() && w.cfg.enabled && w.cfg.activeKeyId in KeyIds(w.cfg.keyring)
    ensures w.Stuck(rows, ids) <==>
      exists id, i | id in ids && id in rows && 0 <= i < |rows[id].columns| ::
        FromJson(w.lib, w.cfg.keyring, rows[id].columns[i]) == None
  {
    hide FromJson, ToJson, Encryption.Library.Lawful;
    forall id | id in ids && id in rows
      ensures w.Row(id, rows[id]) == None <==>
        exists i | 0 <= i < |rows[id].columns| :: FromJson(w.lib, w.cfg.keyring, rows[id].columns[i]) == None
    {
      RowIsStuckIffUnreadable(w, id, rows[id]);
    }
  }

  lemma RowIsStuckIffUnreadable(w: Rewriter, id: RowId, row: Row)
    requires w.lib.Lawful() && w.cfg.enabled && w.cfg.activeKeyId in KeyIds(w.cfg.keyring)
    ensures w.Row(id, row) == None <==>
      exists i | 0 <= i < |row.columns| :: FromJson(w.lib, w.cfg.keyring, row.columns[i]) == None
  {
    hide FromJson, ToJson, Encryption.Library.Lawful, UnderKey;
    forall i | 0 <= i < |row.columns|
      ensures ReencryptColumn(w.lib, w.cfg, w.sqlite, row.columns[i], w.ivs(id)(i)) == None
        <==> FromJson(w.lib, w.cfg.keyring, row.columns[i]) == None
    {
      var v := FromJson(w.lib, w.cfg.keyring, row.columns[i]);
      if v.Some? {
        WrittenUnderActiveKey(w.lib, w.cfg, w.cfg.keyring, w.sqlite, v.value, w.ivs(id)(i));
      }
    }
  }

  // ----- The command takes the steps of the protocol -----

  ghost predicate Path(w: World, from: System, steps: seq<RotationProtocol.Step>, to: System)
    decreases |steps|
  {
    if steps == [] then from == to
    else Enabled(w, from, steps[0]) && Path(w, RotationProtocol.Next(w, from, steps[0]), steps[1..], to)
  }

  lemma {:induction false} PathsJoin(
    w: World, a: System, first: seq<RotationProtocol.Step>, b: System, then_: seq<RotationProtocol.Step>, c: System)
    requires Path(w, a, first, b) && Path(w, b, then_, c)
    ensures Path(w, a, first + then_, c)
    decreases |first|
  {
    hide Allowed, Disciplined, RotationProtocol.Next;
    if first == [] {
      assert first + then_ == then_;
    } else {
      PathsJoin(w, RotationProtocol.Next(w, a, first[0]), first[1..], b, then_, c);
      assert (first + then_)[1..] == first[1..] + then_;
    }
  }

  lemma {:induction false} RowByRow(w: World, s: System, ivs: Vectors, after: Rows, ids: set<RowId>)
    returns (steps: seq<RotationProtocol.Step>)
    requires s.rotation.Some? && ids <= s.rotation.value.todo && after.Keys == s.db.rows.Keys && ids <= after.Keys
    requires forall id | id in after ::
      if id in ids then Reencrypt(w.lib, s.rotation.value.cfg, w.sqlite, s.db.rows[id], ivs(id)) == Some(after[id])
      else s.db.rows[id] == after[id]
    ensures var r := s.rotation.value;
      Path(w, s, steps, s.(db := s.db.(rows := after), rotation := Some(r.(todo := r.todo - ids))))
    decreases |ids|
  {
    hide Reencrypt;
    if ids == {} {
      steps := [];
      assert s.db.rows == after;
      assert s.rotation.value.todo - ids == s.rotation.value.todo;
    } else {
      var id :| id in ids;
      var step := RotateRow(id, ivs(id));
      var r := s.rotation.value;
      var s1 := RotationProtocol.Next(w, s, step);
      steps := RowByRow(w, s1, ivs, after, ids - {id});
      assert r.todo - {id} - (ids - {id}) == r.todo - ids;
      assert ([step] + steps)[1..] == steps;
      steps := [step] + steps;
    }
  }

  /** What `RotateToActiveKey` leaves behind, finished or thrown, a path of protocol steps leads to. */
  lemma OutcomeIsAPath(
      w: World, s: System, cfg: Config, ivs: Vectors, locks: nat, lag: nat, after: Rows, outcome: Outcome, marked: bool)
    returns (steps: seq<RotationProtocol.Step>, t: System)
    requires Enabled(w, s, BeginRotation(cfg, locks, lag)) && cfg.enabled && s.db.state.Some?
    requires s.db.state.value.activeKeyId != cfg.activeKeyId && Quiet(s.db, locks, lag)
    requires var rw := Rewriter(w.lib, cfg, w.sqlite, ivs);
      || (outcome == Finished && rw.Fully(s.db.rows, after, after.Keys))
      || (outcome == Thrown && rw.Partly(s.db.rows, after, after.Keys))
    ensures Path(w, s, steps, t) && t.written == s.written && t.db.rows == after
    ensures var state := s.db.state.value;
      t.db.state == Some(
        if outcome == Finished then Rotated(state, cfg) else Marked(state, if marked then Failed else Running))
  {
    hide Reencrypt, Marked, Rotated, Quiet, PartOf;
    var begin := BeginRotation(cfg, locks, lag);
    var s1 := RotationProtocol.Next(w, s, begin);
    var done := if outcome == Finished then after.Keys else set id | id in after && after[id] != s.db.rows[id];
    var rows := RowByRow(w, s1, ivs, after, done);
    var r := s1.rotation.value;
    var s2 := s1.(db := s1.db.(rows := after), rotation := Some(r.(todo := r.todo - done)));
    var end := if outcome == Finished then CompleteRotation else FailRotation(marked);
    t := RotationProtocol.Next(w, s2, end);
    assert Path(w, s2, [end], t) by {
      assert Path(w, t, [], t);
      assert [end][1..] == [];
    }
    PathsJoin(w, s1, rows, s2, [end], t);
    steps := [begin] + (rows + [end]);
  }

  // ----- Kafka lag -----

  /** A topic's partitions with their end offsets, and the group's committed offsets in it. */
  datatype Offsets = Offsets(ends: seq<(nat, int)>, committed: map<nat, int>)

  function Backlog(topic: Offsets, partition: (nat, int)): nat {
    var committed := if partition.0 in topic.committed then topic.committed[partition.0] else -1;
    var read := if committed > 0 then committed else 0;
    if partition.1 > read then partition.1 - read else 0
  }

  /** Every partition is empty or committed up to its end. */
  predicate Drained(topic: Offsets) {
    forall p | p in topic.ends :: p.1 <= 0 || (p.0 in topic.committed && p.1 <= topic.committed[p.0])
  }

  function LagOf(topic: Offsets, n: nat): (lag: nat)
    requires n <= |topic.ends|
    ensures lag == 0 <==> Drained(topic.(ends := topic.ends[..n]))
  {
    if n == 0 then 0
    else
      assert topic.ends[..n] == topic.ends[..n - 1] + [topic.ends[n - 1]];
      LagOf(topic, n - 1) + Backlog(topic, topic.ends[n - 1])
  }

  function TotalLag(topics: seq<Offsets>): (lag: nat)
    ensures lag == 0 <==> forall t | t in topics :: Drained(t)
  {
    if topics == [] then 0
    else
      var n := |topics| - 1;
      assert topics == topics[..n] + [topics[n]];
      assert topics[n].ends[..|topics[n].ends|] == topics[n].ends;
      TotalLag(topics[..n]) + LagOf(topics[n], |topics[n].ends|)
  }

  /** What the rotation asks Kafka, unless it is off or the check is skipped; a topic named twice counts once. */
  method KafkaLag(enabled: bool, skipCheck: bool, eventsIn: string, dlqRetry: string, fetch: string -> Offsets)
    returns (lag: nat)
    ensures lag == 0 <==> !enabled || skipCheck || (Drained(fetch(eventsIn)) && Drained(fetch(dlqRetry)))
    ensures enabled && !skipCheck ==>
      lag == TotalLag([fetch(eventsIn)] + if eventsIn == dlqRetry then [] else [fetch(dlqRetry)])
  {
    hide Backlog, Drained;
    lag := 0;
    if !enabled || skipCheck {
      return;
    }
    var topics := [fetch(eventsIn)] + if eventsIn == dlqRetry then [] else [fetch(dlqRetry)];
    for i := 0 to |topics|
      invariant lag == TotalLag(topics[..i])
    {
      for j := 0 to |topics[i].ends|
        invariant lag == TotalLag(topics[..i]) + LagOf(topics[i], j)
      {
        lag := lag + Backlog(topics[i], topics[i].ends[j]);
      }
      assert topics[..i + 1][..i] == topics[..i];
    }
    assert topics[..|topics|] == topics;
    assert topics[0] == fetch(eventsIn) && topics[|topics| - 1] == fetch(dlqRetry);
  }
}
