/** The life of an encrypted database: enablement, normal workers, rotations that complete, fail or crash,
    and their re-runs. Rotation is a maintenance operation: no normal worker runs beside it. */
module RotationProtocol {
  import opened Json
  import opened Encryption
  import opened EncryptedDatabase

  /** What stays fixed over a run: the libraries, the provider, and the material of every key ever used. */
  datatype World = World(lib: Library, sqlite: bool, all: Keyring)

  /** A rotation at work: its configuration, the state row it loaded, and the rows not yet rewritten. */
  datatype Rotation = Rotation(cfg: Config, loaded: EncryptionState, todo: set<RowId>)

  type Contents = map<RowId, seq<Json>>

  /** `written` is what the application last wrote to each row; `formers` the keys rotated away from. */
  datatype System = System(
    db: Database, serving: set<Config>, rotation: Option<Rotation>, written: Contents, formers: set<KeyId>)

  datatype Step =
    | StartWorker(cfg: Config, locks: nat)
    | StopWorker(cfg: Config)
    | Write(cfg: Config, id: RowId, values: seq<Json>, row: Row, iv: nat -> string)
    | SetOpen(id: RowId, open: bool)
    | Remove(id: RowId)
    | BeginRotation(cfg: Config, locks: nat, lag: nat)
    | RotateRow(id: RowId, iv: nat -> string)
    | FailRotation(marked: bool)
    | CompleteRotation

  predicate Wrote(w: World, cfg: Config, values: seq<Json>, row: Row, iv: nat -> string) {
    |row.columns| == |values|
    && forall i | 0 <= i < |values| :: ToJson(w.lib, cfg, w.sqlite, values[i], iv(i)) == Some(row.columns[i])
  }

  /** What the code lets happen. */
  ghost predicate Allowed(w: World, s: System, step: Step) {
    match step
    case StartWorker(cfg, locks) =>
      PartOf(cfg.keyring, w.all) && s.rotation == None && Startup(s.db, cfg, locks).Some?
    case StopWorker(cfg) => cfg in s.serving
    case Write(cfg, _, values, row, iv) => cfg in s.serving && Wrote(w, cfg, values, row, iv)
    case SetOpen(id, _) => s.serving != {} && id in s.db.rows
    case Remove(id) => s.serving != {} && id in s.db.rows
    case BeginRotation(cfg, locks, _) =>
      && PartOf(cfg.keyring, w.all) && cfg.rotationMode && s.serving == {} && s.rotation == None
      && Startup(s.db, cfg, locks).Some?
    case RotateRow(id, iv) =>
      && s.rotation.Some? && id in s.rotation.value.todo && id in s.db.rows
      && Reencrypt(w.lib, s.rotation.value.cfg, w.sqlite, s.db.rows[id], iv).Some?
    case FailRotation(_) => s.rotation.Some?
    case CompleteRotation => s.rotation.Some? && s.rotation.value.todo == {}
  }

  /** What the operator sees to: no worker runs while encryption is switched on, and a worker in rotation mode has
      the active key of the database. Of every other worker the guard checks that. */
  predicate Disciplined(s: System, step: Step) {
    match step
    case StartWorker(cfg, _) =>
      cfg.enabled ==>
        if s.db.state == None then s.serving == {}
        else cfg.rotationMode ==> cfg.activeKeyId == s.db.state.value.activeKeyId
    case _ => true
  }

  ghost predicate Enabled(w: World, s: System, step: Step) {
    Allowed(w, s, step) && Disciplined(s, step)
  }

  /** The rotation command after startup: it refuses, returns early, or marks the state and begins. */
  function Begun(s: System, cfg: Config, locks: nat, lag: nat): System {
    if !cfg.enabled || s.db.state == None || s.db.state.value.activeKeyId == cfg.activeKeyId || !Quiet(s.db, locks, lag)
    then s
    else
      var loaded := s.db.state.value;
      s.(db := s.db.(state := Some(Marked(loaded, Running))),
         rotation := Some(Rotation(cfg, loaded, s.db.rows.Keys)))
  }

  /** A crash of the rotation is a `FailRotation` that does not get to mark the state. */
  ghost function Next(w: World, s: System, step: Step): System
    requires Allowed(w, s, step)
  {
    match step
    case StartWorker(cfg, locks) => s.(db := Startup(s.db, cfg, locks).value, serving := s.serving + {cfg})
    case StopWorker(cfg) => s.(serving := s.serving - {cfg})
    case Write(_, id, values, row, _) =>
      s.(db := s.db.(rows := s.db.rows[id := row]), written := s.written[id := values])
    case SetOpen(id, open) => s.(db := s.db.(rows := s.db.rows[id := s.db.rows[id].(open := open)]))
    case Remove(id) => s.(db := s.db.(rows := s.db.rows - {id}), written := s.written - {id})
    case BeginRotation(cfg, locks, lag) =>
      Begun(s.(db := Startup(s.db, cfg, locks).value), cfg, locks, lag)
    case RotateRow(id, iv) =>
      var r := s.rotation.value;
      var row := Reencrypt(w.lib, r.cfg, w.sqlite, s.db.rows[id], iv).value;
      s.(db := s.db.(rows := s.db.rows[id := row]), rotation := Some(r.(todo := r.todo - {id})))
    case FailRotation(marked) =>
      var failed := if marked then Some(Marked(s.rotation.value.loaded, Failed)) else s.db.state;
      s.(db := s.db.(state := failed), rotation := None)
    case CompleteRotation =>
      var r := s.rotation.value;
      s.(db := s.db.(state := Some(Rotated(r.loaded, r.cfg))), rotation := None,
         formers := s.formers + {r.loaded.activeKeyId})
  }

  // ----- The invariant -----

  ghost predicate Usable(w: World, cfg: Config) {
    PartOf(cfg.keyring, w.all) && cfg.enabled && cfg.activeKeyId in KeyIds(cfg.keyring)
  }

  predicate Reads(w: World, ring: Keyring, row: Row, values: seq<Json>) {
    |row.columns| == |values|
    && forall i | 0 <= i < |values| :: FromJson(w.lib, ring, row.columns[i]) == Some(values[i])
  }

  predicate ReadsAsWritten(w: World, rows: Rows, written: Contents) {
    && written.Keys == rows.Keys
    && forall id | id in rows ::
         Reads(w, w.all, rows[id], written[id]) && RowEnveloped(w.lib, rows[id])
  }

  predicate NoRepeats(ids: seq<KeyId>) {
    forall i, j | 0 <= i < j < |ids| :: ids[i] != ids[j]
  }

  ghost predicate KeyHistory(state: EncryptionState, formers: set<KeyId>) {
    state.enabled && NoRepeats(state.previousKeyIds) && forall k | k in formers :: k in state.previousKeyIds
  }

  /** Every dead-letter item is skipped or resolved. */
  predicate NoOpenItem(rows: Rows) {
    forall id | id in rows && id.table == DlqItem :: !rows[id].open
  }

  ghost predicate RotationInv(w: World, s: System, state: EncryptionState, r: Rotation) {
    && s.serving == {} && Usable(w, r.cfg) && NoOpenItem(s.db.rows)
    && r.loaded.enabled && state == Marked(r.loaded, Running)
    && forall id | id in s.db.rows && id !in r.todo :: RowUnderKey(w.lib, s.db.rows[id], r.cfg.activeKeyId)
  }

  ghost predicate Inv(w: World, s: System) {
    match s.db.state
    case None =>
      s.written.Keys == s.db.rows.Keys && s.rotation == None && s.formers == {}
      && forall cfg | cfg in s.serving :: !cfg.enabled
    case Some(state) =>
      && ReadsAsWritten(w, s.db.rows, s.written)
      && KeyHistory(state, s.formers) && state.activeKeyId in KeyIds(w.all)
      && (forall cfg | cfg in s.serving :: Usable(w, cfg) && cfg.activeKeyId == state.activeKeyId)
      && (state.rotationStatus == Completed ==> AllUnderKey(w.lib, s.db.rows, state.activeKeyId))
      && (s.rotation.Some? ==> RotationInv(w, s, state, s.rotation.value))
  }

  // ----- Every step keeps it -----

  lemma WriteKeepsInv(w: World, s: System, step: Step)
    requires w.lib.Lawful() && Inv(w, s) && step.Write? && Enabled(w, s, step)
    ensures Inv(w, Next(w, s, step))
  {
    hide ToJson, FromJson, Enveloped, KeyOf, PartOf, Encryption.Library.Lawful, NoRepeats;
    if s.db.state.Some? {
      var (cfg, row, values) := (step.cfg, step.row, step.values);
      forall i | 0 <= i < |values|
        ensures UnderKey(w.lib, row.columns[i], cfg.activeKeyId)
        ensures FromJson(w.lib, w.all, row.columns[i]) == Some(values[i])
      {
        assert ToJson(w.lib, cfg, w.sqlite, values[i], step.iv(i)) == Some(row.columns[i]);
        WrittenUnderActiveKey(w.lib, cfg, w.all, w.sqlite, values[i], step.iv(i));
      }
    }
  }

  lemma SetOpenKeepsInv(w: World, s: System, step: Step)
    requires Inv(w, s) && step.SetOpen? && Enabled(w, s, step)
    ensures Inv(w, Next(w, s, step))
  {
    hide ToJson, FromJson, Enveloped, KeyOf, PartOf, NoRepeats;
    if s.db.state.Some? {
      var row := s.db.rows[step.id];
      assert Reads(w, w.all, row, s.written[step.id]);
      assert Reads(w, w.all, row.(open := step.open), s.written[step.id]);
    }
  }

  lemma RotateRowKeepsInv(w: World, s: System, step: Step)
    requires w.lib.Lawful() && Inv(w, s) && step.RotateRow? && Enabled(w, s, step)
    ensures Inv(w, Next(w, s, step))
  {
    hide ToJson, FromJson, Enveloped, KeyOf, PartOf, Reencrypt, Encryption.Library.Lawful, NoRepeats;
    var row, values := s.db.rows[step.id], s.written[step.id];
    ReencryptKeepsMeaning(w.lib, s.rotation.value.cfg, w.all, w.sqlite, row, step.iv);
    var r := Reencrypt(w.lib, s.rotation.value.cfg, w.sqlite, row, step.iv).value;
    assert Reads(w, w.all, r, values) by {
      forall i | 0 <= i < |values| ensures FromJson(w.lib, w.all, r.columns[i]) == Some(values[i]) {
        assert Meaning(w.lib, w.all, r)[i] == Meaning(w.lib, w.all, row)[i];
      }
    }
  }

  lemma KeysOfThePart(w: World)
    ensures forall ring: Keyring, id | PartOf(ring, w.all) && id in KeyIds(ring) :: id in KeyIds(w.all)
  {
    forall ring: Keyring, id | PartOf(ring, w.all) && id in KeyIds(ring) ensures id in KeyIds(w.all) {
      assert RequireKey(ring, id).Some?;
    }
  }

  /** Of a normal worker's active key the guard makes sure, of others the operator. */
  lemma StartKeepsInv(w: World, s: System, step: Step)
    requires w.lib.Lawful() && Inv(w, s) && step.StartWorker? && Enabled(w, s, step)
    ensures Inv(w, Next(w, s, step))
  {
    hide PartOf, Encryption.Library.Lawful, RowUnderKey, Reads, KeyIds;
    KeysOfThePart(w);
  }

  lemma BeginKeepsInv(w: World, s: System, step: Step)
    requires w.lib.Lawful() && Inv(w, s) && step.BeginRotation? && Enabled(w, s, step)
    ensures Inv(w, Next(w, s, step))
  {
    hide PartOf, Encryption.Library.Lawful, RowUnderKey, Reads, KeyIds;
    KeysOfThePart(w);
  }

  lemma StepKeepsInv(w: World, s: System, step: Step)
    requires w.lib.Lawful() && Inv(w, s) && Enabled(w, s, step)
    ensures Inv(w, Next(w, s, step))
  {
    hide Reencrypt, Reads, RowUnderKey, PartOf, Encryption.Library.Lawful, KeyIds;
    match step
    case StartWorker(_, _) => StartKeepsInv(w, s, step);
    case BeginRotation(_, _, _) => BeginKeepsInv(w, s, step);
    case CompleteRotation => KeysOfThePart(w);
    case Write(_, _, _, _, _) => WriteKeepsInv(w, s, step);
    case SetOpen(_, _) => SetOpenKeepsInv(w, s, step);
    case RotateRow(_, _) => RotateRowKeepsInv(w, s, step);
    case _ =>
  }

  // ----- Whole runs -----

  /** A run from an installation whose database has never been encrypted. */
  ghost predicate Run(w: World, states: seq<System>, steps: seq<Step>) {
    && |states| == |steps| + 1
    && states[0].db.state == None && states[0].serving == {} && states[0].rotation == None
    && states[0].written.Keys == states[0].db.rows.Keys && states[0].formers == {}
    && forall i | 0 <= i < |steps| ::
        Enabled(w, states[i], steps[i]) && states[i + 1] == Next(w, states[i], steps[i])
  }

  lemma {:induction false} RunKeepsInv(w: World, states: seq<System>, steps: seq<Step>, n: nat)
    requires w.lib.Lawful() && Run(w, states, steps) && n < |states|
    ensures Inv(w, states[n])
  {
    if n > 0 {
      RunKeepsInv(w, states, steps, n - 1);
      StepKeepsInv(w, states[n - 1], steps[n - 1]);
    }
  }

  /** Whatever rotations completed, failed, crashed or ran again, an encrypted database always says what was
      last written to it, given the material of every key. */
  lemma EveryRowReadsAsWritten(w: World, states: seq<System>, steps: seq<Step>, n: nat)
    requires w.lib.Lawful() && Run(w, states, steps) && n < |states| && states[n].db.state.Some?
    ensures ReadsAsWritten(w, states[n].db.rows, states[n].written)
  {
    RunKeepsInv(w, states, steps, n);
  }

  /** `completed` means one key: the active one encrypts every row. */
  lemma CompletedMeansOneKey(w: World, states: seq<System>, steps: seq<Step>, n: nat)
    requires w.lib.Lawful() && Run(w, states, steps) && n < |states|
    ensures var s := states[n].db.state;
      s.Some? && s.value.rotationStatus == Completed ==> AllUnderKey(w.lib, states[n].db.rows, s.value.activeKeyId)
  {
    RunKeepsInv(w, states, steps, n);
  }

  /** Exactly what a keyring needs: the key of every column it may meet. */
  lemma ReadsAllIffHoldsTheirKeys(w: World, states: seq<System>, steps: seq<Step>, n: nat, ring: Keyring)
    requires w.lib.Lawful() && Run(w, states, steps) && n < |states| && states[n].db.state.Some? && PartOf(ring, w.all)
    ensures var s := states[n];
      s.written.Keys == s.db.rows.Keys
      && forall id | id in s.db.rows ::
          Reads(w, ring, s.db.rows[id], s.written[id]) <==> RowKeysIn(w.lib, s.db.rows[id], KeyIds(ring))
  {
    hide FromJson, Enveloped, KeyOf, PartOf, Encryption.Library.Lawful, Run, KeyIds;
    RunKeepsInv(w, states, steps, n);
    var s := states[n];
    forall id | id in s.db.rows
      ensures Reads(w, ring, s.db.rows[id], s.written[id]) <==> RowKeysIn(w.lib, s.db.rows[id], KeyIds(ring))
    {
      var row := s.db.rows[id];
      assert RowEnveloped(w.lib, row) && Reads(w, w.all, row, s.written[id]);
      forall i | 0 <= i < |row.columns|
        ensures FromJson(w.lib, ring, row.columns[i]) == Some(s.written[id][i]) <==>
          KeyOf(w.lib, row.columns[i]) in KeyIds(ring)
      {
        ReadingAgrees(w.lib, ring, w.all, row.columns[i]);
      }
    }
  }

  /** While `completed`, any encrypted startup the guard accepts reads every row as it was written. */
  lemma AcceptedStartupReadsAll(w: World, states: seq<System>, steps: seq<Step>, n: nat, cfg: Config, locks: nat)
    requires w.lib.Lawful() && Run(w, states, steps) && n < |states|
    requires PartOf(cfg.keyring, w.all) && cfg.enabled && Startup(states[n].db, cfg, locks).Some?
    requires states[n].db.state.Some? && states[n].db.state.value.rotationStatus == Completed
    ensures var s := states[n];
      s.written.Keys == s.db.rows.Keys
      && forall id | id in s.db.rows :: Reads(w, cfg.keyring, s.db.rows[id], s.written[id])
  {
    hide FromJson, Enveloped, KeyOf, PartOf, Encryption.Library.Lawful, Run, Reads, KeyIds;
    RunKeepsInv(w, states, steps, n);
    ReadsAllIffHoldsTheirKeys(w, states, steps, n, cfg.keyring);
    var s := states[n];
    forall id | id in s.db.rows ensures RowKeysIn(w.lib, s.db.rows[id], KeyIds(cfg.keyring)) {
      assert RowUnderKey(w.lib, s.db.rows[id], s.db.state.value.activeKeyId);
    }
  }

  /** No key that was ever rotated away from is forgotten, and none is listed twice. */
  lemma FormerKeysAreListed(w: World, states: seq<System>, steps: seq<Step>, m: nat, n: nat)
    requires w.lib.Lawful() && Run(w, states, steps) && m < n < |states|
    requires steps[m] == CompleteRotation
    ensures var s := states[n].db.state;
      s.Some? && NoRepeats(s.value.previousKeyIds)
      && states[m].rotation.value.loaded.activeKeyId in s.value.previousKeyIds
  {
    FormersGrow(w, states, steps, m + 1, n);
    RunKeepsInv(w, states, steps, n);
  }

  lemma {:induction false} FormersGrow(w: World, states: seq<System>, steps: seq<Step>, m: nat, n: nat)
    requires Run(w, states, steps) && m <= n < |states|
    ensures states[m].formers <= states[n].formers
  {
    hide Reencrypt, PartOf, Startup, Quiet;
    if m < n {
      FormersGrow(w, states, steps, m, n - 1);
      assert states[n] == Next(w, states[n - 1], steps[n - 1]);
    }
  }

  // ----- What the guard of a startup is worth -----

  /** A worker outside rotation mode may start on a completed database exactly when it holds its own active key
      and, whatever it will write, the database stays under the one key it is under. */
  lemma NormalStartIff(w: World, s: System, cfg: Config, locks: nat)
    requires w.lib.Lawful() && Inv(w, s) && PartOf(cfg.keyring, w.all) && cfg.enabled && !cfg.rotationMode
    requires s.db.state.Some? && s.db.state.value.rotationStatus == Completed
    ensures Startup(s.db, cfg, locks).Some? <==>
      Usable(w, cfg) && forall id, values, row, iv :: KeepsOneKey(w, s, cfg, id, values, row, iv)
  {
    hide KeepsOneKey, Encryption.Library.Lawful, PartOf, ReadsAsWritten, AllUnderKey;
    if Usable(w, cfg) {
      SameKeyIffKeepsOneKey(w, s, cfg);
    }
  }

  /** What a worker under the key `kid` writes, this keyring reads. */
  ghost predicate ReadsWorker(
    w: World, ring: Keyring, kid: KeyId, worker: Config, values: seq<Json>, row: Row, iv: nat -> string)
  {
    Usable(w, worker) && worker.activeKeyId == kid && Wrote(w, worker, values, row, iv) ==>
      Reads(w, ring, row, values)
  }

  /** A process in rotation mode may start on an encrypted database exactly when it holds its own active key and
      reads whatever the database's workers write. */
  lemma RotationStartIff(w: World, s: System, cfg: Config, locks: nat)
    requires w.lib.Lawful() && Inv(w, s) && PartOf(cfg.keyring, w.all) && cfg.enabled && cfg.rotationMode
    requires s.db.state.Some?
    ensures var kid := s.db.state.value.activeKeyId;
      Startup(s.db, cfg, locks).Some? <==>
        Usable(w, cfg) && forall worker, values, row, iv :: ReadsWorker(w, cfg.keyring, kid, worker, values, row, iv)
  {
    hide Encryption.Library.Lawful, PartOf, ReadsAsWritten, AllUnderKey, ToJson, FromJson, KeyIds, Enveloped, KeyOf;
    var kid := s.db.state.value.activeKeyId;
    if kid in KeyIds(cfg.keyring) {
      forall worker, values, row, iv ensures ReadsWorker(w, cfg.keyring, kid, worker, values, row, iv) {
        if Usable(w, worker) && worker.activeKeyId == kid && Wrote(w, worker, values, row, iv) {
          KeyReadsItsWorkers(w, cfg.keyring, worker, values, row, iv);
        }
      }
    } else {
      var iv: nat -> string := n => "";
      var worker := Config(true, false, false, false, kid, w.all);
      var row := WriteOne(w, worker, Null, iv) by {
        assert Usable(w, worker) by { WholeIsPart(w); }
      }
      ReadingAgrees(w.lib, cfg.keyring, w.all, row.columns[0]);
      assert !ReadsWorker(w, cfg.keyring, kid, worker, [Null], row, iv) by { WholeIsPart(w); }
    }
  }

  lemma WholeIsPart(w: World)
    ensures PartOf(w.all, w.all)
  {
  }

  lemma KeyReadsItsWorkers(w: World, ring: Keyring, worker: Config, values: seq<Json>, row: Row, iv: nat -> string)
    requires w.lib.Lawful() && PartOf(ring, w.all) && Usable(w, worker) && Wrote(w, worker, values, row, iv)
    requires worker.activeKeyId in KeyIds(ring)
    ensures Reads(w, ring, row, values)
  {
    hide Encryption.Library.Lawful, PartOf, ToJson, FromJson, KeyIds, Enveloped, KeyOf;
    forall i | 0 <= i < |values| ensures FromJson(w.lib, ring, row.columns[i]) == Some(values[i]) {
      assert ToJson(w.lib, worker, w.sqlite, values[i], iv(i)) == Some(row.columns[i]);
      WrittenUnderActiveKey(w.lib, worker, w.all, w.sqlite, values[i], iv(i));
      ReadingAgrees(w.lib, ring, w.all, row.columns[i]);
    }
  }

  /** A process without encryption starts exactly on a database that never had any. */
  lemma PlainStartIff(w: World, s: System, cfg: Config, locks: nat)
    requires Inv(w, s) && !cfg.enabled
    ensures Startup(s.db, cfg, locks).Some? <==> s.db.state == None
    ensures Startup(s.db, cfg, locks).Some? ==> Startup(s.db, cfg, locks).value == s.db
  {
  }

  /** Encryption is switched on exactly when nothing was stored before, neither rows nor locks, and the database
      records the key that it is under from then on. */
  lemma FirstStartIff(w: World, s: System, cfg: Config, locks: nat)
    requires PartOf(cfg.keyring, w.all) && cfg.enabled && s.db.state == None
    ensures Startup(s.db, cfg, locks).Some? <==> Usable(w, cfg) && s.db.rows.Keys == {} && locks == 0
    ensures Startup(s.db, cfg, locks).Some? ==>
      var db := Startup(s.db, cfg, locks).value;
      db.rows == s.db.rows && db.state == Some(EncryptionState(true, cfg.activeKeyId, [], Completed))
  {
    hide PartOf;
  }

  // ----- Finishing and re-running a rotation -----

  /** When a rotation has finished, the database says that it is completed under the new key, the old one being
      the latest of the previous keys; a normal process with the configuration of the rotation starts on it and
      reads every row, and the same rotation again does nothing. */
  lemma FinishedRotationServes(w: World, s: System, locks: nat, lag: nat)
    requires w.lib.Lawful() && Inv(w, s) && Allowed(w, s, CompleteRotation)
    ensures var (r, t) := (s.rotation.value, Next(w, s, CompleteRotation));
      && t.rotation == None && t.db.state.Some? && t.db.rows == s.db.rows
      && t.db.state.value.activeKeyId == r.cfg.activeKeyId && t.db.state.value.rotationStatus == Completed
      && r.loaded.activeKeyId in t.db.state.value.previousKeyIds[..1]
      && Startup(t.db, r.cfg.(rotationMode := false), locks) == Some(t.db)
      && (forall id | id in t.db.rows ::
            id in s.written && Reads(w, r.cfg.keyring, t.db.rows[id], s.written[id]))
      && var again := BeginRotation(r.cfg.(rotationMode := true), locks, lag);
         Allowed(w, t, again) && Next(w, t, again) == t
  {
    hide PartOf, Encryption.Library.Lawful, FromJson, Enveloped, KeyOf, NoRepeats;
    var r := s.rotation.value;
    forall id | id in s.db.rows ensures Reads(w, r.cfg.keyring, s.db.rows[id], s.written[id]) {
      var row, values := s.db.rows[id], s.written[id];
      assert RowUnderKey(w.lib, row, r.cfg.activeKeyId) && Reads(w, w.all, row, values);
      forall i | 0 <= i < |values| ensures FromJson(w.lib, r.cfg.keyring, row.columns[i]) == Some(values[i]) {
        assert UnderKey(w.lib, row.columns[i], r.cfg.activeKeyId);
        ReadingAgrees(w.lib, r.cfg.keyring, w.all, row.columns[i]);
      }
    }
  }

  /** A rotation begins exactly on a quiet, encrypted database with another active key, and no dead-letter item
      is open while it lasts. */
  lemma RotationIsQuiet(w: World, s: System, cfg: Config, locks: nat, lag: nat)
    requires Inv(w, s) && Enabled(w, s, BeginRotation(cfg, locks, lag))
    ensures Next(w, s, BeginRotation(cfg, locks, lag)).rotation.Some? <==>
      && cfg.enabled && s.db.state.Some? && s.db.state.value.activeKeyId != cfg.activeKeyId
      && locks == 0 && lag == 0 && NoOpenItem(s.db.rows)
  {
    hide PartOf;
  }

  /** A rotation whose keyring holds the keys of a row can always rewrite it. */
  lemma RowIsNeverStuck(w: World, s: System, id: RowId, iv: nat -> string)
    requires w.lib.Lawful() && Inv(w, s) && s.rotation.Some? && id in s.rotation.value.todo && id in s.db.rows
    requires RowKeysIn(w.lib, s.db.rows[id], KeyIds(s.rotation.value.cfg.keyring))
    ensures Enabled(w, s, RotateRow(id, iv))
  {
    hide ToJson, FromJson, Enveloped, KeyOf, PartOf, Encryption.Library.Lawful;
    var row, cfg := s.db.rows[id], s.rotation.value.cfg;
    assert Reads(w, w.all, row, s.written[id]);
    forall i | 0 <= i < |row.columns| ensures ReencryptColumn(w.lib, cfg, w.sqlite, row.columns[i], iv(i)).Some? {
      ReadingAgrees(w.lib, cfg.keyring, w.all, row.columns[i]);
      WrittenUnderActiveKey(w.lib, cfg, w.all, w.sqlite, s.written[id][i], iv(i));
    }
  }

  /** Setting the active key back to the old one and running the command again does not undo an unfinished
      rotation: it returns early, whatever mixture of keys the rows are under. */
  lemma RollbackDoesNothing(w: World, s: System, cfg: Config, locks: nat, lag: nat)
    requires Enabled(w, s, BeginRotation(cfg, locks, lag))
    requires s.db.state.Some? && cfg.activeKeyId == s.db.state.value.activeKeyId
    ensures Next(w, s, BeginRotation(cfg, locks, lag)) == s
  {
  }

  // ----- A worker in rotation mode -----

  /** If this is what a worker writes, the database stays under the one key it is under. */
  ghost predicate KeepsOneKey(
    w: World, s: System, cfg: Config, id: RowId, values: seq<Json>, row: Row, iv: nat -> string)
    requires s.db.state.Some?
  {
    Wrote(w, cfg, values, row, iv) ==> AllUnderKey(w.lib, s.db.rows[id := row], s.db.state.value.activeKeyId)
  }

  lemma SameKeyIffKeepsOneKey(w: World, s: System, cfg: Config)
    requires w.lib.Lawful() && Inv(w, s) && Usable(w, cfg)
    requires s.db.state.Some? && s.db.state.value.rotationStatus == Completed
    ensures cfg.activeKeyId == s.db.state.value.activeKeyId <==>
      forall id, values, row, iv :: KeepsOneKey(w, s, cfg, id, values, row, iv)
  {
    hide ToJson, FromJson, Wrote, UnderKey, Encryption.Library.Lawful, PartOf, ReadsAsWritten;
    if cfg.activeKeyId == s.db.state.value.activeKeyId {
      forall id, values, row, iv ensures KeepsOneKey(w, s, cfg, id, values, row, iv) {
        if Wrote(w, cfg, values, row, iv) {
          SameKeyKeepsOneKey(w, s, cfg, id, values, row, iv);
        }
      }
    } else {
      var id, iv: nat -> string := RowId(AuditLog, ""), n => "";
      var row := WriteOne(w, cfg, Null, iv);
      OneKeyOnly(w.lib, row.columns[0], cfg.activeKeyId, s.db.state.value.activeKeyId);
      assert s.db.rows[id := row][id] == row;
      assert !KeepsOneKey(w, s, cfg, id, [Null], row, iv);
    }
  }

  lemma SameKeyKeepsOneKey(
    w: World, s: System, cfg: Config, id: RowId, values: seq<Json>, row: Row, iv: nat -> string)
    requires w.lib.Lawful() && Usable(w, cfg) && s.db.state.Some? && cfg.activeKeyId == s.db.state.value.activeKeyId
    requires AllUnderKey(w.lib, s.db.rows, cfg.activeKeyId) && Wrote(w, cfg, values, row, iv)
    ensures AllUnderKey(w.lib, s.db.rows[id := row], cfg.activeKeyId)
  {
    hide ToJson, FromJson, Enveloped, KeyOf, Encryption.Library.Lawful, PartOf;
    forall i | 0 <= i < |values| ensures UnderKey(w.lib, row.columns[i], cfg.activeKeyId) {
      assert ToJson(w.lib, cfg, w.sqlite, values[i], iv(i)) == Some(row.columns[i]);
      WrittenUnderActiveKey(w.lib, cfg, w.all, w.sqlite, values[i], iv(i));
    }
  }

  /** Of the encrypted workers that the guard accepts on a completed database, exactly those with its active key
      leave it under one key, whatever they write. */
  lemma WritesKeepOneKeyIff(w: World, s: System, cfg: Config, locks: nat)
    requires w.lib.Lawful() && Inv(w, s) && Allowed(w, s, StartWorker(cfg, locks)) && cfg.enabled
    requires s.db.state.Some? && s.db.state.value.rotationStatus == Completed
    ensures cfg.activeKeyId == s.db.state.value.activeKeyId <==>
      forall id, values, row, iv :: KeepsOneKey(w, s, cfg, id, values, row, iv)
  {
    hide KeepsOneKey, Encryption.Library.Lawful, PartOf, ReadsAsWritten, AllUnderKey;
    SameKeyIffKeepsOneKey(w, s, cfg);
  }

  lemma OneKeyOnly(lib: Library, c: Column, kid: KeyId, other: KeyId)
    requires UnderKey(lib, c, kid) && kid != other
    ensures !UnderKey(lib, c, other)
  {
  }

  lemma WriteOne(w: World, cfg: Config, v: Json, iv: nat -> string) returns (row: Row)
    requires w.lib.Lawful() && Usable(w, cfg)
    ensures Wrote(w, cfg, [v], row, iv) && !row.open && |row.columns| == 1
    ensures UnderKey(w.lib, row.columns[0], cfg.activeKeyId)
  {
    hide ToJson, FromJson, Enveloped, KeyOf, PartOf, Encryption.Library.Lawful;
    WrittenUnderActiveKey(w.lib, cfg, w.all, w.sqlite, v, iv(0));
    row := Row([ToJson(w.lib, cfg, w.sqlite, v, iv(0)).value], false);
  }

  /** From any state of an encrypted database that has no rows, a worker in rotation mode with another key is
      accepted and writes a row. The state stays as it is, `completed` say, and a startup with the database's
      key alone is accepted and cannot read that row. */
  lemma RotationModeWorkerLocksOut(
    w: World, s: System, cfg: Config, alone: Config, id: RowId, v: Json, iv: nat -> string)
    returns (started: System, t: System, row: Row)
    requires w.lib.Lawful() && Inv(w, s) && s.rotation == None && s.db.state.Some? && s.db.rows == map[]
    requires Usable(w, cfg) && cfg.rotationMode && cfg.activeKeyId != s.db.state.value.activeKeyId
    requires s.db.state.value.activeKeyId in KeyIds(cfg.keyring)
    requires PartOf(alone.keyring, w.all) && alone.enabled && cfg.activeKeyId !in KeyIds(alone.keyring)
    requires alone.activeKeyId == s.db.state.value.activeKeyId && alone.activeKeyId in KeyIds(alone.keyring)
    ensures Allowed(w, s, StartWorker(cfg, 0)) && started == Next(w, s, StartWorker(cfg, 0))
    ensures Allowed(w, started, Write(cfg, id, [v], row, iv)) && t == Next(w, started, Write(cfg, id, [v], row, iv))
    ensures t.db.state == s.db.state && Allowed(w, t, StartWorker(alone, 0)) && t.db.rows == map[id := row]
    ensures !Reads(w, alone.keyring, row, [v])
  {
    hide ToJson, FromJson, Enveloped, KeyOf, PartOf, Encryption.Library.Lawful, KeyIds;
    row := WriteOne(w, cfg, v, iv);
    started := Next(w, s, StartWorker(cfg, 0));
    t := Next(w, started, Write(cfg, id, [v], row, iv));
    ReadingAgrees(w.lib, alone.keyring, w.all, row.columns[0]);
  }

  /** When does the database end up under the old key after an unfinished rotation fails and the command is
      run again with that key? Exactly when the rotation had rewritten nothing, and all it had left to do was
      under the old key to begin with. */
  lemma RolledBackIffNothingWasRewritten(w: World, s: System, marked: bool, cfg: Config, locks: nat, lag: nat)
    requires w.lib.Lawful() && Inv(w, s) && s.rotation.Some?
    requires cfg.activeKeyId == s.rotation.value.loaded.activeKeyId != s.rotation.value.cfg.activeKeyId
    requires Enabled(w, Next(w, s, FailRotation(marked)), BeginRotation(cfg, locks, lag))
    ensures var after := Next(w, Next(w, s, FailRotation(marked)), BeginRotation(cfg, locks, lag));
      && after.rotation == None && after.db.rows == s.db.rows
      && (AllUnderKey(w.lib, after.db.rows, cfg.activeKeyId) <==>
            forall id | id in s.db.rows ::
              if id in s.rotation.value.todo then RowUnderKey(w.lib, s.db.rows[id], cfg.activeKeyId)
              else s.db.rows[id].columns == [])
  {
    hide Enveloped, KeyOf, PartOf, Encryption.Library.Lawful, Quiet;
    var r := s.rotation.value;
    forall id | id in s.db.rows && id !in r.todo
      ensures RowUnderKey(w.lib, s.db.rows[id], cfg.activeKeyId) <==> s.db.rows[id].columns == []
    {
      assert RowUnderKey(w.lib, s.db.rows[id], r.cfg.activeKeyId);
      if s.db.rows[id].columns != [] {
        assert UnderKey(w.lib, s.db.rows[id].columns[0], r.cfg.activeKeyId);
      }
    }
  }

  lemma RunsGrow(w: World, states: seq<System>, steps: seq<Step>, step: Step) returns (longer: seq<System>)
    requires Run(w, states, steps) && Enabled(w, states[|steps|], step)
    ensures longer == states + [Next(w, states[|steps|], step)] && |longer| == |steps| + 2
    ensures Run(w, longer, steps + [step])
  {
    hide Allowed, Disciplined, Next;
    longer := states + [Next(w, states[|steps|], step)];
  }

  /** A run that ends with a single row, just written under the key of its only, now stopped, worker. */
  lemma OneRowWritten(w: World, cfg: Config, id: RowId, v: Json, iv: nat -> string)
    returns (states: seq<System>, steps: seq<Step>)
    requires w.lib.Lawful() && Usable(w, cfg)
    ensures Run(w, states, steps) && |states| == |steps| + 1
    ensures var s := states[|steps|];
      && s.db.state == Some(EncryptionState(true, cfg.activeKeyId, [], Completed))
      && s.db.rows.Keys == {id} && !s.db.rows[id].open && RowKeysIn(w.lib, s.db.rows[id], {cfg.activeKeyId})
      && s.serving == {} && s.rotation == None && s.written == map[id := [v]]
  {
    hide ToJson, FromJson, Enveloped, KeyOf, PartOf, Encryption.Library.Lawful, KeyIds;
    WrittenUnderActiveKey(w.lib, cfg, w.all, w.sqlite, v, iv(0));
    var row := Row([ToJson(w.lib, cfg, w.sqlite, v, iv(0)).value], false);
    states, steps := [System(Database(map[], None), {}, None, map[], {})], [];
    states := RunsGrow(w, states, steps, StartWorker(cfg, 0));
    steps := steps + [StartWorker(cfg, 0)];
    states := RunsGrow(w, states, steps, Write(cfg, id, [v], row, iv));
    steps := steps + [Write(cfg, id, [v], row, iv)];
    states := RunsGrow(w, states, steps, StopWorker(cfg));
    steps := steps + [StopWorker(cfg)];
  }

  /** There, a rotation to another key begins. */
  lemma OneRowBegun(w: World, states: seq<System>, steps: seq<Step>, cfg: Config, id: RowId)
    returns (states': seq<System>)
    requires Run(w, states, steps) && Usable(w, cfg) && cfg.rotationMode
    requires var s := states[|steps|];
      && s.db.state.Some? && s.db.state.value.enabled && s.db.state.value.activeKeyId in KeyIds(cfg.keyring)
      && s.db.state.value.activeKeyId != cfg.activeKeyId && s.serving == {} && s.rotation == None
      && s.db.rows.Keys == {id} && !s.db.rows[id].open
    ensures Run(w, states', steps + [BeginRotation(cfg, 0, 0)]) && |states'| == |steps| + 2
    ensures var (s, t) := (states[|steps|], states'[|steps| + 1]);
      && t.rotation == Some(Rotation(cfg, s.db.state.value, {id})) && t.db.rows == s.db.rows
      && t.written == s.written
  {
    hide Run, PartOf, Marked, KeyIds;
    states' := RunsGrow(w, states, steps, BeginRotation(cfg, 0, 0));
  }

  /** From there, a run that rewrites the row under another key and then fails. */
  lemma OneRowRotated(w: World, states: seq<System>, steps: seq<Step>, cfg: Config, id: RowId, iv: nat -> string)
    returns (states': seq<System>, steps': seq<Step>)
    requires w.lib.Lawful() && Run(w, states, steps) && Usable(w, cfg) && cfg.rotationMode
    requires var s := states[|steps|];
      && s.db.state.Some? && s.db.state.value.enabled && s.db.state.value.activeKeyId in KeyIds(cfg.keyring)
      && s.db.state.value.activeKeyId != cfg.activeKeyId && s.serving == {} && s.rotation == None
      && s.db.rows.Keys == {id} && !s.db.rows[id].open && RowKeysIn(w.lib, s.db.rows[id], KeyIds(cfg.keyring))
    ensures Run(w, states', steps') && |states'| == |steps'| + 1
    ensures var (s, t) := (states[|steps|], states'[|steps'|]);
      && t.db.state == Some(Marked(s.db.state.value, Failed)) && t.written == s.written
      && t.db.rows.Keys == {id} && RowUnderKey(w.lib, t.db.rows[id], cfg.activeKeyId)
  {
    hide Run, RowKeysIn, RowUnderKey, Reads, PartOf, Encryption.Library.Lawful, Reencrypt, Marked, KeyIds, Startup;
    states' := OneRowBegun(w, states, steps, cfg, id);
    steps' := steps + [BeginRotation(cfg, 0, 0)];
    RunKeepsInv(w, states', steps', |steps'|);
    RowIsNeverStuck(w, states'[|steps'|], id, iv);
    states' := RunsGrow(w, states', steps', RotateRow(id, iv));
    steps' := steps' + [RotateRow(id, iv)];
    RunKeepsInv(w, states', steps', |steps'|);
    states' := RunsGrow(w, states', steps', FailRotation(true));
    steps' := steps' + [FailRotation(true)];
  }

  /** A run that ends after a failed rotation with its only row under the new key: the guard still accepts a
      startup with the old key alone, which cannot read that row. */
  lemma FailedRotationLocksOut(w: World, a: Descriptor, b: Descriptor, id: RowId, v: Json, iv: nat -> string)
    returns (states: seq<System>, steps: seq<Step>, cfg: Config)
    requires w.lib.Lawful() && a.id != b.id && PartOf([a, b], w.all)
    ensures Run(w, states, steps) && PartOf(cfg.keyring, w.all) && !cfg.rotationMode
    ensures var s := states[|steps|];
      && s.db.state.Some? && s.db.state.value.rotationStatus == Failed && Startup(s.db, cfg, 0).Some?
      && id in s.db.rows && !Reads(w, cfg.keyring, s.db.rows[id], [v]) && s.written == map[id := [v]]
  {
    hide Run, Allowed, Disciplined, Next, FromJson, Enveloped, KeyOf, Encryption.Library.Lawful;
    var was, next := Config(true, false, false, false, a.id, [a, b]), Config(true, false, false, true, b.id, [a, b]);
    cfg := was.(keyring := [a]);
    states, steps := OneRowWritten(w, was, id, v, iv);
    states, steps := OneRowRotated(w, states, steps, next, id, iv);
    RunKeepsInv(w, states, steps, |steps|);
    ReadsAllIffHoldsTheirKeys(w, states, steps, |steps|, [a]);
    var row := states[|steps|].db.rows[id];
    assert Reads(w, w.all, row, [v]);
    assert UnderKey(w.lib, row.columns[0], b.id) && b.id !in KeyIds([a]);
  }
}
