/** The encrypted tables, the row recording their key, and what startup, writing and rotation do to them. */
module EncryptedDatabase {
  import opened Json
  import opened Encryption

  datatype Table = AuditLog | DlqItem | TargetSystem

  datatype RowId = RowId(table: Table, id: string)

  /** The encrypted columns of a row: one, or an audit payload with its response. `open` marks a DLQ item
      that is pending or retrying. */
  datatype Row = Row(columns: seq<Column>, open: bool)

  type Rows = map<RowId, Row>

  datatype RotationStatus = Completed | Running | Failed

  datatype EncryptionState = EncryptionState(
    enabled: bool, activeKeyId: KeyId, previousKeyIds: seq<KeyId>, rotationStatus: RotationStatus)

  datatype Database = Database(rows: Rows, state: Option<EncryptionState>)

  // ----- Startup -----

  /** The database a process starts on, or `None` when it refuses to start. `locks` counts live lock keys. */
  function Startup(db: Database, cfg: Config, locks: nat): Option<Database> {
    if cfg.enabled && cfg.activeKeyId !in KeyIds(cfg.keyring) then None
    else if !cfg.enabled then
      if db.state.Some? && db.state.value.enabled then None else Some(db)
    else match db.state
      case None =>
        if db.rows != map[] || locks > 0 then None
        else Some(db.(state := Some(EncryptionState(true, cfg.activeKeyId, [], Completed))))
      case Some(state) =>
        if !state.enabled || state.activeKeyId !in KeyIds(cfg.keyring) then None
        else if state.activeKeyId != cfg.activeKeyId && !cfg.rotationMode then None
        else Some(db)
  }

  // ----- Rotation -----

  /** What stops a rotation: an open DLQ item, a live lock, or messages not yet consumed. */
  predicate Quiet(db: Database, locks: nat, lag: nat) {
    locks == 0 && lag == 0 && forall id | id in db.rows && id.table == DlqItem :: !db.rows[id].open
  }

  function Dedupe(ids: seq<KeyId>): (r: seq<KeyId>)
    ensures forall k :: k in r <==> k in ids
    ensures ids != [] ==> r != [] && r[0] == ids[0]
    ensures forall i, j | 0 <= i < j < |r| :: r[i] != r[j]
  {
    if ids == [] then []
    else
      var before, last := Dedupe(ids[..|ids| - 1]), ids[|ids| - 1];
      assert ids == ids[..|ids| - 1] + [last];
      if last in before then before else before + [last]
  }

  /** The loaded state's own key joins the previous ones, in front. */
  function PreviousKeyIds(state: EncryptionState): seq<KeyId> {
    Dedupe([state.activeKeyId] + state.previousKeyIds)
  }

  function Marked(state: EncryptionState, status: RotationStatus): EncryptionState {
    state.(rotationStatus := status, previousKeyIds := PreviousKeyIds(state))
  }

  function Rotated(state: EncryptionState, cfg: Config): EncryptionState {
    state.(activeKeyId := cfg.activeKeyId, rotationStatus := Completed, previousKeyIds := PreviousKeyIds(state))
  }

  /** One column read with the keyring and written under the active key; `None` when either throws. */
  function ReencryptColumn(lib: Library, cfg: Config, sqlite: bool, c: Column, iv: string): Option<Column> {
    match FromJson(lib, cfg.keyring, c)
    case None => None
    case Some(v) => ToJson(lib, cfg, sqlite, v, iv)
  }

  function ReencryptColumns(
      lib: Library, cfg: Config, sqlite: bool, cs: seq<Column>, iv: nat -> string): (r: Option<seq<Column>>)
    ensures r.Some? ==> |r.value| == |cs|
    ensures r.Some? ==>
      forall i | 0 <= i < |cs| :: ReencryptColumn(lib, cfg, sqlite, cs[i], iv(i)) == Some(r.value[i])
    ensures r == None ==>
      exists i | 0 <= i < |cs| :: ReencryptColumn(lib, cfg, sqlite, cs[i], iv(i)) == None
  {
    if cs == [] then Some([])
    else
      var n := |cs| - 1;
      var before := ReencryptColumns(lib, cfg, sqlite, cs[..n], iv);
      var last := ReencryptColumn(lib, cfg, sqlite, cs[n], iv(n));
      if before == None || last == None then None else Some(before.value + [last.value])
  }

  function Reencrypt(lib: Library, cfg: Config, sqlite: bool, row: Row, iv: nat -> string): Option<Row> {
    match ReencryptColumns(lib, cfg, sqlite, row.columns, iv)
    case None => None
    case Some(cs) => Some(row.(columns := cs))
  }

  // ----- Keys and meaning of what is stored -----

  function Stored(lib: Library, c: Column): Option<Json> {
    match c
    case Native(v) => Some(v)
    case Text(t) => lib.parse(t)
  }

  predicate Enveloped(lib: Library, c: Column) {
    var v := Stored(lib, c);
    v.Some? && IsEnvelope(v.value)
  }

  function KeyOf(lib: Library, c: Column): KeyId
    requires Enveloped(lib, c)
  {
    EnvelopeKeyId(Stored(lib, c).value)
  }

  predicate UnderKey(lib: Library, c: Column, kid: KeyId) {
    Enveloped(lib, c) && KeyOf(lib, c) == kid
  }

  predicate RowUnderKey(lib: Library, row: Row, kid: KeyId) {
    forall i | 0 <= i < |row.columns| :: UnderKey(lib, row.columns[i], kid)
  }

  predicate RowEnveloped(lib: Library, row: Row) {
    forall i | 0 <= i < |row.columns| :: Enveloped(lib, row.columns[i])
  }

  predicate RowKeysIn(lib: Library, row: Row, ids: set<KeyId>) {
    forall i | 0 <= i < |row.columns| :: Enveloped(lib, row.columns[i]) && KeyOf(lib, row.columns[i]) in ids
  }

  predicate AllUnderKey(lib: Library, rows: Rows, kid: KeyId) {
    forall id | id in rows :: RowUnderKey(lib, rows[id], kid)
  }

  /** The decrypted columns of a row, given the whole keyring that was ever in use. */
  function Meaning(lib: Library, all: Keyring, row: Row): (m: seq<Option<Json>>)
    ensures |m| == |row.columns|
  {
    seq(|row.columns|, i requires 0 <= i < |row.columns| => FromJson(lib, all, row.columns[i]))
  }

  /** A runtime keyring gives its key ids the same key material as the whole keyring. */
  ghost predicate PartOf(ring: Keyring, all: Keyring) {
    forall id | RequireKey(ring, id).Some? :: RequireKey(all, id) == RequireKey(ring, id)
  }

  lemma ReadingAgrees(lib: Library, ring: Keyring, all: Keyring, c: Column)
    requires PartOf(ring, all)
    ensures FromJson(lib, ring, c).Some? ==> FromJson(lib, all, c) == FromJson(lib, ring, c)
    ensures Enveloped(lib, c) && KeyOf(lib, c) in KeyIds(ring) ==> FromJson(lib, ring, c) == FromJson(lib, all, c)
    ensures Enveloped(lib, c) && FromJson(lib, ring, c).Some? ==> KeyOf(lib, c) in KeyIds(ring)
  {
  }

  lemma WrittenUnderActiveKey(lib: Library, cfg: Config, all: Keyring, sqlite: bool, v: Json, iv: string)
    requires lib.Lawful() && PartOf(cfg.keyring, all) && cfg.enabled && cfg.activeKeyId in KeyIds(cfg.keyring)
    ensures var c := ToJson(lib, cfg, sqlite, v, iv);
      && c.Some? && UnderKey(lib, c.value, cfg.activeKeyId) && FromJson(lib, all, c.value) == Some(v)
      && (c.value.Text? <==> sqlite)
  {
    hide Envelope, IsEnvelope, DecryptObject, EncryptObject;
    DecryptUndoesEncrypt(lib, cfg, all, v, iv);
    var e := EncryptObject(lib, cfg, v, iv).value;
    assert lib.parse(lib.stringify(e)) == Some(e);
  }

  /** Re-encrypting a row puts it under the active key and keeps what it says. */
  lemma ReencryptKeepsMeaning(lib: Library, cfg: Config, all: Keyring, sqlite: bool, row: Row, iv: nat -> string)
    requires lib.Lawful() && PartOf(cfg.keyring, all) && cfg.enabled && cfg.activeKeyId in KeyIds(cfg.keyring)
    requires Reencrypt(lib, cfg, sqlite, row, iv).Some?
    ensures var r := Reencrypt(lib, cfg, sqlite, row, iv).value;
      && RowUnderKey(lib, r, cfg.activeKeyId) && Meaning(lib, all, r) == Meaning(lib, all, row) && r.open == row.open
      && |r.columns| == |row.columns| && forall i | 0 <= i < |r.columns| :: r.columns[i].Text? <==> sqlite
  {
    hide ToJson, FromJson, UnderKey;
    var r := Reencrypt(lib, cfg, sqlite, row, iv).value;
    forall i | 0 <= i < |row.columns|
      ensures UnderKey(lib, r.columns[i], cfg.activeKeyId) && (r.columns[i].Text? <==> sqlite)
      ensures FromJson(lib, all, r.columns[i]) == FromJson(lib, all, row.columns[i])
    {
      assert ReencryptColumn(lib, cfg, sqlite, row.columns[i], iv(i)) == Some(r.columns[i]);
      ReadingAgrees(lib, cfg.keyring, all, row.columns[i]);
      WrittenUnderActiveKey(lib, cfg, all, sqlite, FromJson(lib, cfg.keyring, row.columns[i]).value, iv(i));
    }
  }
}
