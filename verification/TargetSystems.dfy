/** Target systems: their stored rows, and the administration service that edits them through a masked view. */
module TargetSystems {
  import opened Json
  import opened Text
  import opened Encryption
  import opened SecretKeys
  import opened SecretRedaction
  import opened ConfigPaths

  type Id = string

  datatype System = System(name: string, kind: string, title: string, config: Column, enabled: bool, updatedAt: int)

  type Table = map<Id, System>

  datatype PublicSystem = PublicSystem(name: string, kind: string, title: string, config: JsonObject, enabled: bool)

  datatype Draft = Draft(name: string, kind: string, title: string, config: JsonObject, enabled: Option<bool>)

  /** The fields an update sets; `None` leaves a field alone. */
  datatype Patch = Patch(
    name: Option<string>, kind: Option<string>, title: Option<string>, config: Option<JsonObject>,
    enabled: Option<bool>)

  datatype Answer = Saved(item: PublicSystem) | Conflict | NotFound | Thrown

  /** Libraries, key configuration and provider of one process. */
  datatype Store = Store(lib: Library, cfg: Config, sqlite: bool) {
    /** `None` when reading throws. Configurations are objects or null, which reads as an empty object. */
    function ConfigOf(column: Column): Option<JsonObject> {
      match FromJson(lib, cfg.keyring, column)
      case None => None
      case Some(Object(fields)) => Some(fields)
      case Some(_) => Some(map[])
    }

    function Write(config: JsonObject, iv: string): Option<Column> {
      ToJson(lib, cfg, sqlite, Object(config), iv)
    }

    function Public(row: System): Option<PublicSystem> {
      match ConfigOf(row.config)
      case None => None
      case Some(config) => Some(PublicSystem(row.name, row.kind, row.title, RedactFields(config), row.enabled))
    }

    function Answered(row: System): Answer {
      match Public(row)
      case None => Thrown
      case Some(item) => Saved(item)
    }
  }

  predicate Taken(table: Table, name: string, except: Id) {
    exists id | id in table :: id != except && table[id].name == name
  }

  predicate UniqueNames(table: Table) {
    forall a, b | a in table && b in table && table[a].name == table[b].name :: a == b
  }

  function Or<T>(o: Option<T>, otherwise: T): T {
    match o
    case None => otherwise
    case Some(value) => value
  }

  function Patched(row: System, patch: Patch, config: Column, now: int): System {
    System(Or(patch.name, row.name), Or(patch.kind, row.kind), Or(patch.title, row.title), config,
           Or(patch.enabled, row.enabled), now)
  }

  /** A field is as given, or as before when nothing is given. */
  predicate Sets<T(==)>(after: T, given: Option<T>, before: T) {
    (given.Some? ==> after == given.value) && (given.None? ==> after == before)
  }

  /** The name is refused exactly when writing it would give two rows one name. */
  lemma TakenIff(table: Table, id: Id, row: System)
    requires UniqueNames(table)
    ensures Taken(table, row.name, id) <==> !UniqueNames(table[id := row])
  {
    var after := table[id := row];
    if other :| other in table && other != id && table[other].name == row.name {
      assert after[other].name == after[id].name;
    }
  }

  class TargetSystemService {
    const store: Store
    var table: Table

    constructor (store: Store)
      ensures this.store == store && table == map[]
    {
      this.store, this.table := store, map[];
    }

    /** `written` says whether the database can be reached for the write. */
    method Create(id: Id, draft: Draft, now: int, iv: string, written: bool) returns (answer: Answer)
      requires id !in table && UniqueNames(table)
      modifies this
      ensures UniqueNames(table)
      ensures var config := store.Write(draft.config, iv);
        if config == None || !written then answer == Thrown && table == old(table)
        else if Taken(old(table), draft.name, id) then answer == Conflict && table == old(table)
        else
          var row := System(draft.name, draft.kind, draft.title, config.value, Or(draft.enabled, true), now);
          table == old(table)[id := row] && answer == store.Answered(row)
    {
      hide ToJson, FromJson, RedactFields;
      var config := store.Write(draft.config, iv);
      if config == None || !written {
        return Thrown;
      }
      if Taken(table, draft.name, id) {
        return Conflict;
      }
      var row := System(draft.name, draft.kind, draft.title, config.value, Or(draft.enabled, true), now);
      table := table[id := row];
      answer := store.Answered(row);
    }

    /** An update that sets a configuration reads the row first, which can fail, and an unreadable
        configuration stops it there. */
    method Update(id: Id, patch: Patch, now: int, iv: string, readable: bool, written: bool) returns (answer: Answer)
      requires UniqueNames(table)
      modifies this
      ensures UniqueNames(table)
      ensures table.Keys == old(table).Keys
      ensures forall other | other in table && other != id :: table[other] == old(table)[other]
      ensures (patch.config.Some? && !readable) || !written ==> answer == Thrown && table == old(table)
      ensures id !in table && (patch.config.Some? ==> readable) && written ==>
        answer ==
          if patch.config.Some? && store.Write(Merge(map[], patch.config.value), iv) == None then Thrown else NotFound
      ensures id in table && (patch.config.Some? ==> readable) && written ==>
        var was := old(table)[id];
        var next := NextConfig(store, was.config, patch.config, iv);
        if next == None then answer == Thrown && table == old(table)
        else if Taken(old(table), Or(patch.name, was.name), id) then answer == Conflict && table == old(table)
        else
          && Sets(table[id].name, patch.name, was.name) && Sets(table[id].kind, patch.kind, was.kind)
          && Sets(table[id].title, patch.title, was.title) && Sets(table[id].enabled, patch.enabled, was.enabled)
          && table[id].config == next.value && table[id].updatedAt == now
          && answer == store.Answered(table[id])
    {
      hide ToJson, FromJson, RedactFields, Merge;
      var config: Option<Column> := None;
      if patch.config.Some? {
        if !readable {
          return Thrown;
        }
        var current: JsonObject := map[];
        if id in table {
          var stored := store.ConfigOf(table[id].config);
          if stored == None {
            return Thrown;
          }
          current := stored.value;
        }
        var merged := MergeConfigPreservingSecrets(current, patch.config.value);
        config := store.Write(merged, iv);
        if config == None {
          return Thrown;
        }
      }
      if !written {
        return Thrown;
      }
      if id !in table {
        return NotFound;
      }
      var row := table[id];
      if Taken(table, Or(patch.name, row.name), id) {
        return Conflict;
      }
      var next := Patched(row, patch, Or(config, row.config), now);
      table := table[id := next];
      answer := store.Answered(next);
    }

    /** The row is gone even when its configuration cannot be read for the answer. */
    method Delete(id: Id, written: bool) returns (answer: Answer)
      requires UniqueNames(table)
      modifies this
      ensures UniqueNames(table) && table == if written then old(table) - {id} else old(table)
      ensures answer ==
        if !written then Thrown else if id in old(table) then store.Answered(old(table)[id]) else NotFound
    {
      if !written {
        return Thrown;
      }
      if id !in table {
        return NotFound;
      }
      answer := store.Answered(table[id]);
      table := table - {id};
    }
  }

  /** The column an update stores: the patch merged into the readable configuration, or what was there. */
  function NextConfig(store: Store, column: Column, patch: Option<JsonObject>, iv: string): Option<Column> {
    match patch
    case None => Some(column)
    case Some(incoming) =>
      match store.ConfigOf(column)
      case None => None
      case Some(current) => store.Write(Merge(current, incoming), iv)
  }

  /** Whatever path leads there, a name that ends in the secret word after the prefix has the mask, if anything. */
  ghost predicate Hides(config: JsonObject, prefix: string, word: string) {
    forall path: seq<Step> :: At(Object(config), path + [Key(prefix + word)]) in {None, Some(MASK)}
  }

  /** No answer discloses a secret: at any depth, whatever ends in a secret word, such as a `..._password` in any
      case, is masked. */
  lemma AnswersAreMasked(store: Store, row: System)
    ensures store.Answered(row).Saved? ==>
      var config := store.Answered(row).item.config;
      && AllMasked(Object(config))
      && (forall prefix, word | Separated(prefix) && SecretWord(Lower(word)) :: Hides(config, prefix, word))
      && (forall prefix, word | Lower(word) == "password" :: Hides(config, prefix + "_", word))
  {
    hide RedactFields, FromJson, SecretWord, Lower, Separated;
    var stored := store.ConfigOf(row.config);
    if stored.Some? {
      RedactMasksExactly(Object(stored.value));
      assert Redact(Object(stored.value)) == Object(RedactFields(stored.value));
      forall prefix, word | Separated(prefix) && SecretWord(Lower(word))
        ensures Hides(RedactFields(stored.value), prefix, word)
      {
        forall path: seq<Step>
          ensures At(Redact(Object(stored.value)), path + [Key(prefix + word)]) in {None, Some(MASK)}
        {
          SecretsAreMasked(Object(stored.value), path, prefix, word);
        }
      }
      forall prefix, word | Lower(word) == "password"
        ensures Separated(prefix + "_") && SecretWord(Lower(word))
      {
        UnderscoreSeparates(prefix);
        PasswordIsSecret(word);
      }
    }
  }

  lemma UnderscoreSeparates(prefix: string)
    ensures Separated(prefix + "_")
  {
  }

  lemma PasswordIsSecret(word: string)
    requires Lower(word) == "password"
    ensures SecretWord(Lower(word))
  {
    hide Lower;
    WordsAreSpellings(Lower(word));
  }

  /** An answer shows the row as it is but for its secrets: each field, and each text, number or flag of the
      configuration that no secret key leads to. */
  lemma AnswersShowTheRest(store: Store, row: System, path: seq<Step>)
    requires store.Answered(row).Saved? && path != []
    ensures store.ConfigOf(row.config).Some?
    ensures var (item, config) := (store.Answered(row).item, store.ConfigOf(row.config).value);
      && item.name == row.name && item.kind == row.kind && item.title == row.title && item.enabled == row.enabled
      && var value := At(Object(config), path);
         (forall step | step in path :: !Secret(step)) && value.Some? && !value.value.Object? && !value.value.Array? ==>
           At(Object(item.config), path) == value
  {
    hide FromJson, IsSecretKey;
    var config := store.ConfigOf(row.config).value;
    WhatAViewShows(Object(config), path);
    assert Redact(Object(config)) == Object(RedactFields(config));
  }

  /** A merge with an unedited view changes no text of the top level. */
  lemma TextsAreKept(c: JsonObject, k: string)
    requires k in c
    ensures Merge(c, RedactFields(c))[k].String? || c[k].String? ==> Merge(c, RedactFields(c))[k] == c[k]
  {
    hide IsSecretKey, IsMaskedSecretValue, AllMasked;
    SavingRestoresAt(c, k);
    MaskIsMasked();
  }

  lemma EnvelopesAreKept(c: JsonObject)
    ensures var m := Merge(c, RedactFields(c));
      IsEnvelope(Object(m)) ==> IsEnvelope(Object(c)) && Parts(Object(m)) == Parts(Object(c))
  {
    hide Merge, RedactFields;
    var m := Merge(c, RedactFields(c));
    if IsEnvelope(Object(m)) {
      MergeKeys(c, RedactFields(c));
      assert RedactFields(c).Keys == c.Keys by { RedactKeys(c); }
      forall k | k in {"__enc", "alg", "kid", "iv", "tag", "ct"} ensures k in c && c[k] == m[k] {
        assert k in Object(m).fields && k in m.Keys;
        TextsAreKept(c, k);
      }
    }
  }

  /** Stored as it is, a configuration shaped like an envelope does not read back as itself. */
  lemma EnvelopeIsNotItsContents(store: Store, column: Column, m: JsonObject, c: JsonObject)
    requires store.lib.Lawful() && IsEnvelope(Object(m)) && IsEnvelope(Object(c))
    requires Parts(Object(m)) == Parts(Object(c))
    requires FromJson(store.lib, store.cfg.keyring, column) == DecryptObject(store.lib, store.cfg.keyring, Object(m))
    ensures store.ConfigOf(column) != Some(c)
  {
    hide IsEnvelope, Parts, FromJson, Encryption.Library.Lawful;
    NoEnvelopeContainsItself(store.lib, store.cfg.keyring, Object(c));
    EnvelopeIsNotEmpty(c);
  }

  lemma EnvelopeIsNotEmpty(c: JsonObject)
    ensures IsEnvelope(Object(c)) ==> c != map[]
  {
    assert IsEnvelope(Object(c)) ==> "kid" in Object(c).fields;
  }

  lemma RedactKeys(c: JsonObject)
    ensures RedactFields(c).Keys == c.Keys
  {
    hide Redact, IsSecretKey;
  }

  /** Opening a target system and saving the configuration exactly as it was shown keeps it, if and only if
      every array in it discloses nothing (a secret inside an array is replaced by its mask) and storage can
      hold it at all: with encryption off, a configuration shaped like an envelope cannot be stored. */
  lemma SavingAnUneditedSystemKeepsIt(store: Store, row: System, iv: string)
    requires store.lib.Lawful() && store.ConfigOf(row.config).Some?
    requires store.cfg.enabled ==> store.cfg.activeKeyId in KeyIds(store.cfg.keyring)
    ensures store.Public(row).Some?
    ensures var next := NextConfig(store, row.config, Some(store.Public(row).value.config), iv);
      var c := store.ConfigOf(row.config).value;
      && next.Some?
      && (store.ConfigOf(next.value) == Some(c) <==> ArraysMasked(c) && (store.cfg.enabled || !IsEnvelope(Object(c))))
  {
    hide ToJson, FromJson, RedactFields, Merge, ArraysMasked, IsEnvelope, Parts, DecryptObject;
    var c := store.ConfigOf(row.config).value;
    var m := Merge(c, RedactFields(c));
    SavingUneditedViewRestores(c);
    EnvelopesAreKept(c);
    StorageRoundTrip(store.lib, store.cfg, store.cfg.keyring, store.sqlite, Object(m), iv);
    if !store.cfg.enabled && IsEnvelope(Object(m)) {
      PlainStorageDecrypts(store, m, iv);
      EnvelopeIsNotItsContents(store, store.Write(m, iv).value, m, c);
    }
  }

  lemma PlainStorageDecrypts(store: Store, m: JsonObject, iv: string)
    requires store.lib.Lawful() && !store.cfg.enabled && IsEnvelope(Object(m))
    ensures store.Write(m, iv).Some?
    ensures FromJson(store.lib, store.cfg.keyring, store.Write(m, iv).value)
      == DecryptObject(store.lib, store.cfg.keyring, Object(m))
  {
    hide IsEnvelope, DecryptObject;
    assert store.lib.parse(store.lib.stringify(Object(m))) == Some(Object(m));
  }
}
