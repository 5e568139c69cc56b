/** Envelopes, the keyring, and what is written to storage, to Kafka and to the lock table. */
module Encryption {
  import opened Json

  type KeyId = string
  type Key = string

  const ENVELOPE_MARKER := "idmmw.v1"
  const ENVELOPE_ALG := "AES-256-GCM"
  const DIGEST_LENGTH := 64

  datatype Sealed = Sealed(tag: string, ct: string)

  /** The library calls the service relies on; binary values are in their base64 or hex text. */
  datatype Library = Library(
    stringify: Json -> string,
    parse: string -> Option<Json>,
    encrypt: (Key, string, string) -> Sealed,
    decrypt: (Key, string, Sealed) -> Option<string>,
    hmac: (Key, string) -> string)
  {
    /** Decryption undoes encryption and parsing undoes printing. A decrypted text is no longer than
        its base64 ciphertext, and a parsed object is longer than any string it holds directly. */
    ghost predicate Lawful() {
      && (forall v :: parse(stringify(v)) == Some(v))
      && (forall k, iv, t :: decrypt(k, iv, encrypt(k, iv, t)) == Some(t))
      && (forall k, iv, x :: decrypt(k, iv, x).Some? ==> |decrypt(k, iv, x).value| <= |x.ct|)
      && (forall t, f: JsonObject, k | parse(t) == Some(Object(f)) && k in f && f[k].String? :: |f[k].s| < |t|)
      && (forall k, t :: |hmac(k, t)| == DIGEST_LENGTH)
    }
  }

  datatype Descriptor = Descriptor(id: KeyId, key: Key)

  /** The keyring in the order its keys are listed. */
  type Keyring = seq<Descriptor>

  datatype Config = Config(
    enabled: bool, kafkaEncryption: bool, idempotencyHmac: bool, rotationMode: bool,
    activeKeyId: KeyId, keyring: Keyring)

  predicate DistinctIds(ring: Keyring) {
    forall i, j | 0 <= i < j < |ring| :: ring[i].id != ring[j].id
  }

  function KeyIds(ring: Keyring): set<KeyId> {
    set d | d in ring :: d.id
  }

  function RequireKey(ring: Keyring, id: KeyId): (r: Option<Key>)
    ensures r.Some? <==> id in KeyIds(ring)
    ensures r.Some? ==> Descriptor(id, r.value) in ring
  {
    if ring == [] then None
    else if ring[0].id == id then Some(ring[0].key)
    else RequireKey(ring[1..], id)
  }

  predicate IsEnvelope(v: Json) {
    && v.Object?
    && (forall k | k in {"__enc", "alg", "kid", "iv", "tag", "ct"} :: k in v.fields && v.fields[k].String?)
    && v.fields["__enc"].s == ENVELOPE_MARKER
    && v.fields["alg"].s == ENVELOPE_ALG
  }

  /** The key id, the vector and the ciphertext with its tag. */
  function Parts(v: Json): (KeyId, string, Sealed)
    requires IsEnvelope(v)
  {
    (v.fields["kid"].s, v.fields["iv"].s, Sealed(v.fields["tag"].s, v.fields["ct"].s))
  }

  function Envelope(kid: KeyId, iv: string, x: Sealed): (v: Json)
    ensures IsEnvelope(v) && Parts(v) == (kid, iv, x)
  {
    Object(map["__enc" := String(ENVELOPE_MARKER), "alg" := String(ENVELOPE_ALG), "kid" := String(kid),
               "iv" := String(iv), "tag" := String(x.tag), "ct" := String(x.ct)])
  }

  function EnvelopeKeyId(v: Json): KeyId
    requires IsEnvelope(v)
  {
    Parts(v).0
  }

  /** `None` is the exception for a key missing from the keyring; `iv` is the random vector. */
  function EncryptObject(lib: Library, cfg: Config, v: Json, iv: string): Option<Json> {
    match RequireKey(cfg.keyring, cfg.activeKeyId)
    case None => None
    case Some(key) => Some(Envelope(cfg.activeKeyId, iv, lib.encrypt(key, iv, lib.stringify(v))))
  }

  /** `None` covers a missing key, a failed tag check and a text that does not parse. */
  function DecryptObject(lib: Library, ring: Keyring, v: Json): Option<Json>
    requires IsEnvelope(v)
  {
    match RequireKey(ring, EnvelopeKeyId(v))
    case None => None
    case Some(key) =>
      match lib.decrypt(key, Parts(v).1, Parts(v).2)
      case None => None
      case Some(text) => lib.parse(text)
  }

  /** Reading back a stored or received value: an envelope is decrypted, anything else is taken as it is. */
  function Decode(lib: Library, ring: Keyring, v: Json): Option<Json> {
    if IsEnvelope(v) then DecryptObject(lib, ring, v) else Some(v)
  }

  function EncryptForStorage(lib: Library, cfg: Config, v: Json, iv: string): Option<Json> {
    if cfg.enabled then EncryptObject(lib, cfg, v, iv) else Some(v)
  }

  /** A JSON column: native on PostgreSQL, text on SQLite. */
  datatype Column = Native(v: Json) | Text(t: string)

  function ToJson(lib: Library, cfg: Config, sqlite: bool, v: Json, iv: string): Option<Column> {
    match EncryptForStorage(lib, cfg, v, iv)
    case None => None
    case Some(stored) => Some(if sqlite then Text(lib.stringify(stored)) else Native(stored))
  }

  function FromJson(lib: Library, ring: Keyring, column: Column): Option<Json> {
    match column
    case Native(v) => Decode(lib, ring, v)
    case Text(t) => (match lib.parse(t) case None => None case Some(v) => Decode(lib, ring, v))
  }

  function EncodeKafkaMessage(lib: Library, cfg: Config, message: JsonObject, iv: string): Option<string> {
    if !cfg.kafkaEncryption then Some(lib.stringify(Object(message)))
    else match EncryptObject(lib, cfg, Object(message), iv)
      case None => None
      case Some(e) => Some(lib.stringify(e))
  }

  function DecodeKafkaMessage(lib: Library, ring: Keyring, raw: string): Option<Json> {
    match lib.parse(raw)
    case None => None
    case Some(v) => Decode(lib, ring, v)
  }

  // ----- Round trips -----

  /** The reader holds the writer's active key, whatever else its flags, order or active key are. */
  predicate CanRead(writer: Config, reader: Keyring) {
    RequireKey(writer.keyring, writer.activeKeyId).Some?
    && RequireKey(reader, writer.activeKeyId) == RequireKey(writer.keyring, writer.activeKeyId)
  }

  lemma DecryptUndoesEncrypt(lib: Library, writer: Config, reader: Keyring, v: Json, iv: string)
    requires lib.Lawful() && CanRead(writer, reader)
    ensures EncryptObject(lib, writer, v, iv).Some?
    ensures var e := EncryptObject(lib, writer, v, iv).value;
      IsEnvelope(e) && EnvelopeKeyId(e) == writer.activeKeyId && DecryptObject(lib, reader, e) == Some(v)
  {
    hide Envelope, IsEnvelope, Parts, RequireKey;
  }

  /** No envelope decrypts to itself: it would have to be longer than the ciphertext it holds. */
  lemma NoEnvelopeContainsItself(lib: Library, ring: Keyring, v: Json)
    requires lib.Lawful() && IsEnvelope(v)
    ensures DecryptObject(lib, ring, v) != Some(v)
  {
    var f := v.fields;
    var x := Sealed(f["tag"].s, f["ct"].s);
    match RequireKey(ring, EnvelopeKeyId(v))
    case None =>
    case Some(key) =>
      match lib.decrypt(key, f["iv"].s, x)
      case None =>
      case Some(text) =>
        assert lib.parse(text) == Some(Object(f)) ==> |x.ct| < |text|;
  }

  /** With encryption on, every value survives storage on both databases, even one shaped like an envelope.
      With encryption off, exactly the values that are not shaped like an envelope do. */
  lemma StorageRoundTrip(lib: Library, writer: Config, reader: Keyring, sqlite: bool, v: Json, iv: string)
    requires lib.Lawful() && (writer.enabled ==> CanRead(writer, reader))
    ensures ToJson(lib, writer, sqlite, v, iv).Some?
    ensures FromJson(lib, reader, ToJson(lib, writer, sqlite, v, iv).value) == Some(v)
      <==> writer.enabled || !IsEnvelope(v)
  {
    hide IsEnvelope, EncryptObject, DecryptObject;
    if writer.enabled {
      DecryptUndoesEncrypt(lib, writer, reader, v, iv);
    } else if IsEnvelope(v) {
      NoEnvelopeContainsItself(lib, reader, v);
    }
  }

  /** A column is text on SQLite and native on PostgreSQL. What is stored is an envelope under the active key
      exactly when encryption is on or the value itself is one. */
  lemma StoredForm(lib: Library, writer: Config, sqlite: bool, v: Json, iv: string)
    requires lib.Lawful() && (writer.enabled ==> writer.activeKeyId in KeyIds(writer.keyring))
    ensures var c := ToJson(lib, writer, sqlite, v, iv);
      && c.Some? && (c.value.Text? <==> sqlite)
      && var stored := if sqlite then lib.parse(c.value.t) else Some(c.value.v);
         && stored.Some?
         && (IsEnvelope(stored.value) <==> writer.enabled || IsEnvelope(v))
         && (writer.enabled ==> EnvelopeKeyId(stored.value) == writer.activeKeyId)
  {
    hide IsEnvelope, Envelope, Parts;
  }

  /** Two values written with different vectors are different envelopes, also when the values are equal. */
  lemma FreshVectorsShow(lib: Library, writer: Config, v: Json, w: Json, iv: string, iv': string)
    requires writer.activeKeyId in KeyIds(writer.keyring) && iv != iv'
    ensures EncryptObject(lib, writer, v, iv) != EncryptObject(lib, writer, w, iv')
  {
    hide IsEnvelope, Envelope;
    var e, e' := EncryptObject(lib, writer, v, iv).value, EncryptObject(lib, writer, w, iv').value;
    assert Parts(e).1 == iv && Parts(e').1 == iv';
  }

  /** With encryption on, what is sent is never the message but an envelope under the active key; without that
      key nothing is sent. A reader whose keyring lacks the key decodes no message at all. */
  lemma SealedMessages(lib: Library, writer: Config, message: JsonObject, iv: string, reader: Keyring)
    requires lib.Lawful() && writer.kafkaEncryption
    ensures EncodeKafkaMessage(lib, writer, message, iv).Some? <==> writer.activeKeyId in KeyIds(writer.keyring)
    ensures writer.activeKeyId in KeyIds(writer.keyring) ==>
      var sent := lib.parse(EncodeKafkaMessage(lib, writer, message, iv).value);
      && sent.Some? && IsEnvelope(sent.value) && EnvelopeKeyId(sent.value) == writer.activeKeyId
      && sent != Some(Object(message))
    ensures writer.activeKeyId in KeyIds(writer.keyring) && writer.activeKeyId !in KeyIds(reader) ==>
      DecodeKafkaMessage(lib, reader, EncodeKafkaMessage(lib, writer, message, iv).value) == None
  {
    hide IsEnvelope, Envelope, Parts;
    if writer.activeKeyId in KeyIds(writer.keyring) {
      var e := EncryptObject(lib, writer, Object(message), iv).value;
      assert lib.parse(lib.stringify(e)) == Some(e);
      DecryptUndoesEncrypt(lib, writer, writer.keyring, Object(message), iv);
      NoEnvelopeContainsItself(lib, writer.keyring, e);
    }
  }

  /** With encryption off, what is sent is the message as it is. */
  lemma PlainMessages(lib: Library, writer: Config, message: JsonObject, iv: string)
    requires lib.Lawful() && !writer.kafkaEncryption
    ensures EncodeKafkaMessage(lib, writer, message, iv).Some?
    ensures lib.parse(EncodeKafkaMessage(lib, writer, message, iv).value) == Some(Object(message))
  {
    assert lib.parse(lib.stringify(Object(message))) == Some(Object(message));
  }

  /** The same for messages: the consumer's own flag and active key never matter. */
  lemma KafkaRoundTrip(lib: Library, writer: Config, reader: Keyring, message: JsonObject, iv: string)
    requires lib.Lawful() && (writer.kafkaEncryption ==> CanRead(writer, reader))
    ensures EncodeKafkaMessage(lib, writer, message, iv).Some?
    ensures DecodeKafkaMessage(lib, reader, EncodeKafkaMessage(lib, writer, message, iv).value) == Some(Object(message))
      <==> writer.kafkaEncryption || !IsEnvelope(Object(message))
  {
    if writer.kafkaEncryption {
      DecryptUndoesEncrypt(lib, writer, reader, Object(message), iv);
    } else if IsEnvelope(Object(message)) {
      NoEnvelopeContainsItself(lib, reader, Object(message));
    }
  }

  // ----- Lock keys -----

  function LockKey(lib: Library, d: Descriptor, source: string): string {
    "idmmw:hmac:" + d.id + ":" + lib.hmac(d.key, source)
  }

  function Filter(ring: Keyring, id: KeyId, keep: bool): Keyring {
    if ring == [] then []
    else (if (ring[0].id == id) == keep then [ring[0]] else []) + Filter(ring[1..], id, keep)
  }

  function Ordered(cfg: Config): Keyring {
    Filter(cfg.keyring, cfg.activeKeyId, true) + Filter(cfg.keyring, cfg.activeKeyId, false)
  }

  function IdempotencyKeys(lib: Library, cfg: Config, source: string): seq<string> {
    if !cfg.idempotencyHmac then [source]
    else seq(|Ordered(cfg)|, i requires 0 <= i < |Ordered(cfg)| => LockKey(lib, Ordered(cfg)[i], source))
  }

  lemma {:induction false} FilterSplits(ring: Keyring, id: KeyId)
    ensures multiset(Filter(ring, id, true)) + multiset(Filter(ring, id, false)) == multiset(ring)
  {
    if ring != [] {
      FilterSplits(ring[1..], id);
      assert ring == [ring[0]] + ring[1..];
    }
  }

  lemma {:induction false} FilterKeeps(ring: Keyring, id: KeyId, keep: bool, d: Descriptor)
    ensures d in Filter(ring, id, keep) <==> d in ring && (d.id == id) == keep
  {
    if ring != [] {
      FilterKeeps(ring[1..], id, keep, d);
    }
  }

  /** The candidates are the whole keyring, reordered so that the active key comes first. */
  lemma ActiveKeyComesFirst(cfg: Config)
    ensures multiset(Ordered(cfg)) == multiset(cfg.keyring)
    ensures cfg.activeKeyId in KeyIds(cfg.keyring) ==> |Ordered(cfg)| > 0 && Ordered(cfg)[0].id == cfg.activeKeyId
  {
    FilterSplits(cfg.keyring, cfg.activeKeyId);
    var first := Filter(cfg.keyring, cfg.activeKeyId, true);
    if cfg.activeKeyId in KeyIds(cfg.keyring) {
      var d :| d in cfg.keyring && d.id == cfg.activeKeyId;
      FilterKeeps(cfg.keyring, cfg.activeKeyId, true, d);
      FilterKeeps(cfg.keyring, cfg.activeKeyId, true, first[0]);
      assert Ordered(cfg)[0] == first[0];
    }
  }

  /** A lock key names its encryption key and its digest, even when key ids contain colons. */
  lemma LockKeyIsInjective(lib: Library, d: Descriptor, e: Descriptor, s: string, t: string)
    requires lib.Lawful() && LockKey(lib, d, s) == LockKey(lib, e, t)
    ensures d.id == e.id && lib.hmac(d.key, s) == lib.hmac(e.key, t)
  {
    var p := "idmmw:hmac:";
    var a, b := LockKey(lib, d, s), LockKey(lib, e, t);
    assert a[|p|..|a| - DIGEST_LENGTH - 1] == d.id;
    assert b[|p|..|b| - DIGEST_LENGTH - 1] == e.id;
    assert a[|a| - DIGEST_LENGTH..] == lib.hmac(d.key, s);
    assert b[|b| - DIGEST_LENGTH..] == lib.hmac(e.key, t);
  }
}
