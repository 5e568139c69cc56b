/** The two lock stores, and the reference both are proved against: a lock is held from the call
    that took it until it is released or its time to live has passed. Times are in milliseconds. */
module IdempotencyStore {

  const DEFAULT_TTL_SECONDS: Ttl := 3600
  const PURGE_AGE_MS := 60_000

  type Ttl = s: int | 0 < s witness 3600

  datatype Operation = Exists(key: string) | SetIfNotExists(key: string, ttl: Ttl) | Delete(key: string)

  /** One store call, atomic at `now`; `ok` is false when the database refuses it. */
  datatype Call = Call(now: int, op: Operation, ok: bool)

  predicate Chronological(h: seq<Call>) {
    forall i, j | 0 <= i < j < |h| :: h[i].now <= h[j].now
  }

  predicate Until(h: seq<Call>, now: int) {
    forall i | 0 <= i < |h| :: h[i].now <= now
  }

  /** The reference: is `key` held at `now`, going by the calls alone? */
  predicate Held(h: seq<Call>, key: string, now: int) {
    if h == [] then false
    else
      var before, last := h[..|h| - 1], h[|h| - 1];
      if !last.ok || last.op.Exists? || last.op.key != key then Held(before, key, now)
      else if last.op.Delete? then false
      else if Held(before, key, last.now) then Held(before, key, now)
      else now < last.now + last.op.ttl * 1000
  }

  /** What a store must answer: existence, or whether the lock was taken. */
  predicate Expected(h: seq<Call>, c: Call) {
    match c.op
    case Exists(key) => Held(h, key, c.now)
    case SetIfNotExists(key, _) => c.ok && !Held(h, key, c.now)
    case Delete(_) => true
  }

  // ----- PostgreSQL: rows outlive their lock until some later call purges them -----

  datatype LockRow = LockRow(lockedAt: int, expiresAt: int)
  type Table = map<string, LockRow>

  predicate Live(t: Table, key: string, now: int) {
    key in t && t[key].expiresAt > now
  }

  function PgNext(t: Table, c: Call): Table {
    if !c.ok then t
    else match c.op
      case Exists(_) => t
      case Delete(key) => t - {key}
      case SetIfNotExists(key, ttl) =>
        if Live(t, key, c.now) then t
        else Purged(t[key := LockRow(c.now, c.now + ttl * 1000)], c.now)
  }

  function Purged(t: Table, now: int): Table {
    map k | k in t && !(t[k].expiresAt < now - PURGE_AGE_MS) :: t[k]
  }

  predicate PgAnswer(t: Table, c: Call) {
    match c.op
    case Exists(key) => Live(t, key, c.now)
    case SetIfNotExists(key, _) => c.ok && !Live(t, key, c.now)
    case Delete(_) => true
  }

  function PgRun(h: seq<Call>): Table {
    if h == [] then map[] else PgNext(PgRun(h[..|h| - 1]), h[|h| - 1])
  }

  class PgIdempotencyStore {
    var table: Table

    constructor ()
      ensures table == map[]
    {
      table := map[];
    }

    method Exists(key: string, now: int) returns (found: bool)
      ensures found <==> PgAnswer(table, Call(now, Operation.Exists(key), true))
    {
      found := key in table && table[key].expiresAt > now;
    }

    /** An error inside the transaction is reported as a lock that was not taken. */
    method SetIfNotExists(key: string, ttl: Ttl, now: int, ok: bool) returns (locked: bool)
      modifies this
      ensures table == PgNext(old(table), Call(now, Operation.SetIfNotExists(key, ttl), ok))
      ensures locked <==> PgAnswer(old(table), Call(now, Operation.SetIfNotExists(key, ttl), ok))
      ensures forall k, t | t >= now ::
        Live(table, k, t) <==> if locked && k == key then t < now + ttl * 1000 else Live(old(table), k, t)
    {
      var expiresAt := now + ttl * 1000;
      if !ok || (key in table && table[key].expiresAt > now) {
        return false;
      }
      table := table[key := LockRow(now, expiresAt)];
      table := map k | k in table && !(table[k].expiresAt < now - PURGE_AGE_MS) :: table[k];
      return true;
    }

    /** Every error is ignored, so a failed delete looks like a successful one. */
    method Delete(key: string, now: int, ok: bool)
      modifies this
      ensures table == PgNext(old(table), Call(now, Operation.Delete(key), ok))
      ensures ok ==> forall t :: !Live(table, key, t)
    {
      if ok {
        table := table - {key};
      }
    }
  }

  /** Purging stale rows is invisible from then on. */
  lemma PurgeIsInvisible(t: Table, purgedAt: int, key: string, now: int)
    requires purgedAt <= now
    ensures Live(Purged(t, purgedAt), key, now) <==> Live(t, key, now)
  {
  }

  /** In every history the rows say exactly which locks are held. */
  lemma {:induction false} PgTracksHeld(h: seq<Call>, key: string, now: int)
    requires Chronological(h) && Until(h, now)
    ensures Live(PgRun(h), key, now) <==> Held(h, key, now)
  {
    if h != [] {
      var before, last := h[..|h| - 1], h[|h| - 1];
      PgTracksHeld(before, key, now);
      PgTracksHeld(before, key, last.now);
    }
  }

  /** Hence PostgreSQL answers every call of every history as the reference does. */
  lemma PgAnswersAsExpected(h: seq<Call>, c: Call)
    requires Chronological(h + [c])
    ensures PgAnswer(PgRun(h), c) <==> Expected(h, c)
  {
    assert forall i | 0 <= i < |h| :: (h + [c])[i] == h[i];
    assert (h + [c])[|h|] == c;
    PgTracksHeld(h, c.op.key, c.now);
  }

  // ----- Redis: `SET key 1 EX ttl NX`; a key disappears when its time has come -----

  type Keys = map<string, int>

  function Unexpired(s: Keys, now: int): Keys {
    map k | k in s && now < s[k] :: s[k]
  }

  function RedisNext(s: Keys, c: Call): Keys {
    var live := Unexpired(s, c.now);
    if !c.ok then live
    else match c.op
      case Exists(_) => live
      case Delete(key) => live - {key}
      case SetIfNotExists(key, ttl) => if key in live then live else live[key := c.now + ttl * 1000]
  }

  predicate RedisAnswer(s: Keys, c: Call) {
    match c.op
    case Exists(key) => key in Unexpired(s, c.now)
    case SetIfNotExists(key, _) => c.ok && key !in Unexpired(s, c.now)
    case Delete(_) => true
  }

  function RedisRun(h: seq<Call>): Keys {
    if h == [] then map[] else RedisNext(RedisRun(h[..|h| - 1]), h[|h| - 1])
  }

  lemma {:induction false} RedisTracksHeld(h: seq<Call>, key: string, now: int)
    requires Chronological(h) && Until(h, now)
    ensures key in Unexpired(RedisRun(h), now) <==> Held(h, key, now)
  {
    if h != [] {
      var before, last := h[..|h| - 1], h[|h| - 1];
      RedisTracksHeld(before, key, now);
      RedisTracksHeld(before, key, last.now);
    }
  }

  /** So the two stores can be exchanged: no caller can tell them apart. */
  lemma RedisAnswersAsPg(h: seq<Call>, c: Call)
    requires Chronological(h + [c])
    ensures RedisAnswer(RedisRun(h), c) <==> PgAnswer(PgRun(h), c)
  {
    assert forall i | 0 <= i < |h| :: (h + [c])[i] == h[i];
    assert (h + [c])[|h|] == c;
    PgTracksHeld(h, c.op.key, c.now);
    RedisTracksHeld(h, c.op.key, c.now);
  }

  class RedisIdempotencyStore {
    var keys: Keys

    constructor ()
      ensures keys == map[]
    {
      keys := map[];
    }

    /** `ok` says whether the client reaches Redis; if not, the call throws. */
    method Exists(key: string, now: int, ok: bool) returns (found: bool, threw: bool)
      modifies this
      ensures keys == RedisNext(old(keys), Call(now, Operation.Exists(key), ok)) && threw == !ok
      ensures !threw ==> (found <==> RedisAnswer(old(keys), Call(now, Operation.Exists(key), ok)))
    {
      Expire(now);
      found, threw := key in keys, !ok;
    }

    method SetIfNotExists(key: string, ttl: Ttl, now: int, ok: bool) returns (locked: bool, threw: bool)
      modifies this
      ensures keys == RedisNext(old(keys), Call(now, Operation.SetIfNotExists(key, ttl), ok)) && threw == !ok
      ensures locked <==> RedisAnswer(old(keys), Call(now, Operation.SetIfNotExists(key, ttl), ok))
    {
      Expire(now);
      if !ok {
        return false, true;
      }
      if key in keys {
        return false, false;
      }
      keys := keys[key := now + ttl * 1000];
      return true, false;
    }

    method Delete(key: string, now: int, ok: bool) returns (threw: bool)
      modifies this
      ensures keys == RedisNext(old(keys), Call(now, Operation.Delete(key), ok)) && threw == !ok
    {
      Expire(now);
      if ok {
        keys := keys - {key};
      }
      threw := !ok;
    }

    method Expire(now: int)
      modifies this
      ensures keys == Unexpired(old(keys), now)
    {
      keys := map k | k in keys && now < keys[k] :: keys[k];
    }
  }
}
