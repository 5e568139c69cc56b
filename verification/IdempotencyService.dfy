/** Taking and releasing the lock of a source key through all its candidate keys, and why the
    lock survives a change of the active encryption key. */
module IdempotencyService {
  import opened Json
  import opened Encryption
  import opened IdempotencyStore

  /** `AlreadyHeld` is the answer to a duplicate, and also to a store that only failed to take the lock. */
  datatype LockAnswer = Taken | AlreadyHeld | LockThrew

  /** A lock is taken when every candidate can be asked for and none is live. With several candidates an
      unreadable one throws, unless a live one was found before it. */
  ghost function AnswerTo(t: Table, keys: seq<string>, now: int, asks: nat -> bool, ok: bool): LockAnswer {
    if |keys| > 1 && exists i: nat ::
      i < |keys| && !asks(i) && forall j: nat | j < i :: asks(j) && !Live(t, keys[j], now) then LockThrew
    else if ok && forall k | k in keys :: !Live(t, k, now) then Taken
    else AlreadyHeld
  }

  class IdempotencyService {
    const store: PgIdempotencyStore

    constructor (store: PgIdempotencyStore)
      ensures this.store == store
    {
      this.store := store;
    }

    /** `keys` are the candidates of the source key; `asks(i)` says whether asking for candidate `i` works,
        and `ok` whether the last store call does. */
    method CheckAndLock(keys: seq<string>, ttl: Ttl, now: int, asks: nat -> bool, ok: bool) returns (answer: LockAnswer)
      requires keys != []
      modifies store
      ensures answer == AnswerTo(old(store.table), keys, now, asks, ok)
      ensures store.table ==
        if answer == Taken then PgNext(old(store.table), Call(now, SetIfNotExists(keys[0], ttl), true))
                             else old(store.table)
    {
      if |keys| > 1 {
        for i := 0 to |keys|
          invariant store.table == old(store.table)
          invariant forall j: nat | j < i :: asks(j) && !Live(store.table, keys[j], now)
        {
          if !asks(i) {
            return LockThrew;
          }
          var found := store.Exists(keys[i], now);
          if found {
            return AlreadyHeld;
          }
        }
      }
      var locked := store.SetIfNotExists(keys[0], ttl, now, ok);
      return if locked then Taken else AlreadyHeld;
    }

    /** The deletes run together; those in `failed` have no effect and go unnoticed. */
    method Release(keys: seq<string>, now: int, failed: set<string>)
      modifies store
      ensures store.table == old(store.table) - ((set k | k in keys) - failed)
    {
      for i := 0 to |keys|
        invariant store.table == old(store.table) - ((set k | k in keys[..i]) - failed)
      {
        assert keys[..i + 1] == keys[..i] + [keys[i]];
        store.Delete(keys[i], now, keys[i] !in failed);
      }
      assert keys[..|keys|] == keys;
    }
  }

  // ----- Locks across changes of the active key -----

  /** One call of the service, made by a process configured with `cfg`; calls do not overlap. */
  datatype ServiceCall =
    | Lock(now: int, cfg: Config, source: string, ttl: Ttl)
    | Unlock(now: int, cfg: Config, source: string)

  function Candidates(lib: Library, c: ServiceCall): seq<string> {
    IdempotencyKeys(lib, c.cfg, c.source)
  }

  predicate Locked(lib: Library, t: Table, c: ServiceCall) {
    forall k | k in Candidates(lib, c) :: !Live(t, k, c.now)
  }

  /** The table after a call, as `CheckAndLock` and `Release` leave it. */
  function ServiceNext(lib: Library, t: Table, c: ServiceCall): Table
    requires Candidates(lib, c) != []
  {
    match c
    case Lock(now, _, _, ttl) =>
      if Locked(lib, t, c) then PgNext(t, Call(now, SetIfNotExists(Candidates(lib, c)[0], ttl), true)) else t
    case Unlock(_, _, _) => t - (set k | k in Candidates(lib, c))
  }

  function ServiceRun(lib: Library, h: seq<ServiceCall>): Table
    requires forall c | c in h :: Candidates(lib, c) != []
  {
    if h == [] then map[] else ServiceNext(lib, ServiceRun(lib, h[..|h| - 1]), h[|h| - 1])
  }

  /** The same call made on a store keyed by the source itself. */
  function Plain(c: ServiceCall): Call {
    match c
    case Lock(now, _, source, ttl) => Call(now, SetIfNotExists(source, ttl), true)
    case Unlock(now, _, source) => Call(now, Delete(source), true)
  }

  function PlainRun(h: seq<ServiceCall>): (p: seq<Call>)
    ensures |p| == |h|
    ensures forall i | 0 <= i < |h| :: p[i] == Plain(h[i])
  {
    if h == [] then [] else PlainRun(h[..|h| - 1]) + [Plain(h[|h| - 1])]
  }

  predicate SubRing(a: Keyring, b: Keyring) {
    forall d | d in a :: d in b
  }

  /** Keys are only ever added to the keyring, or reordered; the active key may change at each call. */
  predicate KeyringGrows(h: seq<ServiceCall>, ring: Keyring) {
    && (forall i | 0 <= i < |h| ::
          h[i].cfg.idempotencyHmac && h[i].cfg.keyring != [] && SubRing(h[i].cfg.keyring, ring))
    && (forall i, j | 0 <= i < j < |h| :: SubRing(h[i].cfg.keyring, h[j].cfg.keyring))
    && DistinctIds(ring)
  }

  /** No two of the given source keys have the same digest under one key. */
  predicate NoCollisions(lib: Library, ring: Keyring, sources: set<string>) {
    forall d, s, t | d in ring && s in sources && t in sources && lib.hmac(d.key, s) == lib.hmac(d.key, t) :: s == t
  }

  lemma CandidatesAreTheKeyring(lib: Library, c: ServiceCall)
    requires c.cfg.idempotencyHmac
    ensures |Candidates(lib, c)| == |c.cfg.keyring|
    ensures forall k :: k in Candidates(lib, c) <==> exists d :: d in c.cfg.keyring && k == LockKey(lib, d, c.source)
  {
    ActiveKeyComesFirst(c.cfg);
    var o, keys := Ordered(c.cfg), Candidates(lib, c);
    assert |o| == |multiset(o)|;
    forall d ensures d in o <==> d in c.cfg.keyring {
      assert d in o <==> d in multiset(o);
    }
    forall k ensures k in keys <==> exists d :: d in c.cfg.keyring && k == LockKey(lib, d, c.source) {
      if k in keys {
        var i :| 0 <= i < |keys| && keys[i] == k;
        assert o[i] in o && k == LockKey(lib, o[i], c.source);
      }
      if d :| d in c.cfg.keyring && k == LockKey(lib, d, c.source) {
        var i :| 0 <= i < |o| && o[i] == d;
        assert keys[i] == k;
      }
    }
  }

  lemma NonEmpty(lib: Library, h: seq<ServiceCall>, ring: Keyring)
    requires KeyringGrows(h, ring)
    ensures forall c | c in h :: Candidates(lib, c) != []
  {
    forall c | c in h ensures Candidates(lib, c) != [] {
      CandidatesAreTheKeyring(lib, c);
    }
  }

  lemma SameLockKey(
      lib: Library, ring: Keyring, sources: set<string>, d: Descriptor, e: Descriptor, s: string, t: string)
    requires lib.Lawful() && DistinctIds(ring) && NoCollisions(lib, ring, sources)
    requires d in ring && e in ring && s in sources && t in sources
    requires LockKey(lib, d, s) == LockKey(lib, e, t)
    ensures d == e && s == t
  {
    LockKeyIsInjective(lib, d, e, s, t);
    var i :| 0 <= i < |ring| && ring[i] == d;
    var j :| 0 <= j < |ring| && ring[j] == e;
    assert i == j;
  }

  ghost predicate Row(lib: Library, ring: Keyring, sources: set<string>, k: string) {
    exists d, s :: d in ring && s in sources && k == LockKey(lib, d, s)
  }

  /** Some key of the keyring holds a live lock for the source. */
  ghost predicate LiveSomewhere(lib: Library, t: Table, ring: Keyring, source: string, now: int) {
    exists d :: d in ring && Live(t, LockKey(lib, d, source), now)
  }

  /** What the table holds after a history: rows of the last keyring only, and, under any larger keyring,
      a live row for exactly the sources the reference says are held. */
  ghost predicate Tracks(lib: Library, h: seq<ServiceCall>, ring: Keyring, sources: set<string>)
    requires forall c | c in h :: Candidates(lib, c) != []
  {
    && (forall k | k in ServiceRun(lib, h) :: h != [] && Row(lib, h[|h| - 1].cfg.keyring, sources, k))
    && (forall s, now | s in sources && Until(PlainRun(h), now) ::
          LiveSomewhere(lib, ServiceRun(lib, h), ring, s, now) <==> Held(PlainRun(h), s, now))
  }

  /** A live lock under any key of the larger keyring is one of the caller's candidates. */
  lemma LiveIsACandidate(
      lib: Library, h: seq<ServiceCall>, c: ServiceCall, ring: Keyring, sources: set<string>, d: Descriptor)
    requires lib.Lawful() && KeyringGrows(h + [c], ring) && NoCollisions(lib, ring, sources)
    requires c.source in sources && forall b | b in h :: Candidates(lib, b) != []
    requires Tracks(lib, h, ring, sources) && d in ring && LockKey(lib, d, c.source) in ServiceRun(lib, h)
    ensures LockKey(lib, d, c.source) in Candidates(lib, c)
  {
    hide LockKey, NoCollisions, DistinctIds, Candidates, Encryption.Library.Lawful, Held, LiveSomewhere;
    assert (h + [c])[|h|] == c;
    CandidatesAreTheKeyring(lib, c);
    assert (h + [c])[|h| - 1] == h[|h| - 1];
    var k := LockKey(lib, d, c.source);
    var e, s :| e in h[|h| - 1].cfg.keyring && s in sources && k == LockKey(lib, e, s);
    assert e in c.cfg.keyring && e in ring;
    SameLockKey(lib, ring, sources, d, e, c.source, s);
  }

  lemma LockedIffNotHeld(lib: Library, h: seq<ServiceCall>, c: ServiceCall, ring: Keyring, sources: set<string>)
    requires lib.Lawful() && KeyringGrows(h + [c], ring) && NoCollisions(lib, ring, sources)
    requires c.source in sources && Until(PlainRun(h), c.now)
    requires forall b | b in h :: Candidates(lib, b) != []
    requires Tracks(lib, h, ring, sources)
    ensures Locked(lib, ServiceRun(lib, h), c) <==> !Held(PlainRun(h), c.source, c.now)
  {
    hide LockKey, NoCollisions, DistinctIds, Candidates, Encryption.Library.Lawful, Row, Held, PlainRun, Until;
    var t := ServiceRun(lib, h);
    assert (h + [c])[|h|] == c;
    CandidatesAreTheKeyring(lib, c);
    assert LiveSomewhere(lib, t, ring, c.source, c.now) <==> Held(PlainRun(h), c.source, c.now);
    if d :| d in ring && Live(t, LockKey(lib, d, c.source), c.now) {
      LiveIsACandidate(lib, h, c, ring, sources, d);
    }
    if !Locked(lib, t, c) {
      var k :| k in Candidates(lib, c) && Live(t, k, c.now);
      var d :| d in c.cfg.keyring && k == LockKey(lib, d, c.source);
      assert d in ring;
    }
  }

  lemma {:induction false} TableTracksHeld(lib: Library, h: seq<ServiceCall>, ring: Keyring, sources: set<string>)
    requires lib.Lawful() && KeyringGrows(h, ring) && NoCollisions(lib, ring, sources)
    requires Chronological(PlainRun(h)) && forall c | c in h :: c.source in sources
    ensures forall c | c in h :: Candidates(lib, c) != []
    ensures Tracks(lib, h, ring, sources)
  {
    hide Tracks, KeyringGrows, Chronological, NoCollisions, Candidates, PlainRun, Until, Encryption.Library.Lawful;
    NonEmpty(lib, h, ring);
    if h == [] {
      NothingHeld(lib, ring, sources);
    } else {
      var before, c := h[..|h| - 1], h[|h| - 1];
      assert h == before + [c];
      PrefixIsFine(before, c, ring);
      TableTracksHeld(lib, before, ring, sources);
      TracksOneMore(lib, before, c, ring, sources);
    }
  }

  lemma NothingHeld(lib: Library, ring: Keyring, sources: set<string>)
    ensures Tracks(lib, [], ring, sources)
  {
  }

  lemma PrefixIsFine(h: seq<ServiceCall>, c: ServiceCall, ring: Keyring)
    requires KeyringGrows(h + [c], ring) && Chronological(PlainRun(h + [c]))
    ensures KeyringGrows(h, ring) && Chronological(PlainRun(h)) && Until(PlainRun(h), c.now)
    ensures PlainRun(h + [c]) == PlainRun(h) + [Plain(c)]
  {
    var p := PlainRun(h + [c]);
    assert (h + [c])[..|h|] == h && (h + [c])[|h|] == c;
    assert forall i | 0 <= i < |h| :: (h + [c])[i] == h[i] && p[i] == PlainRun(h)[i];
  }

  lemma TracksOneMore(lib: Library, h: seq<ServiceCall>, c: ServiceCall, ring: Keyring, sources: set<string>)
    requires lib.Lawful() && KeyringGrows(h + [c], ring) && NoCollisions(lib, ring, sources)
    requires Chronological(PlainRun(h + [c])) && Until(PlainRun(h), c.now)
    requires PlainRun(h + [c]) == PlainRun(h) + [Plain(c)]
    requires forall b | b in h + [c] :: Candidates(lib, b) != [] && b.source in sources
    requires Tracks(lib, h, ring, sources)
    ensures Tracks(lib, h + [c], ring, sources)
  {
    hide KeyringGrows, Chronological, NoCollisions, Candidates, LiveSomewhere, Row, Held, Locked, ServiceNext,
         ServiceRun, PlainRun, Until, Encryption.Library.Lawful;
    var h', p := h + [c], PlainRun(h);
    assert c in h' && h'[|h|] == c;
    RunNext(lib, h, c);
    LockedIffNotHeld(lib, h, c, ring, sources);
    RowsAfter(lib, h, c, ring, sources);
    forall s, now | s in sources && Until(p + [Plain(c)], now)
      ensures LiveSomewhere(lib, ServiceRun(lib, h'), ring, s, now) <==> Held(p + [Plain(c)], s, now)
    {
      UntilPrefix(h, c, now);
      LiveAfter(lib, h, c, ring, sources, s, now);
    }
  }

  lemma OnlyTheFirstIsAdded(lib: Library, t: Table, c: ServiceCall)
    requires Candidates(lib, c) != []
    ensures ServiceNext(lib, t, c).Keys <= t.Keys + {Candidates(lib, c)[0]}
  {
    hide Candidates, Locked;
  }

  lemma RowsAfter(lib: Library, h: seq<ServiceCall>, c: ServiceCall, ring: Keyring, sources: set<string>)
    requires KeyringGrows(h + [c], ring) && c.source in sources
    requires forall b | b in h + [c] :: Candidates(lib, b) != []
    requires Tracks(lib, h, ring, sources)
    ensures forall k | k in ServiceNext(lib, ServiceRun(lib, h), c) :: Row(lib, c.cfg.keyring, sources, k)
  {
    hide Candidates, ServiceNext, ServiceRun, LockKey, Locked;
    assert (h + [c])[|h|] == c;
    CandidatesAreTheKeyring(lib, c);
    OnlyTheFirstIsAdded(lib, ServiceRun(lib, h), c);
    forall k | k in ServiceNext(lib, ServiceRun(lib, h), c)
      ensures Row(lib, c.cfg.keyring, sources, k)
    {
      if k in ServiceRun(lib, h) {
        assert (h + [c])[|h| - 1] == h[|h| - 1];
        var d, s :| d in h[|h| - 1].cfg.keyring && s in sources && k == LockKey(lib, d, s);
        assert d in c.cfg.keyring;
      } else {
        assert k in Candidates(lib, c);
        var d :| d in c.cfg.keyring && k == LockKey(lib, d, c.source);
        assert Row(lib, c.cfg.keyring, sources, k);
      }
    }
  }

  lemma OtherSourceUntouched(lib: Library, h: seq<ServiceCall>, c: ServiceCall, ring: Keyring, sources: set<string>,
                             d: Descriptor, s: string, now: int)
    requires lib.Lawful() && KeyringGrows(h + [c], ring) && NoCollisions(lib, ring, sources)
    requires forall b | b in h + [c] :: Candidates(lib, b) != []
    requires c.source in sources && s in sources && s != c.source && d in ring && c.now <= now
    ensures var t := ServiceRun(lib, h);
      Live(ServiceNext(lib, t, c), LockKey(lib, d, s), now) <==> Live(t, LockKey(lib, d, s), now)
  {
    assert (h + [c])[|h|] == c;
    CandidatesAreTheKeyring(lib, c);
    var k := LockKey(lib, d, s);
    if k in Candidates(lib, c) {
      var e :| e in c.cfg.keyring && k == LockKey(lib, e, c.source);
      SameLockKey(lib, ring, sources, d, e, s, c.source);
    }
  }

  lemma UnlockFreesSource(
      lib: Library, h: seq<ServiceCall>, c: ServiceCall, ring: Keyring, sources: set<string>, now: int)
    requires lib.Lawful() && KeyringGrows(h + [c], ring) && NoCollisions(lib, ring, sources)
    requires c.source in sources && forall b | b in h + [c] :: Candidates(lib, b) != []
    requires Tracks(lib, h, ring, sources)
    requires c.Unlock?
    ensures !LiveSomewhere(lib, ServiceNext(lib, ServiceRun(lib, h), c), ring, c.source, now)
  {
    assert (h + [c])[|h|] == c;
    CandidatesAreTheKeyring(lib, c);
    var t := ServiceRun(lib, h);
    forall d | d in ring
      ensures LockKey(lib, d, c.source) !in ServiceNext(lib, t, c)
    {
      var k := LockKey(lib, d, c.source);
      if k in t {
        LiveIsACandidate(lib, h, c, ring, sources, d);
      }
    }
  }

  lemma LockHoldsSource(
      lib: Library, h: seq<ServiceCall>, c: ServiceCall, ring: Keyring, sources: set<string>, now: int)
    requires lib.Lawful() && KeyringGrows(h + [c], ring) && NoCollisions(lib, ring, sources)
    requires c.source in sources && forall b | b in h + [c] :: Candidates(lib, b) != []
    requires Tracks(lib, h, ring, sources)
    requires c.Lock? && c.now <= now && !LiveSomewhere(lib, ServiceRun(lib, h), ring, c.source, c.now)
    requires Locked(lib, ServiceRun(lib, h), c)
    ensures LiveSomewhere(lib, ServiceNext(lib, ServiceRun(lib, h), c), ring, c.source, now)
      <==> now < c.now + c.ttl * 1000
  {
    assert (h + [c])[|h|] == c;
    CandidatesAreTheKeyring(lib, c);
    var t, t' := ServiceRun(lib, h), ServiceNext(lib, ServiceRun(lib, h), c);
    var first := Candidates(lib, c)[0];
    assert first in Candidates(lib, c);
    var d :| d in c.cfg.keyring && first == LockKey(lib, d, c.source);
    assert d in ring;
    assert Live(t', first, now) <==> now < c.now + c.ttl * 1000;
    forall e | e in ring && LockKey(lib, e, c.source) != first
      ensures !Live(t', LockKey(lib, e, c.source), now)
    {
    }
  }

  lemma LiveAfter(
      lib: Library, h: seq<ServiceCall>, c: ServiceCall, ring: Keyring, sources: set<string>, s: string, now: int)
    requires lib.Lawful() && KeyringGrows(h + [c], ring) && NoCollisions(lib, ring, sources)
    requires c.source in sources && forall b | b in h + [c] :: Candidates(lib, b) != []
    requires Tracks(lib, h, ring, sources)
    requires s in sources && Until(PlainRun(h), c.now) && c.now <= now
    requires Locked(lib, ServiceRun(lib, h), c) <==> !Held(PlainRun(h), c.source, c.now)
    ensures LiveSomewhere(lib, ServiceNext(lib, ServiceRun(lib, h), c), ring, s, now)
      <==> Held(PlainRun(h) + [Plain(c)], s, now)
  {
    hide LockKey, Row;
    var t, p := ServiceRun(lib, h), PlainRun(h);
    assert (p + [Plain(c)])[..|p|] == p;
    assert Until(p, now);
    assert LiveSomewhere(lib, t, ring, s, now) <==> Held(p, s, now);
    if s != c.source {
      forall d | d in ring
        ensures Live(ServiceNext(lib, t, c), LockKey(lib, d, s), now) <==> Live(t, LockKey(lib, d, s), now)
      {
        OtherSourceUntouched(lib, h, c, ring, sources, d, s, now);
      }
    } else if c.Unlock? {
      UnlockFreesSource(lib, h, c, ring, sources, now);
    } else if Locked(lib, t, c) {
      LockHoldsSource(lib, h, c, ring, sources, now);
    }
  }

  /** However the active key moves, a source is locked by a call exactly when the reference says that
      nobody holds it: one acceptance per time to live, and a release frees the source at once. */
  lemma LocksSurviveKeyChanges(lib: Library, h: seq<ServiceCall>, c: ServiceCall, ring: Keyring, sources: set<string>)
    requires lib.Lawful() && KeyringGrows(h + [c], ring) && NoCollisions(lib, ring, sources)
    requires Chronological(PlainRun(h + [c])) && forall b | b in h + [c] :: b.source in sources
    ensures forall b | b in h :: Candidates(lib, b) != []
    ensures Locked(lib, ServiceRun(lib, h), c) <==> !Held(PlainRun(h), c.source, c.now)
  {
    hide NoCollisions, DistinctIds, Candidates, Encryption.Library.Lawful, KeyringGrows, Chronological, Until, PlainRun;
    PrefixIsFine(h, c, ring);
    assert (h + [c])[|h|] == c;
    assert forall b | b in h :: b in h + [c];
    TableTracksHeld(lib, h, ring, sources);
    LockedIffNotHeld(lib, h, c, ring, sources);
  }

  // ----- A caller whose keyring lacks keys -----

  /** The key under which the lock of a source was last taken, going by the calls alone. */
  ghost function TakenUnder(h: seq<ServiceCall>, source: string): Option<Descriptor> {
    if h == [] then None
    else
      var before, last := h[..|h| - 1], h[|h| - 1];
      if last.source != source || Ordered(last.cfg) == [] then TakenUnder(before, source)
      else if last.Unlock? then None
      else if Held(PlainRun(before), source, last.now) then TakenUnder(before, source)
      else Some(Ordered(last.cfg)[0])
  }

  lemma TakenUnderActive(lib: Library, c: ServiceCall)
    requires c.cfg.idempotencyHmac && c.cfg.keyring != []
    ensures Ordered(c.cfg) != [] && Candidates(lib, c) != []
    ensures Candidates(lib, c)[0] == LockKey(lib, Ordered(c.cfg)[0], c.source) && Ordered(c.cfg)[0] in c.cfg.keyring
  {
    ActiveKeyComesFirst(c.cfg);
    assert |Ordered(c.cfg)| == |multiset(c.cfg.keyring)| == |c.cfg.keyring|;
    assert Ordered(c.cfg)[0] in multiset(Ordered(c.cfg));
  }

  /** A held source has a live row under exactly the key its lock was taken under. */
  lemma {:induction false} LiveUnderItsKey(
    lib: Library, h: seq<ServiceCall>, ring: Keyring, sources: set<string>, d: Descriptor, s: string, now: int)
    requires lib.Lawful() && KeyringGrows(h, ring) && NoCollisions(lib, ring, sources)
    requires Chronological(PlainRun(h)) && Until(PlainRun(h), now) && forall c | c in h :: c.source in sources
    requires d in ring && s in sources
    ensures forall c | c in h :: Candidates(lib, c) != []
    ensures Live(ServiceRun(lib, h), LockKey(lib, d, s), now) <==>
      Held(PlainRun(h), s, now) && TakenUnder(h, s) == Some(d)
    decreases |h|
  {
    hide LockKey, KeyringGrows, NoCollisions, Candidates, Encryption.Library.Lawful, Chronological, Until,
         ServiceRun, Held, TakenUnder, PlainRun, Live;
    NonEmpty(lib, h, ring);
    if h == [] {
      NothingIsLive(lib, LockKey(lib, d, s), s, now);
    } else {
      var before, c := h[..|h| - 1], h[|h| - 1];
      assert h == before + [c] && c in h;
      PrefixIsFine(before, c, ring);
      UntilPrefix(before, c, now);
      LiveUnderItsKey(lib, before, ring, sources, d, s, now);
      LiveUnderItsKey(lib, before, ring, sources, d, s, c.now);
      TableTracksHeld(lib, before, ring, sources);
      LiveUnderItsKeyNext(lib, before, c, ring, sources, d, s, now);
    }
  }

  lemma NothingIsLive(lib: Library, k: string, s: string, now: int)
    ensures !Live(ServiceRun(lib, []), k, now) && TakenUnder([], s).None?
  {
  }

  /** One more call keeps a live row under exactly the key the lock was taken under. */
  lemma LiveUnderItsKeyNext(
    lib: Library, h: seq<ServiceCall>, c: ServiceCall, ring: Keyring, sources: set<string>,
    d: Descriptor, s: string, now: int)
    requires lib.Lawful() && KeyringGrows(h + [c], ring) && NoCollisions(lib, ring, sources)
    requires PlainRun(h + [c]) == PlainRun(h) + [Plain(c)] && Until(PlainRun(h), c.now) && c.now <= now
    requires forall b | b in h + [c] :: Candidates(lib, b) != []
    requires c.source in sources && d in ring && s in sources
    requires Tracks(lib, h, ring, sources)
    requires forall at | at in {c.now, now} ::
      Live(ServiceRun(lib, h), LockKey(lib, d, s), at) <==> Held(PlainRun(h), s, at) && TakenUnder(h, s) == Some(d)
    ensures Live(ServiceRun(lib, h + [c]), LockKey(lib, d, s), now) <==>
      Held(PlainRun(h + [c]), s, now) && TakenUnder(h + [c], s) == Some(d)
  {
    hide LockKey, KeyringGrows, NoCollisions, Candidates, Encryption.Library.Lawful, Until, PlainRun, Tracks,
         Live, ServiceNext, Locked, Ordered, ServiceRun, TakenUnder, Held;
    assert now in {c.now, now} && c.now in {c.now, now};
    LastCallIsFine(h, c, ring);
    TakenUnderActive(lib, c);
    RunNext(lib, h, c);
    HeldNext(h, c, s, now);
    TakenUnderNext(h, c, s);
    if s != c.source {
      OtherSourceUntouched(lib, h, c, ring, sources, d, s, now);
    } else if c.Unlock? {
      UnlockedIsNotLive(lib, h, c, ring, sources, d, now);
    } else {
      LiveEarlier(ServiceRun(lib, h), LockKey(lib, d, s), c.now, now);
      LockedIffNotHeld(lib, h, c, ring, sources);
      LockLivesUnderActive(lib, h, c, ring, sources, d, now);
    }
  }

  lemma RunNext(lib: Library, h: seq<ServiceCall>, c: ServiceCall)
    requires forall b | b in h + [c] :: Candidates(lib, b) != []
    ensures ServiceRun(lib, h + [c]) == ServiceNext(lib, ServiceRun(lib, h), c)
  {
    assert (h + [c])[..|h|] == h && (h + [c])[|h|] == c;
  }

  lemma HeldNext(h: seq<ServiceCall>, c: ServiceCall, s: string, now: int)
    requires PlainRun(h + [c]) == PlainRun(h) + [Plain(c)]
    ensures Held(PlainRun(h + [c]), s, now) <==>
      if s != c.source then Held(PlainRun(h), s, now)
      else if c.Unlock? then false
      else if Held(PlainRun(h), s, c.now) then Held(PlainRun(h), s, now)
      else now < c.now + c.ttl * 1000
  {
    hide PlainRun;
    var p := PlainRun(h + [c]);
    assert p[..|PlainRun(h)|] == PlainRun(h) && p[|PlainRun(h)|] == Plain(c);
  }

  lemma TakenUnderNext(h: seq<ServiceCall>, c: ServiceCall, s: string)
    requires Ordered(c.cfg) != []
    ensures TakenUnder(h + [c], s) ==
      if s != c.source then TakenUnder(h, s)
      else if c.Unlock? then None
      else if Held(PlainRun(h), s, c.now) then TakenUnder(h, s)
      else Some(Ordered(c.cfg)[0])
  {
    hide Ordered, Held, PlainRun;
    assert (h + [c])[..|h|] == h && (h + [c])[|h|] == c;
  }

  lemma UnlockedIsNotLive(
    lib: Library, h: seq<ServiceCall>, c: ServiceCall, ring: Keyring, sources: set<string>, d: Descriptor, now: int)
    requires lib.Lawful() && KeyringGrows(h + [c], ring) && NoCollisions(lib, ring, sources)
    requires c.source in sources && forall b | b in h + [c] :: Candidates(lib, b) != []
    requires Tracks(lib, h, ring, sources)
    requires c.Unlock? && d in ring
    ensures !Live(ServiceNext(lib, ServiceRun(lib, h), c), LockKey(lib, d, c.source), now)
  {
    hide LockKey, KeyringGrows, NoCollisions, Candidates, Encryption.Library.Lawful, Tracks, Live, ServiceNext,
         ServiceRun;
    UnlockFreesSource(lib, h, c, ring, sources, now);
  }

  lemma LiveEarlier(t: Table, k: string, earlier: int, now: int)
    requires earlier <= now
    ensures Live(t, k, now) ==> Live(t, k, earlier)
  {
  }

  lemma UntilPrefix(h: seq<ServiceCall>, c: ServiceCall, now: int)
    requires PlainRun(h + [c]) == PlainRun(h) + [Plain(c)] && Until(PlainRun(h + [c]), now)
    ensures Until(PlainRun(h), now) && c.now <= now
  {
    var p := PlainRun(h + [c]);
    assert p[|h|] == Plain(c);
    assert forall i | 0 <= i < |h| :: PlainRun(h)[i] == p[i];
  }

  lemma LastCallIsFine(h: seq<ServiceCall>, c: ServiceCall, ring: Keyring)
    requires KeyringGrows(h + [c], ring)
    ensures c.cfg.idempotencyHmac && c.cfg.keyring != [] && SubRing(c.cfg.keyring, ring)
  {
    assert (h + [c])[|h|] == c;
  }

  /** After a lock call on the source, its rows under other keys are as before, and the one under the active
      key is new if the lock was taken. */
  lemma LockLivesUnderActive(
    lib: Library, h: seq<ServiceCall>, c: ServiceCall, ring: Keyring, sources: set<string>, d: Descriptor, now: int)
    requires lib.Lawful() && KeyringGrows(h + [c], ring) && NoCollisions(lib, ring, sources)
    requires c.Lock? && c.source in sources && d in ring && c.now <= now
    requires forall b | b in h :: Candidates(lib, b) != []
    requires Candidates(lib, c) != [] && Ordered(c.cfg) != [] && Ordered(c.cfg)[0] in ring
    requires Candidates(lib, c)[0] == LockKey(lib, Ordered(c.cfg)[0], c.source)
    ensures var t := ServiceRun(lib, h);
      Live(ServiceNext(lib, t, c), LockKey(lib, d, c.source), now) <==>
        if Locked(lib, t, c) && d == Ordered(c.cfg)[0] then now < c.now + c.ttl * 1000
        else Live(t, LockKey(lib, d, c.source), now)
  {
    hide LockKey, KeyringGrows, Candidates, Encryption.Library.Lawful, Ordered, NoCollisions, DistinctIds;
    var e := Ordered(c.cfg)[0];
    DistinctFromGrows(h, c, ring);
    if LockKey(lib, d, c.source) == LockKey(lib, e, c.source) {
      SameLockKey(lib, ring, sources, d, e, c.source, c.source);
    }
  }

  lemma DistinctFromGrows(h: seq<ServiceCall>, c: ServiceCall, ring: Keyring)
    requires KeyringGrows(h + [c], ring)
    ensures DistinctIds(ring)
  {
  }

  /** Whatever part of the keyring a caller has left, it locks a source exactly when nobody holds it, or when
      it lacks the key under which the lock was taken. */
  lemma LockedIffFreeOrKeyDropped(
      lib: Library, h: seq<ServiceCall>, c: ServiceCall, ring: Keyring, sources: set<string>)
    requires lib.Lawful() && KeyringGrows(h, ring) && NoCollisions(lib, ring, sources)
    requires Chronological(PlainRun(h)) && Until(PlainRun(h), c.now) && forall b | b in h :: b.source in sources
    requires c.source in sources && c.cfg.idempotencyHmac && SubRing(c.cfg.keyring, ring)
    ensures forall b | b in h :: Candidates(lib, b) != []
    ensures Held(PlainRun(h), c.source, c.now) ==> TakenUnder(h, c.source).Some?
    ensures Locked(lib, ServiceRun(lib, h), c) <==>
      !Held(PlainRun(h), c.source, c.now) || TakenUnder(h, c.source).value !in c.cfg.keyring
  {
    hide LockKey, KeyringGrows, NoCollisions, Candidates, Encryption.Library.Lawful, Chronological, Until, Held,
         TakenUnder, ServiceRun, PlainRun, Live;
    TableTracksHeld(lib, h, ring, sources);
    var t, p := ServiceRun(lib, h), PlainRun(h);
    CandidatesAreTheKeyring(lib, c);
    assert Held(p, c.source, c.now) ==> LiveSomewhere(lib, t, ring, c.source, c.now);
    forall d | d in ring
      ensures Live(t, LockKey(lib, d, c.source), c.now) <==>
        Held(p, c.source, c.now) && TakenUnder(h, c.source) == Some(d)
    {
      LiveUnderItsKey(lib, h, ring, sources, d, c.source, c.now);
    }
  }

  /** The keyring may only grow: a process that has dropped the key of a live lock locks the source again. */
  lemma DroppedKeyForgetsLocks(lib: Library, a: Descriptor, b: Descriptor, source: string, now: int, ttl: Ttl)
    returns (h: seq<ServiceCall>, c: ServiceCall)
    requires lib.Lawful() && a.id != b.id
    ensures Chronological(PlainRun(h + [c])) && c.source == source && forall k | k in h :: Candidates(lib, k) != []
    ensures Locked(lib, ServiceRun(lib, h), c) && Held(PlainRun(h), source, now) && c.now == now
  {
    hide LockKey, Encryption.Library.Lawful;
    var before, after := Config(true, false, true, false, a.id, [a]), Config(true, false, true, false, b.id, [b]);
    var first := Lock(now, before, source, ttl);
    h, c := [first], Lock(now, after, source, ttl);
    CandidatesAreTheKeyring(lib, first);
    CandidatesAreTheKeyring(lib, c);
    assert [first][..0] == [];
    assert PlainRun([first]) == [Plain(first)];
    forall k | k in Candidates(lib, c) ensures k !in ServiceRun(lib, h) {
      assert k == LockKey(lib, b, source);
      if k == LockKey(lib, a, source) {
        LockKeyIsInjective(lib, a, b, source, source);
      }
    }
  }
}
