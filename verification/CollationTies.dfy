/** Which bodies can arrive, and which of them print the same. ECMAScript enumerates the integer keys of an
    object first, in ascending order, then the others as they were added; the sort is stable, so it keeps the
    arriving order of keys that the collation holds equal. */
module CollationTies {
  import Json
  import opened StableStringify

  // ----- Integer keys -----

  predicate IsDigit(c: char) {
    '0' <= c <= '9'
  }

  /** Decimal digits without a leading zero. */
  predicate IsDecimal(k: string) {
    k != "" && (forall i | 0 <= i < |k| :: IsDigit(k[i])) && (k[0] == '0' ==> |k| == 1)
  }

  function Decimal(k: string): nat
    requires forall i | 0 <= i < |k| :: IsDigit(k[i])
  {
    if k == "" then 0
    else
      assert IsDigit(k[|k| - 1]);
      10 * Decimal(k[..|k| - 1]) + (k[|k| - 1] - '0') as int
  }

  const MAX_ARRAY_INDEX := 0xffff_fffe

  /** The integer an integer key stands for. */
  function IndexOf(k: string): Json.Option<nat> {
    if IsDecimal(k) && Decimal(k) <= MAX_ARRAY_INDEX then Json.Some(Decimal(k)) else Json.None
  }

  lemma {:induction false} DecimalIsPositive(k: string)
    requires k != "" && (forall i | 0 <= i < |k| :: IsDigit(k[i])) && k[0] != '0'
    ensures Decimal(k) > 0
  {
    if |k| > 1 {
      DecimalIsPositive(k[..|k| - 1]);
    }
  }

  /** Different integer keys stand for different integers. */
  lemma {:induction false} DecimalIsInjective(k: string, l: string)
    requires IsDecimal(k) && IsDecimal(l) && Decimal(k) == Decimal(l)
    ensures k == l
  {
    var a, b := k[..|k| - 1], l[..|l| - 1];
    assert forall i | 0 <= i < |a| :: a[i] == k[i];
    assert forall i | 0 <= i < |b| :: b[i] == l[i];
    assert k == a + [k[|k| - 1]] && l == b + [l[|l| - 1]];
    assert k[|k| - 1] == l[|l| - 1] && Decimal(a) == Decimal(b);
    if |k| > 1 && |l| > 1 {
      DecimalIsInjective(a, b);
    } else if |k| > 1 {
      DecimalIsPositive(a);
    } else if |l| > 1 {
      DecimalIsPositive(b);
    }
  }

  // ----- The bodies that can arrive -----

  /** May `k` be enumerated before `l`? */
  predicate MayPrecede(k: string, l: string) {
    IndexOf(l).Some? ==> IndexOf(k).Some? && IndexOf(k).value <= IndexOf(l).value
  }

  predicate Enumerated(es: seq<Entry>) {
    forall i, j | 0 <= i < j < |es| :: MayPrecede(es[i].key, es[j].key)
  }

  /** A parsed body in an order of keys that ECMAScript enumerates, at every depth. */
  predicate CanArrive(t: Tree) {
    match t
    case Array(items) => forall i | 0 <= i < |items| :: CanArrive(items[i])
    case Object(entries) =>
      DistinctKeys(entries) && Enumerated(entries) && forall i | 0 <= i < |entries| :: CanArrive(entries[i].value)
    case _ => true
  }

  /** Two keys that the collation holds equal and that can arrive in either order. */
  predicate FreelyTied(le: Collation, k: string, l: string) {
    Tied(le, k, l) && IndexOf(k).None? && IndexOf(l).None?
  }

  predicate NoFreeTies(le: Collation, es: seq<Entry>) {
    forall i, j | 0 <= i < |es| && 0 <= j < |es| && i != j :: !FreelyTied(le, es[i].key, es[j].key)
  }

  /** No object has two such keys. */
  predicate FreelySeparated(le: Collation, t: Tree) {
    match t
    case Array(items) => forall i | 0 <= i < |items| :: FreelySeparated(le, items[i])
    case Object(entries) =>
      NoFreeTies(le, entries) && forall i | 0 <= i < |entries| :: FreelySeparated(le, entries[i].value)
    case _ => true
  }

  // ----- The collation, refined by the order of enumeration -----

  function Refined(le: Collation): Collation {
    (k: string, l: string) => le(k, l) && (le(l, k) ==> MayPrecede(k, l))
  }

  lemma RefinedIsTotal(le: Collation)
    requires Total(le)
    ensures Total(Refined(le))
  {
    hide IndexOf;
    var r := Refined(le);
    forall a, b, c | r(a, b) && r(b, c) ensures r(a, c) {
      assert le(a, c);
      if le(c, a) {
        assert le(c, b) && le(b, a);
      }
    }
    forall a, b ensures r(a, b) || r(b, a) {
      assert le(a, b) || le(b, a);
    }
  }

  /** On a body that can arrive, the refined collation sorts as the collation does. */
  lemma {:induction false} RefinedSortsAlike(le: Collation, es: seq<Entry>)
    requires Enumerated(es)
    ensures SortByKey(Refined(le), es) == SortByKey(le, es)
  {
    hide MayPrecede;
    if es != [] {
      var rest := es[1..];
      assert forall i | 0 <= i < |rest| :: rest[i] == es[i + 1];
      RefinedSortsAlike(le, rest);
      SortKeepsEntries(le, rest);
      RefinedInsertsAlike(le, es[0], SortByKey(le, rest));
    }
  }

  lemma {:induction false} RefinedInsertsAlike(le: Collation, e: Entry, sorted: seq<Entry>)
    requires forall x | x in sorted :: MayPrecede(e.key, x.key)
    ensures Insert(Refined(le), e, sorted) == Insert(le, e, sorted)
  {
    if sorted != [] {
      RefinedInsertsAlike(le, e, sorted[1..]);
    }
  }

  lemma {:induction false} RefinedIsCanonicalAlike(le: Collation, t: Tree)
    requires CanArrive(t)
    ensures Canonical(Refined(le), t) == Canonical(le, t)
    decreases t
  {
    hide Refined, MayPrecede, SortByKey;
    match t
    case Array(items) =>
      forall i | 0 <= i < |items| ensures Canonical(Refined(le), items[i]) == Canonical(le, items[i]) {
        RefinedIsCanonicalAlike(le, items[i]);
      }
    case Object(es) =>
      forall i | 0 <= i < |es| ensures Canonical(Refined(le), es[i].value) == Canonical(le, es[i].value) {
        RefinedIsCanonicalAlike(le, es[i].value);
      }
      var c, d := CanonicalEntries(Refined(le), es), CanonicalEntries(le, es);
      assert c == d;
      assert Enumerated(d);
      RefinedSortsAlike(le, d);
    case _ =>
  }

  lemma RefinedPrintsAlike(le: Collation, t: Tree)
    requires CanArrive(t)
    ensures StableStringify.StableStringify(Refined(le), t) == StableStringify.StableStringify(le, t)
  {
    RefinedIsCanonicalAlike(le, t);
    StableIsPut(le, t, "");
    StableIsPut(Refined(le), t, "");
    assert StableStringify.StableStringify(le, t) + "" == StableStringify.StableStringify(le, t);
    assert StableStringify.StableStringify(Refined(le), t) + "" == StableStringify.StableStringify(Refined(le), t);
  }

  lemma {:induction false} ArrivingIsWellFormed(le: Collation, t: Tree)
    requires CanArrive(t)
    ensures WellFormed(t) && (FreelySeparated(le, t) ==> Separated(Refined(le), t))
    decreases t
  {
    hide MayPrecede, IndexOf;
    match t
    case Array(items) =>
      forall i | 0 <= i < |items|
        ensures WellFormed(items[i]) && (FreelySeparated(le, items[i]) ==> Separated(Refined(le), items[i]))
      {
        ArrivingIsWellFormed(le, items[i]);
      }
    case Object(es) =>
      forall i | 0 <= i < |es|
        ensures WellFormed(es[i].value) && (FreelySeparated(le, es[i].value) ==> Separated(Refined(le), es[i].value))
      {
        ArrivingIsWellFormed(le, es[i].value);
      }
      forall i, j | 0 <= i < |es| && 0 <= j < |es| && i != j && Tied(Refined(le), es[i].key, es[j].key)
        ensures FreelyTied(le, es[i].key, es[j].key)
      {
        assert es[i].key != es[j].key;
        TiedWhenRefined(le, es[i].key, es[j].key);
      }
    case _ =>
  }

  lemma TiedWhenRefined(le: Collation, k: string, l: string)
    requires k != l && Tied(Refined(le), k, l)
    ensures FreelyTied(le, k, l)
  {
    assert Refined(le)(k, l) && Refined(le)(l, k);
    assert MayPrecede(k, l) && MayPrecede(l, k);
    if IndexOf(k).Some? {
      DecimalIsInjective(k, l);
    }
  }

  /** Two bodies that can arrive print equally exactly when they are equal up to the order of keys at every
      depth, provided the collation tells apart the keys that can arrive in either order. */
  lemma ArrivingTextIsCanonical(le: Collation, a: Tree, b: Tree)
    requires Total(le) && CanArrive(a) && CanArrive(b) && FreelySeparated(le, a)
    ensures StableStringify.StableStringify(le, a) == StableStringify.StableStringify(le, b) <==> Erase(a) == Erase(b)
  {
    hide StableStringify.StableStringify, Erase, CanArrive, FreelySeparated, Refined;
    RefinedIsTotal(le);
    ArrivingIsWellFormed(le, a);
    ArrivingIsWellFormed(le, b);
    RefinedPrintsAlike(le, a);
    RefinedPrintsAlike(le, b);
    StableStringifyIsCanonical(Refined(le), a, b);
  }

  // ----- Keys that are held equal keep their order -----

  ghost predicate Before(es: seq<Entry>, k: string, l: string) {
    exists i, j :: 0 <= i < j < |es| && es[i].key == k && es[j].key == l
  }

  lemma {:induction false} InsertKeepsBefore(le: Collation, e: Entry, es: seq<Entry>, k: string, l: string)
    requires Before(es, k, l) || (k == e.key && le(k, l) && exists j :: 0 <= j < |es| && es[j].key == l)
    ensures Before(Insert(le, e, es), k, l)
  {
    var r := Insert(le, e, es);
    if le(e.key, es[0].key) {
      assert r == [e] + es;
      if Before(es, k, l) {
        var i, j :| 0 <= i < j < |es| && es[i].key == k && es[j].key == l;
        assert r[i + 1] == es[i] && r[j + 1] == es[j];
      } else {
        var j :| 0 <= j < |es| && es[j].key == l;
        assert r[0] == e && r[j + 1] == es[j];
      }
    } else {
      var rest := es[1..];
      assert r == [es[0]] + Insert(le, e, rest);
      assert forall i | 0 <= i < |rest| :: rest[i] == es[i + 1];
      InsertMembers(le, e, rest);
      if Before(es, k, l) {
        var i, j :| 0 <= i < j < |es| && es[i].key == k && es[j].key == l;
        if i == 0 {
          assert rest[j - 1] in Insert(le, e, rest);
          var n :| 0 <= n < |Insert(le, e, rest)| && Insert(le, e, rest)[n] == rest[j - 1];
          assert r[n + 1].key == l && r[0].key == k;
        } else {
          assert rest[i - 1].key == k && rest[j - 1].key == l;
          assert Before(rest, k, l);
          InsertKeepsBefore(le, e, rest, k, l);
          LaterBefore(es[0], Insert(le, e, rest), k, l);
        }
      } else {
        var j :| 0 <= j < |es| && es[j].key == l;
        assert j > 0 && rest[j - 1].key == l;
        InsertKeepsBefore(le, e, rest, k, l);
        LaterBefore(es[0], Insert(le, e, rest), k, l);
      }
    }
  }

  lemma InsertMembers(le: Collation, e: Entry, es: seq<Entry>)
    ensures forall x :: x in Insert(le, e, es) <==> x == e || x in es
  {
    forall x ensures x in Insert(le, e, es) <==> x == e || x in es {
      assert x in Insert(le, e, es) <==> x in multiset(Insert(le, e, es));
    }
  }

  lemma LaterBefore(e: Entry, es: seq<Entry>, k: string, l: string)
    requires Before(es, k, l)
    ensures Before([e] + es, k, l)
  {
    var i, j :| 0 <= i < j < |es| && es[i].key == k && es[j].key == l;
    assert ([e] + es)[i + 1] == es[i] && ([e] + es)[j + 1] == es[j];
  }

  /** The sort is stable: keys it holds equal stay in the order they came in. */
  lemma {:induction false} SortIsStable(le: Collation, es: seq<Entry>, k: string, l: string)
    requires Before(es, k, l) && le(k, l)
    ensures Before(SortByKey(le, es), k, l)
  {
    var i, j :| 0 <= i < j < |es| && es[i].key == k && es[j].key == l;
    var rest := es[1..];
    assert forall n | 0 <= n < |rest| :: rest[n] == es[n + 1];
    SortKeepsEntries(le, rest);
    if i == 0 {
      assert rest[j - 1] in SortByKey(le, rest);
    } else {
      assert rest[i - 1].key == k && rest[j - 1].key == l;
      assert Before(rest, k, l);
      SortIsStable(le, rest, k, l);
    }
    InsertKeepsBefore(le, es[0], SortByKey(le, rest), k, l);
  }

  function Swap(es: seq<Entry>, i: nat, j: nat): (r: seq<Entry>)
    requires i < j < |es|
    ensures |r| == |es| && r[i] == es[j] && r[j] == es[i]
    ensures forall n | 0 <= n < |es| && n != i && n != j :: r[n] == es[n]
  {
    es[i := es[j]][j := es[i]]
  }

  lemma SwapKeepsMembers(es: seq<Entry>, i: nat, j: nat)
    requires i < j < |es|
    ensures forall e :: e in Swap(es, i, j) <==> e in es
    ensures DistinctKeys(es) ==> DistinctKeys(Swap(es, i, j))
  {
    var r := Swap(es, i, j);
    forall e ensures e in r <==> e in es {
      if e in es {
        var n :| 0 <= n < |es| && es[n] == e;
        assert r[if n == i then j else if n == j then i else n] == e;
      }
    }
  }

  lemma SwapKeepsOrder(es: seq<Entry>, i: nat, j: nat)
    requires i < j < |es| && Enumerated(es) && IndexOf(es[i].key).None? && IndexOf(es[j].key).None?
    ensures Enumerated(Swap(es, i, j))
  {
    hide IndexOf;
    var r := Swap(es, i, j);
    forall m, n | 0 <= m < n < |r|
      ensures MayPrecede(r[m].key, r[n].key)
    {
      assert MayPrecede(es[m].key, es[n].key);
      assert m > i ==> MayPrecede(es[i].key, es[m].key);
      assert n > i ==> MayPrecede(es[i].key, es[n].key);
    }
  }

  lemma SwapChangesCanonical(le: Collation, es: seq<Entry>, i: nat, j: nat)
    requires i < j < |es| && DistinctKeys(es) && Tied(le, es[i].key, es[j].key)
    ensures Canonical(le, Object(Swap(es, i, j))) != Canonical(le, Object(es))
  {
    hide SortByKey;
    var k, l := es[i].key, es[j].key;
    var c, d := CanonicalEntries(le, es), CanonicalEntries(le, Swap(es, i, j));
    assert c[i].key == k && c[j].key == l && d[i].key == l && d[j].key == k;
    assert Before(c, k, l) && Before(d, l, k);
    SortIsStable(le, c, k, l);
    SortIsStable(le, d, l, k);
    SortKeepsDistinct(le, c);
    NotBothBefore(SortByKey(le, c), k, l);
  }

  lemma NotBothBefore(es: seq<Entry>, k: string, l: string)
    requires DistinctKeys(es) && Before(es, k, l)
    ensures !Before(es, l, k)
  {
    var i, j :| 0 <= i < j < |es| && es[i].key == k && es[j].key == l;
  }

  /** `b` can arrive as well, and is the same value as `a`, but has another canonical tree. */
  predicate Twin(le: Collation, a: Tree, b: Tree) {
    CanArrive(b) && Erase(b) == Erase(a) && Canonical(le, b) != Canonical(le, a)
  }

  lemma TwinItem(le: Collation, items: seq<Tree>, i: nat, inner: Tree)
    requires CanArrive(Array(items)) && i < |items| && Twin(le, items[i], inner)
    ensures Twin(le, Array(items), Array(items[i := inner]))
  {
    var r := items[i := inner];
    assert Canonical(le, Array(r)).items[i] != Canonical(le, Array(items)).items[i];
    assert Erase(Array(r)).items == Erase(Array(items)).items;
  }

  lemma TwinValue(le: Collation, es: seq<Entry>, i: nat, inner: Tree)
    requires CanArrive(Object(es)) && i < |es| && Twin(le, es[i].value, inner)
    ensures Twin(le, Object(es), Object(es[i := Entry(es[i].key, inner)]))
  {
    hide Canonical, EraseEntries;
    var fs := es[i := Entry(es[i].key, inner)];
    SameErasedValues(fs, es);
    ReplacedValueChangesCanonical(le, es, i, inner);
  }

  lemma TwinSwap(le: Collation, es: seq<Entry>, i: nat, j: nat)
    requires CanArrive(Object(es)) && i < j < |es| && FreelyTied(le, es[i].key, es[j].key)
    ensures Twin(le, Object(es), Object(Swap(es, i, j)))
  {
    hide Canonical, EraseEntries;
    SwapKeepsMembers(es, i, j);
    SwapKeepsOrder(es, i, j);
    SameMembersErase(Swap(es, i, j), es);
    SwapChangesCanonical(le, es, i, j);
  }

  /** A body with freely tied keys somewhere has a twin. */
  lemma {:induction false} TiedTreeHasTwin(le: Collation, t: Tree) returns (twin: Tree)
    requires CanArrive(t) && !FreelySeparated(le, t)
    ensures Twin(le, t, twin)
    decreases t
  {
    hide Twin, FreelyTied, Enumerated;
    match t
    case Array(items) =>
      var i :| 0 <= i < |items| && !FreelySeparated(le, items[i]);
      var inner := TiedTreeHasTwin(le, items[i]);
      TwinItem(le, items, i, inner);
      twin := Array(items[i := inner]);
    case Object(es) =>
      if i :| 0 <= i < |es| && !FreelySeparated(le, es[i].value) {
        var inner := TiedTreeHasTwin(le, es[i].value);
        TwinValue(le, es, i, inner);
        twin := Object(es[i := Entry(es[i].key, inner)]);
      } else {
        var i, j :| 0 <= i < |es| && 0 <= j < |es| && i != j && FreelyTied(le, es[i].key, es[j].key);
        var a, b := if i < j then i else j, if i < j then j else i;
        FreeTiesAreMutual(le, es[i].key, es[j].key);
        TwinSwap(le, es, a, b);
        twin := Object(Swap(es, a, b));
      }
  }

  lemma FreeTiesAreMutual(le: Collation, k: string, l: string)
    ensures FreelyTied(le, k, l) <==> FreelyTied(le, l, k)
  {
  }

  lemma ReplacedValueChangesCanonical(le: Collation, es: seq<Entry>, i: nat, value: Tree)
    requires DistinctKeys(es) && i < |es| && Canonical(le, value) != Canonical(le, es[i].value)
    ensures Canonical(le, Object(es[i := Entry(es[i].key, value)])) != Canonical(le, Object(es))
  {
    hide SortByKey, CanonicalEntries, DistinctKeys;
    var fs := es[i := Entry(es[i].key, value)];
    var c, d := CanonicalEntries(le, es), CanonicalEntries(le, fs);
    ReplacedEntryIsNew(le, es, i, value);
    SortKeepsEntries(le, c);
    SortKeepsEntries(le, d);
  }

  lemma ReplacedEntryIsNew(le: Collation, es: seq<Entry>, i: nat, value: Tree)
    requires DistinctKeys(es) && i < |es| && Canonical(le, value) != Canonical(le, es[i].value)
    ensures var fs := es[i := Entry(es[i].key, value)];
      exists e :: e in CanonicalEntries(le, fs) && e !in CanonicalEntries(le, es)
  {
    hide Canonical;
    var d := CanonicalEntries(le, es[i := Entry(es[i].key, value)]);
    assert d[i] in d && d[i] !in CanonicalEntries(le, es);
  }

  /** The order of keys never shows in the text of a body exactly when the collation tells apart the keys of
      each of its objects that can arrive in either order. */
  lemma OrderNeverShowsIff(le: Collation, t: Tree)
    requires Total(le) && CanArrive(t)
    ensures FreelySeparated(le, t) <==>
      forall b | CanArrive(b) && Erase(b) == Erase(t) ::
        StableStringify.StableStringify(le, b) == StableStringify.StableStringify(le, t)
  {
    hide CanArrive, Erase, FreelySeparated, StableStringify.StableStringify, Canonical;
    if FreelySeparated(le, t) {
      forall b | CanArrive(b) && Erase(b) == Erase(t)
        ensures StableStringify.StableStringify(le, b) == StableStringify.StableStringify(le, t)
      {
        ArrivingTextIsCanonical(le, t, b);
      }
    } else {
      var twin := TiedTreeHasTwin(le, t);
      ArrivingIsWellFormed(le, t);
      ArrivingIsWellFormed(le, twin);
      if StableStringify.StableStringify(le, twin) == StableStringify.StableStringify(le, t) {
        StableTextDeterminesValue(le, twin, t);
      }
      assert CanArrive(twin) && StableStringify.StableStringify(le, twin) != StableStringify.StableStringify(le, t);
    }
  }
}
