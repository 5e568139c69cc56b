/** Canonical printing of request bodies: keys sorted at every depth, whatever order they arrived in. */
module StableStringify {
  import Json

  /** A parsed body with the keys of its objects in the order they were enumerated. */
  datatype Tree =
    | Null
    | Bool(b: bool)
    | Number(text: Json.NumberText)
    | String(s: string)
    | Array(items: seq<Tree>)
    | Object(entries: seq<Entry>)

  datatype Entry = Entry(key: string, value: Tree)

  /** Sorting never puts a key after one it collates before. */
  type Collation = (string, string) -> bool

  ghost predicate Total(le: Collation) {
    && (forall a, b :: le(a, b) || le(b, a))
    && (forall a, b, c | le(a, b) && le(b, c) :: le(a, c))
  }

  // ----- String literals, section 7 of RFC 8259 -----

  function Hex(n: nat): char
    requires n < 16
  {
    "0123456789abcdef"[n]
  }

  function EscapeChar(c: char): string {
    if c == '\"' then "\\\""
    else if c == '\\' then "\\\\"
    else if c == '\U{08}' then "\\b"
    else if c == '\U{0C}' then "\\f"
    else if c == '\n' then "\\n"
    else if c == '\r' then "\\r"
    else if c == '\t' then "\\t"
    else if c < ' ' then "\\u00" + [Hex(c as int / 16), Hex(c as int % 16)]
    else [c]
  }

  function Escape(s: string): string {
    if s == "" then "" else EscapeChar(s[0]) + Escape(s[1..])
  }

  function Quote(s: string): string {
    "\"" + Escape(s) + "\""
  }

  // ----- Sorting -----

  function Insert(le: Collation, e: Entry, sorted: seq<Entry>): (r: seq<Entry>)
    ensures multiset(r) == multiset{e} + multiset(sorted)
  {
    if sorted == [] || le(e.key, sorted[0].key) then [e] + sorted
    else
      assert sorted == [sorted[0]] + sorted[1..];
      [sorted[0]] + Insert(le, e, sorted[1..])
  }

  /** A stable sort by key. */
  function SortByKey(le: Collation, es: seq<Entry>): (r: seq<Entry>)
    ensures multiset(r) == multiset(es)
  {
    if es == [] then []
    else
      assert es == [es[0]] + es[1..];
      Insert(le, es[0], SortByKey(le, es[1..]))
  }

  lemma SortKeepsEntries(le: Collation, es: seq<Entry>)
    ensures forall e :: e in SortByKey(le, es) <==> e in es
    ensures |SortByKey(le, es)| == |es|
  {
    forall e ensures e in SortByKey(le, es) <==> e in es {
      assert e in SortByKey(le, es) <==> e in multiset(SortByKey(le, es));
      assert e in es <==> e in multiset(es);
    }
    assert |multiset(SortByKey(le, es))| == |SortByKey(le, es)| && |multiset(es)| == |es|;
  }

  // ----- Printing -----

  function PrimitiveText(t: Tree): string
    requires !t.Array? && !t.Object?
  {
    match t
    case Null => "null"
    case Bool(b) => if b then "true" else "false"
    case Number(text) => text
    case String(s) => Quote(s)
  }

  function StableStringify(le: Collation, t: Tree): string
    decreases t, 0
  {
    match t
    case Array(items) => "[" + StableItems(le, items) + "]"
    case Object(entries) =>
      SortKeepsEntries(le, entries);
      "{" + StableEntries(le, t, SortByKey(le, entries)) + "}"
    case _ => PrimitiveText(t)
  }

  function StableItems(le: Collation, items: seq<Tree>): string {
    if items == [] then ""
    else if |items| == 1 then StableStringify(le, items[0])
    else StableStringify(le, items[0]) + "," + StableItems(le, items[1..])
  }

  /** The entries of `whole` in the given order. */
  function StableEntries(le: Collation, whole: Tree, es: seq<Entry>): string
    requires whole.Object? && forall e | e in es :: e in whole.entries
    decreases whole, 0, |es|
  {
    if es == [] then ""
    else
      EntryBelow(whole, es[0]);
      var first := Quote(es[0].key) + ":" + StableStringify(le, es[0].value);
      if |es| == 1 then first else first + "," + StableEntries(le, whole, es[1..])
  }

  lemma EntryBelow(whole: Tree, e: Entry)
    requires whole.Object? && e in whole.entries
    ensures e.value < whole
  {
    var i :| 0 <= i < |whole.entries| && whole.entries[i] == e;
    assert whole.entries[i] < whole;
  }

  /** A tree printed as it stands, followed by `rest`. */
  function Put(t: Tree, rest: string): string
    decreases t
  {
    match t
    case Null => "null" + rest
    case Bool(b) => if b then "true" + rest else "false" + rest
    case Number(text) => text + rest
    case String(s) => "\"" + PutChars(s, rest)
    case Array(items) => "[" + PutItems(items, "]" + rest)
    case Object(entries) => "{" + PutEntries(entries, "}" + rest)
  }

  function PutChars(s: string, rest: string): string {
    if s == "" then "\"" + rest else EscapeChar(s[0]) + PutChars(s[1..], rest)
  }

  function PutItems(items: seq<Tree>, rest: string): string
    decreases items
  {
    if items == [] then rest
    else if |items| == 1 then Put(items[0], rest)
    else Put(items[0], "," + PutItems(items[1..], rest))
  }

  function PutEntries(es: seq<Entry>, rest: string): string
    decreases es
  {
    if es == [] then rest
    else if |es| == 1 then PutEntry(es[0], rest)
    else PutEntry(es[0], "," + PutEntries(es[1..], rest))
  }

  function PutEntry(e: Entry, rest: string): string
    decreases e
  {
    "\"" + PutChars(e.key, ":" + Put(e.value, rest))
  }

  /** The tree with the keys of every object sorted. */
  function Canonical(le: Collation, t: Tree): Tree
    decreases t, 1
  {
    match t
    case Array(items) => Array(seq(|items|, i requires 0 <= i < |items| => Canonical(le, items[i])))
    case Object(entries) => Object(SortByKey(le, CanonicalEntries(le, entries)))
    case _ => t
  }

  function CanonicalEntries(le: Collation, es: seq<Entry>): (r: seq<Entry>)
    ensures |r| == |es|
    ensures forall i | 0 <= i < |es| :: r[i] == Entry(es[i].key, Canonical(le, es[i].value))
    decreases es, 0
  {
    if es == [] then [] else [Entry(es[0].key, Canonical(le, es[0].value))] + CanonicalEntries(le, es[1..])
  }

  // ----- A printed tree can be read in one way only -----

  lemma HexIsInjective(m: nat, n: nat)
    requires m < 16 && n < 16 && Hex(m) == Hex(n)
    ensures m == n
  {
  }

  lemma EscapeCharIsPrefixFree(c: char, d: char, x: string, y: string)
    requires EscapeChar(c) + x == EscapeChar(d) + y
    ensures c == d && x == y
  {
    var a, b := EscapeChar(c), EscapeChar(d);
    var z := a + x;
    assert z[0] == a[0] == b[0];
    if a[0] == '\\' {
      assert z[1] == a[1] == b[1];
      if a[1] == 'u' {
        assert z[4] == a[4] == b[4] && z[5] == a[5] == b[5];
        HexIsInjective(c as int / 16, d as int / 16);
        HexIsInjective(c as int % 16, d as int % 16);
      }
    }
    assert c == d;
    assert z[|a|..] == x && z[|b|..] == y;
  }

  lemma EscapeCharStart(c: char)
    ensures EscapeChar(c) != "" && EscapeChar(c)[0] != '\"'
  {
  }

  lemma {:induction false} CharsAreUnique(s: string, t: string, x: string, y: string)
    requires PutChars(s, x) == PutChars(t, y)
    ensures s == t && x == y
  {
    hide EscapeChar;
    if s != "" { EscapeCharStart(s[0]); }
    if t != "" { EscapeCharStart(t[0]); }
    assert (PutChars(s, x)[0] == '\"') == (s == "");
    assert (PutChars(t, y)[0] == '\"') == (t == "");
    if s == "" {
      assert ("\"" + x)[1..] == x && ("\"" + y)[1..] == y;
    } else {
      EscapeCharIsPrefixFree(s[0], t[0], PutChars(s[1..], x), PutChars(t[1..], y));
      CharsAreUnique(s[1..], t[1..], x, y);
      assert s == [s[0]] + s[1..] && t == [t[0]] + t[1..];
    }
  }

  /** What may follow a value: the end of the text or a closing or separating character. */
  predicate Delimited(x: string) {
    x == "" || x[0] in ",]}"
  }

  function NumberPrefix(z: string): string {
    if z != "" && Json.IsNumberChar(z[0]) then [z[0]] + NumberPrefix(z[1..]) else ""
  }

  lemma {:induction false} NumberIsPrefix(a: string, x: string)
    requires (forall c | c in a :: Json.IsNumberChar(c)) && Delimited(x)
    ensures NumberPrefix(a + x) == a
  {
    if a == "" {
      assert a + x == x;
    } else {
      assert a[0] in a;
      assert (a + x)[1..] == a[1..] + x;
      NumberIsPrefix(a[1..], x);
    }
  }

  datatype Kind = N | T | F | Numeric | Quoted | List | Record | Other

  function KindOf(c: char): Kind {
    if c == 'n' then N else if c == 't' then T else if c == 'f' then F
    else if Json.IsNumberChar(c) then Numeric
    else if c == '\"' then Quoted else if c == '[' then List else if c == '{' then Record else Other
  }

  function KindOfTree(t: Tree): Kind {
    match t
    case Null => N
    case Bool(b) => if b then T else F
    case Number(_) => Numeric
    case String(_) => Quoted
    case Array(_) => List
    case Object(_) => Record
  }

  lemma MarksHaveKinds()
    ensures KindOf('n') == N && KindOf('t') == T && KindOf('f') == F
    ensures KindOf('\"') == Quoted && KindOf('[') == List && KindOf('{') == Record
  {
  }

  lemma NumbersHaveTheirKind(text: Json.NumberText)
    ensures KindOf(text[0]) == Numeric
  {
    assert text[0] in text;
  }

  lemma FirstCharacter(t: Tree, x: string)
    ensures Put(t, x) != "" && KindOf(Put(t, x)[0]) == KindOfTree(t)
  {
    hide KindOf, PutChars, PutItems, PutEntries;
    MarksHaveKinds();
    if t.Number? {
      NumbersHaveTheirKind(t.text);
      assert Put(t, x)[0] == t.text[0];
    }
  }

  lemma SameTail(a: string, b: string, c: char)
    requires [c] + a == [c] + b
    ensures a == b
  {
    assert ([c] + a)[1..] == a && ([c] + b)[1..] == b;
  }

  lemma SameRest(word: string, x: string, y: string)
    requires word + x == word + y
    ensures x == y
  {
    assert (word + x)[|word|..] == x && (word + y)[|word|..] == y;
  }

  /** Two trees that print alike, whatever follows them, are the same tree. */
  lemma {:induction false} PutIsUnique(a: Tree, b: Tree, x: string, y: string)
    requires Put(a, x) == Put(b, y) && Delimited(x) && Delimited(y)
    ensures a == b && x == y
    decreases a
  {
    FirstCharacter(a, x);
    FirstCharacter(b, y);
    assert KindOfTree(a) == KindOfTree(b);
    hide PutChars, PutItems, PutEntries, KindOf;
    match a
    case Null =>
      SameRest("null", x, y);
    case Bool(t) =>
      SameRest(if t then "true" else "false", x, y);
    case Number(text) =>
      NumberIsPrefix(text, x);
      NumberIsPrefix(b.text, y);
      SameRest(text, x, y);
    case String(s) =>
      SameTail(PutChars(s, x), PutChars(b.s, y), '\"');
      CharsAreUnique(s, b.s, x, y);
    case Array(items) =>
      SameTail(PutItems(items, "]" + x), PutItems(b.items, "]" + y), '[');
      ItemsAreUnique(items, b.items, x, y);
      SameTail(x, y, ']');
    case Object(entries) =>
      SameTail(PutEntries(entries, "}" + x), PutEntries(b.entries, "}" + y), '{');
      EntriesAreUnique(entries, b.entries, x, y);
      SameTail(x, y, '}');
  }

  function AfterItem(items: seq<Tree>, rest: string): string
    requires items != []
  {
    if |items| == 1 then rest else "," + PutItems(items[1..], rest)
  }

  function AfterEntry(es: seq<Entry>, rest: string): string
    requires es != []
  {
    if |es| == 1 then rest else "," + PutEntries(es[1..], rest)
  }

  lemma {:induction false} ItemsAreUnique(a: seq<Tree>, b: seq<Tree>, x: string, y: string)
    requires PutItems(a, "]" + x) == PutItems(b, "]" + y)
    ensures a == b && "]" + x == "]" + y
    decreases a
  {
    hide Put;
    if a != [] {
      FirstCharacter(a[0], AfterItem(a, "]" + x));
    }
    if b != [] {
      FirstCharacter(b[0], AfterItem(b, "]" + y));
    }
    assert (a == []) == (PutItems(a, "]" + x)[0] == ']');
    assert (b == []) == (PutItems(b, "]" + y)[0] == ']');
    if a != [] {
      PutIsUnique(a[0], b[0], AfterItem(a, "]" + x), AfterItem(b, "]" + y));
      assert (|a| == 1) == (AfterItem(a, "]" + x)[0] == ']');
      assert (|b| == 1) == (AfterItem(b, "]" + y)[0] == ']');
      if |a| > 1 {
        SameTail(PutItems(a[1..], "]" + x), PutItems(b[1..], "]" + y), ',');
        ItemsAreUnique(a[1..], b[1..], x, y);
        assert a == [a[0]] + a[1..] && b == [b[0]] + b[1..];
      }
    }
  }

  lemma {:induction false} EntryIsUnique(a: Entry, b: Entry, x: string, y: string)
    requires PutEntry(a, x) == PutEntry(b, y) && Delimited(x) && Delimited(y)
    ensures a == b && x == y
    decreases a
  {
    hide Put, PutChars;
    var p, q := ":" + Put(a.value, x), ":" + Put(b.value, y);
    SameTail(PutChars(a.key, p), PutChars(b.key, q), '\"');
    CharsAreUnique(a.key, b.key, p, q);
    SameTail(Put(a.value, x), Put(b.value, y), ':');
    PutIsUnique(a.value, b.value, x, y);
  }

  lemma {:induction false} EntriesAreUnique(a: seq<Entry>, b: seq<Entry>, x: string, y: string)
    requires PutEntries(a, "}" + x) == PutEntries(b, "}" + y)
    ensures a == b && "}" + x == "}" + y
    decreases a
  {
    hide Put, PutChars;
    assert (a == []) == (PutEntries(a, "}" + x)[0] == '}');
    assert (b == []) == (PutEntries(b, "}" + y)[0] == '}');
    if a != [] {
      EntryIsUnique(a[0], b[0], AfterEntry(a, "}" + x), AfterEntry(b, "}" + y));
      assert (|a| == 1) == (AfterEntry(a, "}" + x)[0] == '}');
      assert (|b| == 1) == (AfterEntry(b, "}" + y)[0] == '}');
      if |a| > 1 {
        SameTail(PutEntries(a[1..], "}" + x), PutEntries(b[1..], "}" + y), ',');
        EntriesAreUnique(a[1..], b[1..], x, y);
        assert a == [a[0]] + a[1..] && b == [b[0]] + b[1..];
      }
    }
  }

  // ----- The stable text is the canonical tree printed -----

  lemma {:induction false} EscapeIsPutChars(s: string, x: string)
    ensures Escape(s) + "\"" + x == PutChars(s, x)
  {
    if s != "" {
      EscapeIsPutChars(s[1..], x);
      assert Escape(s) + "\"" + x == EscapeChar(s[0]) + (Escape(s[1..]) + "\"" + x);
    }
  }

  lemma {:induction false} SortOnlyLooksAtKeys(le: Collation, es: seq<Entry>)
    ensures SortByKey(le, CanonicalEntries(le, es)) == CanonicalEntries(le, SortByKey(le, es))
  {
    if es != [] {
      assert CanonicalEntries(le, es)[1..] == CanonicalEntries(le, es[1..]);
      SortOnlyLooksAtKeys(le, es[1..]);
      InsertOnlyLooksAtKeys(le, es[0], SortByKey(le, es[1..]));
    }
  }

  lemma {:induction false} InsertOnlyLooksAtKeys(le: Collation, e: Entry, es: seq<Entry>)
    ensures Insert(le, Entry(e.key, Canonical(le, e.value)), CanonicalEntries(le, es))
      == CanonicalEntries(le, Insert(le, e, es))
  {
    hide Canonical;
    if es != [] && !le(e.key, es[0].key) {
      assert CanonicalEntries(le, es)[1..] == CanonicalEntries(le, es[1..]);
      InsertOnlyLooksAtKeys(le, e, es[1..]);
    }
  }

  lemma Reassociate(a: string, b: string, c: string, d: string)
    ensures (a + b + c) + d == a + (b + (c + d))
  {
  }

  lemma {:induction false} StableIsPut(le: Collation, t: Tree, x: string)
    ensures StableStringify(le, t) + x == Put(Canonical(le, t), x)
    decreases t, 0
  {
    hide Escape, PutChars, PutItems, PutEntries, StableItems, StableEntries, SortByKey;
    match t
    case String(s) =>
      EscapeIsPutChars(s, x);
      Reassociate("\"", Escape(s), "\"", x);
      Reassociate("", Escape(s), "\"", x);
    case Array(items) =>
      StableItemsArePut(le, items, "]" + x);
      Reassociate("[", StableItems(le, items), "]", x);
    case Object(entries) =>
      SortKeepsEntries(le, entries);
      var sorted := SortByKey(le, entries);
      StableEntriesArePut(le, t, sorted, "}" + x);
      SortOnlyLooksAtKeys(le, entries);
      Reassociate("{", StableEntries(le, t, sorted), "}", x);
    case _ =>
  }

  function CanonicalItems(le: Collation, items: seq<Tree>): seq<Tree> {
    seq(|items|, i requires 0 <= i < |items| => Canonical(le, items[i]))
  }

  lemma {:induction false} StableItemsArePut(le: Collation, items: seq<Tree>, x: string)
    ensures StableItems(le, items) + x == PutItems(CanonicalItems(le, items), x)
  {
    hide Put, StableStringify, Canonical;
    var c := CanonicalItems(le, items);
    if items == [] {
    } else if |items| == 1 {
      StableIsPut(le, items[0], x);
    } else {
      var rest := StableItems(le, items[1..]);
      StableItemsArePut(le, items[1..], x);
      assert c[1..] == CanonicalItems(le, items[1..]);
      StableIsPut(le, items[0], "," + PutItems(c[1..], x));
      Reassociate(StableStringify(le, items[0]), ",", rest, x);
    }
  }

  lemma EntryIsPut(key: string, text: string, value: Tree, y: string)
    requires text + y == Put(value, y)
    ensures Quote(key) + ":" + text + y == PutEntry(Entry(key, value), y)
  {
    hide Escape, PutChars, Put;
    EscapeIsPutChars(key, ":" + (text + y));
    assert Quote(key) + ":" + text + y == "\"" + (Escape(key) + "\"" + (":" + (text + y)));
  }

  lemma {:induction false} StableEntriesArePut(le: Collation, whole: Tree, es: seq<Entry>, x: string)
    requires whole.Object? && forall e | e in es :: e in whole.entries
    ensures StableEntries(le, whole, es) + x == PutEntries(CanonicalEntries(le, es), x)
    decreases whole, 0, |es|
  {
    hide Quote, PutChars, Put, PutEntry, StableStringify, Canonical;
    var c := CanonicalEntries(le, es);
    if es != [] {
      EntryBelow(whole, es[0]);
      var value := StableStringify(le, es[0].value);
      var y := if |es| == 1 then x else "," + PutEntries(c[1..], x);
      StableIsPut(le, es[0].value, y);
      EntryIsPut(es[0].key, value, c[0].value, y);
      if |es| > 1 {
        StableEntriesArePut(le, whole, es[1..], x);
        assert c[1..] == CanonicalEntries(le, es[1..]);
        Reassociate(Quote(es[0].key) + ":" + value, ",", StableEntries(le, whole, es[1..]), x);
      }
    }
  }

  // ----- Equal up to the order of keys -----

  predicate DistinctKeys(es: seq<Entry>) {
    forall i, j | 0 <= i < j < |es| :: es[i].key != es[j].key
  }

  /** As every parsed body is: no object has a key twice. */
  predicate WellFormed(t: Tree) {
    match t
    case Array(items) => forall i | 0 <= i < |items| :: WellFormed(items[i])
    case Object(entries) => DistinctKeys(entries) && forall i | 0 <= i < |entries| :: WellFormed(entries[i].value)
    case _ => true
  }

  predicate Tied(le: Collation, a: string, b: string) {
    le(a, b) && le(b, a)
  }

  predicate NoTies(le: Collation, es: seq<Entry>) {
    forall i, j | 0 <= i < |es| && 0 <= j < |es| && i != j :: !Tied(le, es[i].key, es[j].key)
  }

  /** No object has two keys that the collation holds equal. */
  predicate Separated(le: Collation, t: Tree) {
    match t
    case Array(items) => forall i | 0 <= i < |items| :: Separated(le, items[i])
    case Object(entries) => NoTies(le, entries) && forall i | 0 <= i < |entries| :: Separated(le, entries[i].value)
    case _ => true
  }

  /** The value without the order of its keys: two trees are equal up to key order when these are equal. */
  function Erase(t: Tree): Json.Json {
    match t
    case Null => Json.Null
    case Bool(b) => Json.Bool(b)
    case Number(text) => Json.Number(text)
    case String(s) => Json.String(s)
    case Array(items) => Json.Array(seq(|items|, i requires 0 <= i < |items| => Erase(items[i])))
    case Object(entries) => Json.Object(EraseEntries(entries))
  }

  function EraseEntries(es: seq<Entry>): map<string, Json.Json> {
    if es == [] then map[] else EraseEntries(es[1..])[es[0].key := Erase(es[0].value)]
  }

  lemma {:induction false} EraseLookup(es: seq<Entry>)
    requires DistinctKeys(es)
    ensures forall k :: k in EraseEntries(es) <==> exists i :: 0 <= i < |es| && es[i].key == k
    ensures forall i | 0 <= i < |es| ::
      es[i].key in EraseEntries(es) && EraseEntries(es)[es[i].key] == Erase(es[i].value)
  {
    hide Erase;
    if es != [] {
      var rest := es[1..];
      assert forall i | 0 <= i < |rest| :: rest[i] == es[i + 1];
      EraseLookup(rest);
      forall i | 0 <= i < |es|
        ensures es[i].key in EraseEntries(es) && EraseEntries(es)[es[i].key] == Erase(es[i].value)
      {
        if i > 0 {
          assert rest[i - 1] == es[i];
        }
      }
    }
  }

  predicate Ordered(le: Collation, es: seq<Entry>) {
    forall i, j | 0 <= i < j < |es| :: le(es[i].key, es[j].key)
  }

  lemma {:induction false} InsertOrders(le: Collation, e: Entry, es: seq<Entry>)
    requires Total(le) && Ordered(le, es)
    ensures Ordered(le, Insert(le, e, es))
    ensures forall x :: x in Insert(le, e, es) <==> x == e || x in es
  {
    if es != [] && !le(e.key, es[0].key) {
      InsertOrders(le, e, es[1..]);
      var r := Insert(le, e, es[1..]);
      assert forall x | x in r :: le(es[0].key, x.key);
      assert es == [es[0]] + es[1..];
    }
  }

  lemma {:induction false} SortOrders(le: Collation, es: seq<Entry>)
    requires Total(le)
    ensures Ordered(le, SortByKey(le, es))
  {
    if es != [] {
      SortOrders(le, es[1..]);
      InsertOrders(le, es[0], SortByKey(le, es[1..]));
    }
  }

  lemma {:induction false} InsertKeepsDistinct(le: Collation, e: Entry, es: seq<Entry>)
    requires DistinctKeys(es) && forall x | x in es :: x.key != e.key
    ensures DistinctKeys(Insert(le, e, es))
    ensures forall x :: x in Insert(le, e, es) <==> x == e || x in es
  {
    if es != [] && !le(e.key, es[0].key) {
      InsertKeepsDistinct(le, e, es[1..]);
      assert forall x | x in Insert(le, e, es[1..]) :: x.key != es[0].key;
      assert es == [es[0]] + es[1..];
    }
  }

  lemma {:induction false} SortKeepsDistinct(le: Collation, es: seq<Entry>)
    requires DistinctKeys(es)
    ensures DistinctKeys(SortByKey(le, es))
  {
    if es != [] {
      SortKeepsDistinct(le, es[1..]);
      SortKeepsEntries(le, es[1..]);
      InsertKeepsDistinct(le, es[0], SortByKey(le, es[1..]));
    }
  }

  lemma {:induction false} SortedIsUnique(le: Collation, xs: seq<Entry>, ys: seq<Entry>)
    requires Ordered(le, xs) && Ordered(le, ys) && DistinctKeys(xs) && DistinctKeys(ys) && NoTies(le, xs)
    requires forall e :: e in xs <==> e in ys
    ensures xs == ys
  {
    if xs == [] {
      assert forall i | 0 <= i < |ys| :: ys[i] in ys;
    } else {
      assert xs[0] in xs;
      var j :| 0 <= j < |ys| && ys[j] == xs[0];
      assert ys[0] in ys;
      var i :| 0 <= i < |xs| && xs[i] == ys[0];
      if i != 0 && j != 0 {
        assert Tied(le, xs[0].key, xs[i].key);
      }
      assert xs[0] == ys[0];
      assert xs == [xs[0]] + xs[1..] && ys == [ys[0]] + ys[1..];
      assert xs[0] !in xs[1..] && ys[0] !in ys[1..];
      forall e ensures e in xs[1..] <==> e in ys[1..] {
        assert e in xs <==> e == xs[0] || e in xs[1..];
        assert e in ys <==> e == ys[0] || e in ys[1..];
      }
      SortedIsUnique(le, xs[1..], ys[1..]);
    }
  }

  /** Sorting changes nothing but the order of keys. */
  lemma {:induction false} CanonicalErases(le: Collation, t: Tree)
    requires WellFormed(t)
    ensures Erase(Canonical(le, t)) == Erase(t)
  {
    match t
    case Array(items) =>
      forall i | 0 <= i < |items|
        ensures Erase(Canonical(le, items[i])) == Erase(items[i])
      {
        CanonicalErases(le, items[i]);
      }
    case Object(entries) =>
      forall i | 0 <= i < |entries|
        ensures Erase(Canonical(le, entries[i].value)) == Erase(entries[i].value)
      {
        CanonicalErases(le, entries[i].value);
      }
      CanonicalEntriesErase(le, entries);
    case _ =>
  }

  lemma {:induction false} CanonicalEntriesErase(le: Collation, es: seq<Entry>)
    requires DistinctKeys(es)
    requires forall i | 0 <= i < |es| :: Erase(Canonical(le, es[i].value)) == Erase(es[i].value)
    ensures EraseEntries(SortByKey(le, CanonicalEntries(le, es))) == EraseEntries(es)
  {
    hide Erase, Canonical, EraseEntries, SortByKey;
    var c := CanonicalEntries(le, es);
    SortKeepsEntries(le, c);
    SortKeepsDistinct(le, c);
    SameMembersErase(SortByKey(le, c), c);
    SameErasedValues(c, es);
  }

  lemma {:induction false} SameErasedValues(xs: seq<Entry>, ys: seq<Entry>)
    requires |xs| == |ys|
    requires forall i | 0 <= i < |xs| :: xs[i].key == ys[i].key && Erase(xs[i].value) == Erase(ys[i].value)
    ensures EraseEntries(xs) == EraseEntries(ys)
  {
    hide Erase;
    if xs != [] {
      SameErasedValues(xs[1..], ys[1..]);
    }
  }

  lemma EraseHas(es: seq<Entry>, e: Entry)
    requires DistinctKeys(es) && e in es
    ensures e.key in EraseEntries(es) && EraseEntries(es)[e.key] == Erase(e.value)
  {
    hide Erase, EraseEntries;
    EraseLookup(es);
  }

  lemma EraseOnlyHas(es: seq<Entry>, k: string) returns (e: Entry)
    requires DistinctKeys(es) && k in EraseEntries(es)
    ensures e in es && e.key == k && EraseEntries(es)[k] == Erase(e.value)
  {
    hide Erase, EraseEntries;
    EraseLookup(es);
    var i :| 0 <= i < |es| && es[i].key == k;
    e := es[i];
  }

  lemma SameMembersErase(xs: seq<Entry>, ys: seq<Entry>)
    requires DistinctKeys(xs) && DistinctKeys(ys) && forall e :: e in xs <==> e in ys
    ensures EraseEntries(xs) == EraseEntries(ys)
  {
    hide Erase, EraseEntries, DistinctKeys;
    var a, b := EraseEntries(xs), EraseEntries(ys);
    forall k | k in a
      ensures k in b && a[k] == b[k]
    {
      var e := EraseOnlyHas(xs, k);
      EraseHas(ys, e);
    }
    forall k | k in b
      ensures k in a
    {
      var e := EraseOnlyHas(ys, k);
      EraseHas(xs, e);
    }
  }

  /** Trees that are equal up to key order have the same canonical tree. */
  lemma {:induction false} EraseDeterminesCanonical(le: Collation, a: Tree, b: Tree)
    requires Total(le) && WellFormed(a) && WellFormed(b) && Separated(le, a) && Erase(a) == Erase(b)
    ensures Canonical(le, a) == Canonical(le, b)
  {
    match a
    case Array(items) =>
      var x, y := Erase(a).items, Erase(b).items;
      assert |items| == |x| == |y| == |b.items|;
      forall i | 0 <= i < |items|
        ensures Canonical(le, items[i]) == Canonical(le, b.items[i])
      {
        assert x[i] == y[i];
        EraseDeterminesCanonical(le, items[i], b.items[i]);
      }
    case Object(es) =>
      var fs := b.entries;
      assert EraseEntries(es) == EraseEntries(fs);
      forall i, j | 0 <= i < |es| && 0 <= j < |fs| && es[i].key == fs[j].key
        ensures Canonical(le, es[i].value) == Canonical(le, fs[j].value)
      {
        EraseLookup(es);
        EraseLookup(fs);
        EraseDeterminesCanonical(le, es[i].value, fs[j].value);
      }
      SameCanonicalEntries(le, es, fs);
    case _ =>
  }

  lemma SameCanonicalEntries(le: Collation, es: seq<Entry>, fs: seq<Entry>)
    requires Total(le) && DistinctKeys(es) && DistinctKeys(fs) && NoTies(le, es) && EraseEntries(es) == EraseEntries(fs)
    requires forall i, j | 0 <= i < |es| && 0 <= j < |fs| && es[i].key == fs[j].key ::
      Canonical(le, es[i].value) == Canonical(le, fs[j].value)
    ensures SortByKey(le, CanonicalEntries(le, es)) == SortByKey(le, CanonicalEntries(le, fs))
  {
    hide Erase, Canonical, EraseEntries, SortByKey;
    var c, d := CanonicalEntries(le, es), CanonicalEntries(le, fs);
    CanonicalMembersFollow(le, es, fs);
    CanonicalMembersFollow(le, fs, es);
    SortKeepsEntries(le, c);
    SortKeepsEntries(le, d);
    SortKeepsDistinct(le, c);
    SortKeepsDistinct(le, d);
    SortOrders(le, c);
    SortOrders(le, d);
    NoTiesAfterSort(le, c);
    SortedIsUnique(le, SortByKey(le, c), SortByKey(le, d));
  }

  lemma CanonicalMembersFollow(le: Collation, es: seq<Entry>, fs: seq<Entry>)
    requires DistinctKeys(es) && DistinctKeys(fs) && EraseEntries(es) == EraseEntries(fs)
    requires forall i, j | 0 <= i < |es| && 0 <= j < |fs| && es[i].key == fs[j].key ::
      Canonical(le, es[i].value) == Canonical(le, fs[j].value)
    ensures forall e | e in CanonicalEntries(le, es) :: e in CanonicalEntries(le, fs)
  {
    hide Erase, Canonical, EraseEntries, DistinctKeys;
    var c, d := CanonicalEntries(le, es), CanonicalEntries(le, fs);
    forall e | e in c
      ensures e in d
    {
      var i :| 0 <= i < |c| && c[i] == e;
      EraseHas(es, es[i]);
      var f := EraseOnlyHas(fs, es[i].key);
      var j :| 0 <= j < |fs| && fs[j] == f;
      assert d[j] == e;
    }
  }

  lemma NoTiesAfterSort(le: Collation, es: seq<Entry>)
    requires DistinctKeys(es) && NoTies(le, es)
    ensures NoTies(le, SortByKey(le, es))
  {
    hide SortByKey;
    var r := SortByKey(le, es);
    SortKeepsEntries(le, es);
    SortKeepsDistinct(le, es);
    forall i, j | 0 <= i < |r| && 0 <= j < |r| && i != j
      ensures !Tied(le, r[i].key, r[j].key)
    {
      assert r[i] in es && r[j] in es;
      var a :| 0 <= a < |es| && es[a] == r[i];
      var b :| 0 <= b < |es| && es[b] == r[j];
      assert r[i].key != r[j].key;
    }
  }

  /** The stable text determines the tree up to key order, always. */
  lemma StableTextDeterminesValue(le: Collation, a: Tree, b: Tree)
    requires WellFormed(a) && WellFormed(b) && StableStringify(le, a) == StableStringify(le, b)
    ensures Erase(a) == Erase(b) && Canonical(le, a) == Canonical(le, b)
  {
    StableIsPut(le, a, "");
    StableIsPut(le, b, "");
    assert StableStringify(le, a) + "" == StableStringify(le, b) + "";
    PutIsUnique(Canonical(le, a), Canonical(le, b), "", "");
    CanonicalErases(le, a);
    CanonicalErases(le, b);
  }

  /** Two bodies print equally exactly when they are equal up to the order of keys at every depth,
      provided the collation tells the keys of each object apart. */
  lemma StableStringifyIsCanonical(le: Collation, a: Tree, b: Tree)
    requires Total(le) && WellFormed(a) && WellFormed(b) && Separated(le, a)
    ensures StableStringify(le, a) == StableStringify(le, b) <==> Erase(a) == Erase(b)
  {
    if StableStringify(le, a) == StableStringify(le, b) {
      StableTextDeterminesValue(le, a, b);
    }
    if Erase(a) == Erase(b) {
      EraseDeterminesCanonical(le, a, b);
      StableIsPut(le, a, "");
      StableIsPut(le, b, "");
      assert StableStringify(le, a) == StableStringify(le, a) + "";
      assert StableStringify(le, b) + "" == StableStringify(le, b);
    }
  }
}
