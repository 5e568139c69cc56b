/** A reader of JSON texts without white space, after sections 2 to 7 of RFC 8259, and the proof that it reads every
    printed body back. */
module JsonReader {
  import Json
  import opened StableStringify

  // ----- Strings -----

  function HexValue(c: char): (v: Json.Option<nat>)
    ensures v.Some? ==> v.value < 16
  {
    if '0' <= c <= '9' then Json.Some((c - '0') as nat)
    else if 'a' <= c <= 'f' then Json.Some((c - 'a') as nat + 10)
    else if 'A' <= c <= 'F' then Json.Some((c - 'A') as nat + 10)
    else Json.None
  }

  /** Four hexadecimal digits, unless they name a surrogate. */
  function ReadHex(s: string): Json.Option<char>
    requires |s| == 4
  {
    var a, b, c, d := HexValue(s[0]), HexValue(s[1]), HexValue(s[2]), HexValue(s[3]);
    if a.None? || b.None? || c.None? || d.None? then Json.None
    else
      var code := ((a.value * 16 + b.value) * 16 + c.value) * 16 + d.value;
      if code < 0xD800 || code > 0xDFFF then Json.Some(code as char) else Json.None
  }

  /** What a single character behind a backslash stands for. */
  function Unescaped(c: char): Json.Option<char> {
    match c
    case '\"' => Json.Some('\U{22}')
    case '\\' => Json.Some('\U{5C}')
    case '/' => Json.Some('\U{2F}')
    case 'b' => Json.Some('\U{08}')
    case 'f' => Json.Some('\U{0C}')
    case 'n' => Json.Some('\U{0A}')
    case 'r' => Json.Some('\U{0D}')
    case 't' => Json.Some('\U{09}')
    case _ => Json.None
  }

  /** The characters up to the closing quotation mark, and the text behind it. */
  function ReadChars(s: string): (r: Json.Option<(string, string)>)
    ensures r.Some? ==> |r.value.1| < |s|
  {
    if s == "" || s[0] < '\U{20}' then Json.None
    else if s[0] == '\"' then Json.Some(("", s[1..]))
    else if s[0] != '\\' then More(s[0], ReadChars(s[1..]))
    else if |s| >= 2 && Unescaped(s[1]).Some? then More(Unescaped(s[1]).value, ReadChars(s[2..]))
    else if |s| >= 6 && s[1] == 'u' && ReadHex(s[2..6]).Some? then More(ReadHex(s[2..6]).value, ReadChars(s[6..]))
    else Json.None
  }

  function More(c: char, r: Json.Option<(string, string)>): Json.Option<(string, string)> {
    match r
    case None => Json.None
    case Some((chars, rest)) => Json.Some(([c] + chars, rest))
  }

  // ----- Values -----

  function ReadNumber(s: string): (n: string)
    ensures n <= s && forall c | c in n :: Json.IsNumberChar(c)
  {
    if s != "" && Json.IsNumberChar(s[0]) then [s[0]] + ReadNumber(s[1..]) else ""
  }

  function ReadValue(s: string): (r: Json.Option<(Tree, string)>)
    ensures r.Some? ==> |r.value.1| < |s|
    decreases |s|, 0
  {
    if "null" <= s then Json.Some((Null, s[4..]))
    else if "true" <= s then Json.Some((Bool(true), s[4..]))
    else if "false" <= s then Json.Some((Bool(false), s[5..]))
    else if "\"" <= s then
      match ReadChars(s[1..])
      case None => Json.None
      case Some((chars, rest)) => Json.Some((String(chars), rest))
    else if "[]" <= s then Json.Some((Array([]), s[2..]))
    else if "[" <= s then
      match ReadItems(s[1..])
      case None => Json.None
      case Some((items, rest)) => Json.Some((Array(items), rest))
    else if "{}" <= s then Json.Some((Object([]), s[2..]))
    else if "{" <= s then
      match ReadEntries(s[1..])
      case None => Json.None
      case Some((entries, rest)) => Json.Some((Object(entries), rest))
    else
      var n := ReadNumber(s);
      if n == "" then Json.None else Json.Some((Number(n), s[|n|..]))
  }

  function ReadItems(s: string): (r: Json.Option<(seq<Tree>, string)>)
    ensures r.Some? ==> |r.value.1| < |s|
    decreases |s|, 1
  {
    match ReadValue(s)
    case None => Json.None
    case Some((item, rest)) =>
      if "]" <= rest then Json.Some(([item], rest[1..]))
      else if "," <= rest then
        match ReadItems(rest[1..])
        case None => Json.None
        case Some((items, end)) => Json.Some(([item] + items, end))
      else Json.None
  }

  function ReadEntries(s: string): (r: Json.Option<(seq<Entry>, string)>)
    ensures r.Some? ==> |r.value.1| < |s|
    decreases |s|, 1
  {
    match ReadEntry(s)
    case None => Json.None
    case Some((entry, rest)) =>
      if "}" <= rest then Json.Some(([entry], rest[1..]))
      else if "," <= rest then
        match ReadEntries(rest[1..])
        case None => Json.None
        case Some((entries, end)) => Json.Some(([entry] + entries, end))
      else Json.None
  }

  function ReadEntry(s: string): (r: Json.Option<(Entry, string)>)
    ensures r.Some? ==> |r.value.1| < |s|
    decreases |s|, 0
  {
    if !("\"" <= s) then Json.None
    else
      match ReadChars(s[1..])
      case None => Json.None
      case Some((key, rest)) =>
        if !(":" <= rest) then Json.None
        else
          match ReadValue(rest[1..])
          case None => Json.None
          case Some((value, end)) => Json.Some((Entry(key, value), end))
  }

  // ----- What is printed is read back -----

  lemma ReadsEscape(c: char, x: string)
    ensures ReadChars(EscapeChar(c) + x) == More(c, ReadChars(x))
  {
    hide ReadChars, ReadHex, More, Hex;
    var e := EscapeChar(c);
    if e == [c] {
      ReadsPlain(c, x);
    } else if |e| == 2 {
      assert e == "\\" + [e[1]];
      ReadsShort(e[1], x);
    } else {
      ReadsUnicode(c, x);
    }
  }

  lemma ReadsPlain(c: char, x: string)
    requires c >= ' ' && c != '\"' && c != '\\'
    ensures ReadChars([c] + x) == More(c, ReadChars(x))
  {
    hide ReadHex, Unescaped, More;
    assert ([c] + x)[0] == c && ([c] + x)[1..] == x;
  }

  lemma ReadsShort(mark: char, x: string)
    requires Unescaped(mark).Some?
    ensures ReadChars("\\" + [mark] + x) == More(Unescaped(mark).value, ReadChars(x))
  {
    hide ReadHex, Unescaped, More;
    var z := "\\" + [mark] + x;
    assert z[0] == '\\' && z[1] == mark && z[2..] == x;
  }

  lemma ReadsUnicode(c: char, x: string)
    requires c < ' '
    ensures ReadChars("\\u00" + [Hex(c as int / 16), Hex(c as int % 16)] + x) == More(c, ReadChars(x))
  {
    hide Hex, ReadHex;
    var digits := "00" + [Hex(c as int / 16), Hex(c as int % 16)];
    var z := "\\u" + digits + x;
    assert z == "\\u00" + [Hex(c as int / 16), Hex(c as int % 16)] + x;
    assert z[0] == '\\' && z[1] == 'u' && z[2..6] == digits && z[6..] == x;
    ReadsHex(c);
  }

  lemma ReadsHex(c: char)
    requires c < ' '
    ensures ReadHex("00" + [Hex(c as int / 16), Hex(c as int % 16)]) == Json.Some(c)
  {
    ReadsHexDigit(c as int / 16);
    ReadsHexDigit(c as int % 16);
  }

  lemma ReadsHexDigit(n: nat)
    requires n < 16
    ensures HexValue(Hex(n)) == Json.Some(n)
  {
  }

  lemma {:induction false} ReadsChars(s: string, x: string)
    ensures ReadChars(PutChars(s, x)) == Json.Some((s, x))
  {
    hide EscapeChar;
    if s == "" {
      assert ("\"" + x)[1..] == x;
    } else {
      ReadsChars(s[1..], x);
      ReadsEscape(s[0], PutChars(s[1..], x));
      assert [s[0]] + s[1..] == s;
    }
  }

  lemma {:induction false} ReadsNumber(a: string, x: string)
    requires (forall c | c in a :: Json.IsNumberChar(c)) && Delimited(x)
    ensures ReadNumber(a + x) == a
  {
    if a == "" {
      assert a + x == x;
    } else {
      assert a[0] in a && (a + x)[1..] == a[1..] + x;
      ReadsNumber(a[1..], x);
    }
  }

  /** Only the first character decides which kind of value is read. */
  lemma StartsWith(word: string, s: string)
    requires word != ""
    ensures word <= s ==> s != "" && s[0] == word[0]
    ensures word <= word + s && (word + s)[|word|..] == s
  {
  }

  lemma ReadsWords(b: bool, x: string)
    ensures ReadValue("null" + x) == Json.Some((Null, x))
    ensures ReadValue((if b then "true" else "false") + x) == Json.Some((Bool(b), x))
  {
    hide ReadItems, ReadEntries, ReadChars, ReadNumber;
    StartsWith("null", x);
    var word := if b then "true" else "false";
    StartsWith(word, x);
    assert (word + x)[0] == word[0] != 'n';
    assert !("null" <= word + x);
    assert !b ==> !("true" <= word + x);
  }

  lemma ReadsNumeric(text: Json.NumberText, x: string)
    requires Delimited(x)
    ensures ReadValue(text + x) == Json.Some((Number(text), x))
  {
    hide ReadItems, ReadEntries, ReadChars, ReadNumber, Json.IsNumberChar;
    var s := text + x;
    assert text[0] in text && s[0] == text[0];
    NumberStart(s[0]);
    ReadsNumber(text, x);
    assert s[|text|..] == x;
  }

  lemma NumberStart(c: char)
    requires Json.IsNumberChar(c)
    ensures c != 'n' && c != 't' && c != 'f' && c != '\"' && c != '[' && c != '{'
  {
  }

  /** Behind an opening mark the right reader takes over. */
  lemma ReadsMarks(s: string)
    ensures match ReadChars(s)
      case None => true
      case Some((chars, rest)) => ReadValue("\"" + s) == Json.Some((String(chars), rest))
    ensures ReadValue("[" + ("]" + s)) == Json.Some((Array([]), s))
    ensures ReadValue("{" + ("}" + s)) == Json.Some((Object([]), s))
  {
    hide ReadItems, ReadEntries, ReadChars, ReadNumber;
    assert ("\"" + s)[1..] == s && ("\"" + s)[0] == '\"';
    var list, record := "[" + ("]" + s), "{" + ("}" + s);
    assert list == "[]" + s && record == "{}" + s;
    assert list[0] == '[' && record[0] == '{' && list[2..] == s && record[2..] == s;
  }

  lemma ReadsOpened(s: string)
    requires s != ""
    ensures s[0] != ']' && ReadItems(s).Some? ==>
      ReadValue("[" + s) == Json.Some((Array(ReadItems(s).value.0), ReadItems(s).value.1))
    ensures s[0] != '}' && ReadEntries(s).Some? ==>
      ReadValue("{" + s) == Json.Some((Object(ReadEntries(s).value.0), ReadEntries(s).value.1))
  {
    hide ReadItems, ReadEntries, ReadChars, ReadNumber;
    var list, record := "[" + s, "{" + s;
    assert list[1..] == s && record[1..] == s && list[1] == s[0] && record[1] == s[0];
    assert list[0] == '[' && record[0] == '{';
  }

  /** A printed value is read back, whatever follows it. */
  lemma {:induction false} ReadsValue(t: Tree, x: string)
    requires Delimited(x)
    ensures ReadValue(Put(t, x)) == Json.Some((t, x))
    decreases t, 0
  {
    hide PutChars, PutItems, PutEntries, ReadItems, ReadEntries, ReadChars, ReadValue;
    match t
    case Null => ReadsWords(true, x);
    case Bool(b) => ReadsWords(b, x);
    case Number(text) => ReadsNumeric(text, x);
    case String(chars) =>
      ReadsChars(chars, x);
      ReadsMarks(PutChars(chars, x));
    case Array(items) =>
      if items == [] {
        NothingPut("]" + x);
        ReadsMarks(x);
      } else {
        ItemsStart(items, "]" + x);
        ReadsItems(items, x);
        ReadsOpened(PutItems(items, "]" + x));
      }
    case Object(entries) =>
      if entries == [] {
        NothingPut("}" + x);
        ReadsMarks(x);
      } else {
        EntriesStart(entries, "}" + x);
        ReadsEntries(entries, x);
        ReadsOpened(PutEntries(entries, "}" + x));
      }
  }

  lemma NothingPut(x: string)
    ensures PutItems([], x) == x && PutEntries([], x) == x
  {
  }

  lemma ItemsStart(items: seq<Tree>, x: string)
    requires items != []
    ensures PutItems(items, x) != "" && PutItems(items, x)[0] != ']'
  {
    hide Put;
    FirstCharacter(items[0], if |items| == 1 then x else "," + PutItems(items[1..], x));
    assert KindOf(']') == Other;
  }

  lemma EntriesStart(es: seq<Entry>, x: string)
    requires es != []
    ensures PutEntries(es, x) != "" && PutEntries(es, x)[0] == '\"'
  {
  }

  lemma {:induction false} ReadsItems(items: seq<Tree>, x: string)
    requires items != []
    ensures ReadItems(PutItems(items, "]" + x)) == Json.Some((items, x))
    decreases items, 1
  {
    hide Put, ReadValue;
    if |items| == 1 {
      ReadsValue(items[0], "]" + x);
      assert ("]" + x)[1..] == x && [items[0]] == items;
    } else {
      var more := PutItems(items[1..], "]" + x);
      ReadsValue(items[0], "," + more);
      ReadsItems(items[1..], x);
      assert ("," + more)[1..] == more && [items[0]] + items[1..] == items;
    }
  }

  lemma ReadsEntry(e: Entry, x: string)
    requires Delimited(x)
    ensures ReadEntry(PutEntry(e, x)) == Json.Some((e, x))
    decreases e, 1
  {
    hide Put, ReadValue, ReadChars, PutChars;
    var s := PutEntry(e, x);
    var value := Put(e.value, x);
    assert s[1..] == PutChars(e.key, ":" + value);
    ReadsChars(e.key, ":" + value);
    assert (":" + value)[1..] == value;
    ReadsValue(e.value, x);
  }

  lemma {:induction false} ReadsEntries(es: seq<Entry>, x: string)
    requires es != []
    ensures ReadEntries(PutEntries(es, "}" + x)) == Json.Some((es, x))
    decreases es, 2
  {
    hide PutEntry, ReadEntry;
    if |es| == 1 {
      ReadsEntry(es[0], "}" + x);
      assert ("}" + x)[1..] == x && [es[0]] == es;
    } else {
      var more := PutEntries(es[1..], "}" + x);
      ReadsEntry(es[0], "," + more);
      ReadsEntries(es[1..], x);
      assert ("," + more)[1..] == more && [es[0]] + es[1..] == es;
    }
  }

  /** The stable text of a body is a JSON text, and what it says is the body, up to the order of keys. */
  lemma StableTextReadsBack(le: Collation, t: Tree)
    requires WellFormed(t)
    ensures var r := ReadValue(StableStringify.StableStringify(le, t));
      r.Some? && r.value.1 == "" && Erase(r.value.0) == Erase(t)
  {
    hide ReadValue, Erase;
    StableIsPut(le, t, "");
    assert StableStringify.StableStringify(le, t) + "" == StableStringify.StableStringify(le, t);
    ReadsValue(Canonical(le, t), "");
    CanonicalErases(le, t);
  }
}
