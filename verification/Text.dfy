/** String operations of the platform that several services use. */
module Text {

  predicate IsSpace(c: char) {
    c in "\t\n\U{0B}\U{0C}\r \U{A0}\U{1680}\U{2028}\U{2029}\U{202F}\U{205F}\U{3000}\U{FEFF}"
    || '\U{2000}' <= c <= '\U{200A}'
  }

  /** By code point: the white space and line terminators of ECMAScript. */
  lemma SpaceIff(c: char)
    ensures IsSpace(c) <==>
      || 9 <= c as int <= 13 || c as int == 0x20 || c as int == 0xA0 || c as int == 0x1680
      || 0x2000 <= c as int <= 0x200A || 0x2028 <= c as int <= 0x2029 || c as int == 0x202F || c as int == 0x205F
      || c as int == 0x3000 || c as int == 0xFEFF
  {
  }

  function Trim(s: string): string {
    if s != [] && IsSpace(s[0]) then Trim(s[1..])
    else if s != [] && IsSpace(s[|s| - 1]) then Trim(s[..|s| - 1])
    else s
  }

  lemma TrimKeeps(s: string)
    requires s != "" && !IsSpace(s[0]) && !IsSpace(s[|s| - 1])
    ensures Trim(s) == s
  {
  }

  predicate Blank(s: string) {
    forall c | c in s :: IsSpace(c)
  }

  /** The text neither starts nor ends with white space. */
  predicate Tight(s: string) {
    s == "" || (!IsSpace(s[0]) && !IsSpace(s[|s| - 1]))
  }

  lemma {:induction false} TrimDropsBlanks(a: string, t: string, b: string)
    requires Blank(a) && Tight(t) && Blank(b)
    ensures Trim(a + t + b) == t
    decreases |a| + |b|
  {
    hide IsSpace;
    var s := a + t + b;
    if a != "" {
      assert s[0] == a[0] && s[1..] == a[1..] + t + b;
      TrimDropsBlanks(a[1..], t, b);
    } else if t == "" {
      assert s == b;
      if b != "" {
        assert b[1..] == a + t + b[1..];
        TrimDropsBlanks(a, t, b[1..]);
      }
    } else if b != "" {
      var init := b[..|b| - 1];
      assert s[|s| - 1] == b[|b| - 1] && s[0] == t[0] && s[..|s| - 1] == a + t + init;
      TrimDropsBlanks(a, t, init);
    } else {
      assert s == t;
    }
  }

  lemma {:induction false} TrimLeavesBlanks(s: string) returns (a: string, b: string)
    ensures Blank(a) && Tight(Trim(s)) && Blank(b) && s == a + Trim(s) + b
  {
    hide IsSpace, Blank, Tight;
    if s != "" && IsSpace(s[0]) {
      var rest := s[1..];
      a, b := TrimLeavesBlanks(rest);
      BlanksJoin([s[0]], a);
      assert s == [s[0]] + rest == ([s[0]] + a) + Trim(rest) + b;
      a := [s[0]] + a;
    } else if s != "" && IsSpace(s[|s| - 1]) {
      var init := s[..|s| - 1];
      a, b := TrimLeavesBlanks(init);
      BlanksJoin(b, [s[|s| - 1]]);
      assert s == init + [s[|s| - 1]] == a + Trim(init) + (b + [s[|s| - 1]]);
      b := b + [s[|s| - 1]];
    } else {
      a, b := "", "";
      BlanksJoin("", "");
      TightAsItIs(s);
    }
  }

  lemma TightAsItIs(s: string)
    requires s == "" || (!IsSpace(s[0]) && !IsSpace(s[|s| - 1]))
    ensures Trim(s) == s && Tight(s)
  {
    hide IsSpace;
  }

  lemma BlanksJoin(a: string, b: string)
    ensures Blank("")
    ensures (Blank(a) || (|a| == 1 && IsSpace(a[0]))) && (Blank(b) || (|b| == 1 && IsSpace(b[0]))) ==> Blank(a + b)
  {
    hide IsSpace;
  }

  /** What trimming finds: the text between the white space at both ends. */
  lemma TrimIff(s: string, t: string)
    ensures Trim(s) == t <==> Tight(t) && exists a, b :: Blank(a) && Blank(b) && s == a + t + b
  {
    hide IsSpace, Trim;
    if Trim(s) == t {
      var a, b := TrimLeavesBlanks(s);
    }
    if Tight(t) {
      forall a, b | Blank(a) && Blank(b) && s == a + t + b ensures Trim(s) == t {
        TrimDropsBlanks(a, t, b);
      }
    }
  }

  /** ASCII letters only. */
  function Lower(s: string): string {
    seq(|s|, i requires 0 <= i < |s| => if 'A' <= s[i] <= 'Z' then s[i] + 32 as char else s[i])
  }

  /** The same character, or the two cases of one ASCII letter. */
  predicate SameLetter(c: char, d: char) {
    c == d || ('A' <= c <= 'Z' && d as int == c as int + 32) || ('A' <= d <= 'Z' && c as int == d as int + 32)
  }

  predicate SameButCase(a: string, b: string) {
    |a| == |b| && forall i | 0 <= i < |a| :: SameLetter(a[i], b[i])
  }

  /** Lower case forgets the case of ASCII letters, and nothing else. */
  lemma LowerIff(a: string, b: string)
    ensures Lower(a) == Lower(b) <==> SameButCase(a, b)
  {
    assert |Lower(a)| == |a| && |Lower(b)| == |b|;
    assert |a| == |b| ==> forall i | 0 <= i < |a| :: Lower(a)[i] == Lower(b)[i] <==> SameLetter(a[i], b[i]);
  }

  /** The pieces between the occurrences of `c`; there is always at least one. */
  function Split(s: string, c: char): (pieces: seq<string>)
    ensures |pieces| >= 1
  {
    if s == [] then [[]]
    else
      var rest := Split(s[1..], c);
      if s[0] == c then [[]] + rest else [[s[0]] + rest[0]] + rest[1..]
  }

  lemma {:induction false} SplitConcat(a: string, b: string, c: char)
    ensures Split(a + [c] + b, c) == Split(a, c) + Split(b, c)
  {
    var s := a + [c] + b;
    if a == "" {
      assert s[1..] == b;
    } else {
      assert s[1..] == a[1..] + [c] + b;
      SplitConcat(a[1..], b, c);
    }
  }

  lemma {:induction false} SplitWhole(s: string, c: char)
    ensures c !in s <==> |Split(s, c)| == 1
    ensures c !in s ==> Split(s, c) == [s]
  {
    if s != "" {
      SplitWhole(s[1..], c);
      assert s == [s[0]] + s[1..];
    }
  }

  /** The pieces are what lies between the separators: whoever writes texts without the separator, one after
      the other with it in between, finds them again. */
  lemma {:induction false} SplitUndoesJoin(pieces: seq<string>, c: char)
    requires pieces != [] && forall i | 0 <= i < |pieces| :: c !in pieces[i]
    ensures Split(Join(pieces, c), c) == pieces
  {
    SplitWhole(pieces[0], c);
    if |pieces| > 1 {
      SplitUndoesJoin(pieces[1..], c);
      SplitConcat(pieces[0], Join(pieces[1..], c), c);
    }
  }

  lemma {:induction false} PiecesLackIt(s: string, c: char)
    ensures forall i | 0 <= i < |Split(s, c)| :: c !in Split(s, c)[i]
  {
    if s != "" {
      PiecesLackIt(s[1..], c);
    }
  }

  function Join(pieces: seq<string>, c: char): string
    requires pieces != []
  {
    if |pieces| == 1 then pieces[0] else pieces[0] + [c] + Join(pieces[1..], c)
  }

  lemma {:induction false} JoinUndoesSplit(s: string, c: char)
    ensures Join(Split(s, c), c) == s
  {
    if s != [] {
      JoinUndoesSplit(s[1..], c);
      var rest := Split(s[1..], c);
      assert s == [s[0]] + s[1..];
      if s[0] == c {
        assert Split(s, c)[1..] == rest;
      } else {
        assert Split(s, c)[1..] == rest[1..];
      }
    }
  }
}
