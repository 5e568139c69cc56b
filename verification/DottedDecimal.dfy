/** What the texts of an allowlist mean: addresses in dotted decimal, blocks of them, white space and mapping. */
module DottedDecimal {
  import opened Json
  import opened Powers
  import opened Text
  import opened IpUtils

  function Decimal(n: nat): string {
    if n < 10 then ["0123456789"[n]] else Decimal(n / 10) + ["0123456789"[n % 10]]
  }

  /** The address with this number. */
  function Dotted(x: nat): string {
    Decimal(x / 0x100_0000) + "." + Decimal(x / 0x1_0000 % 0x100) + "." + Decimal(x / 0x100 % 0x100) + "."
    + Decimal(x % 0x100)
  }

  lemma DecimalDigit(n: nat)
    requires n < 10
    ensures IsDigit("0123456789"[n]) && Digit("0123456789"[n]) == n
  {
  }

  lemma OctetOfDecimal(n: nat)
    requires n <= 255
    ensures Octet(Decimal(n)) == Some(n) && '.' !in Decimal(n)
  {
    hide Digit, IsDigit;
    DecimalDigit(n % 10);
    DecimalDigit(n / 10 % 10);
    DecimalDigit(n / 100);
    if n < 10 {
      OneDigit(n);
    } else if n < 100 {
      TwoDigits(n);
    } else {
      ThreeDigits(n);
    }
  }

  lemma OneDigit(n: nat)
    requires n < 10
    ensures Octet(Decimal(n)) == Some(n) && '.' !in Decimal(n)
  {
    DecimalDigit(n);
  }

  lemma TwoDigits(n: nat)
    requires 10 <= n < 100
    ensures Octet(Decimal(n)) == Some(n) && '.' !in Decimal(n)
  {
    DecimalDigit(n / 10);
    DecimalDigit(n % 10);
    assert Decimal(n) == ["0123456789"[n / 10], "0123456789"[n % 10]];
  }

  lemma ThreeDigits(n: nat)
    requires 100 <= n <= 255
    ensures Octet(Decimal(n)) == Some(n) && '.' !in Decimal(n)
  {
    hide Digit, IsDigit, Octet, Decimal;
    var a, b, c := n / 10 / 10, n / 10 % 10, n % 10;
    DecimalOfThree(n);
    OctetOfThree(a, b, c);
  }

  lemma DecimalOfThree(n: nat)
    requires 100 <= n <= 255
    ensures Decimal(n) == ["0123456789"[n / 10 / 10], "0123456789"[n / 10 % 10], "0123456789"[n % 10]]
  {
    assert Decimal(n / 10) == ["0123456789"[n / 10 / 10], "0123456789"[n / 10 % 10]];
  }

  lemma OctetOfThree(a: nat, b: nat, c: nat)
    requires 1 <= a <= 9 && b <= 9 && c <= 9 && 100 * a + 10 * b + c <= 255
    ensures var t := ["0123456789"[a], "0123456789"[b], "0123456789"[c]];
      Octet(t) == Some(100 * a + 10 * b + c) && '.' !in t
  {
    hide Digit, IsDigit;
    DecimalDigit(a);
    DecimalDigit(b);
    DecimalDigit(c);
    ZeroIsFirst(a);
    DotIsNoDigit();
  }

  lemma ZeroIsFirst(a: nat)
    requires 1 <= a <= 9
    ensures "0123456789"[a] != '0'
  {
  }

  lemma DotIsNoDigit()
    ensures !IsDigit('.')
  {
  }

  lemma JoinFour(a: string, b: string, c: string, d: string)
    ensures Join([a, b, c, d], '.') == a + "." + b + "." + c + "." + d
  {
    assert [a, b, c, d][1..] == [b, c, d] && [b, c, d][1..] == [c, d] && [c, d][1..] == [d];
    assert Join([c, d], '.') == c + "." + d;
    assert Join([b, c, d], '.') == b + "." + (c + "." + d);
  }

  lemma DottedIsRead(x: nat)
    requires x < WORD
    ensures Ipv4ToInt(Dotted(x)) == Some(x)
  {
    hide Octet, Decimal, Split, Join, ShiftLeft;
    var p := [x / 0x100_0000, x / 0x1_0000 % 0x100, x / 0x100 % 0x100, x % 0x100];
    var texts := [Decimal(p[0]), Decimal(p[1]), Decimal(p[2]), Decimal(p[3])];
    OctetOfDecimal(p[0]);
    OctetOfDecimal(p[1]);
    OctetOfDecimal(p[2]);
    OctetOfDecimal(p[3]);
    JoinFour(texts[0], texts[1], texts[2], texts[3]);
    SplitUndoesJoin(texts, '.');
    assert Octets(Dotted(x)) == p;
    AddressValue(p);
    FourBytes(x);
  }

  lemma FourBytes(x: nat)
    requires x < WORD
    ensures IpUtils.Number([x / 0x100_0000, x / 0x1_0000 % 0x100, x / 0x100 % 0x100, x % 0x100]) == x
  {
    DivideTwice(x, 0x100, 0x100);
    DivideTwice(x, 0x1_0000, 0x100);
    var q1 := x / 0x100;
    var q2 := q1 / 0x100;
    assert x == q1 * 0x100 + x % 0x100 && q1 == q2 * 0x100 + q1 % 0x100;
    assert q2 == q2 / 0x100 * 0x100 + q2 % 0x100;
  }

  /** The text of an address is its number in dotted decimal, without leading zeros, and nothing else is one. */
  lemma AddressIff(ip: string, x: nat)
    ensures Ipv4ToInt(ip) == Some(x) <==> x < WORD && ip == Dotted(x)
  {
    hide Ipv4ToInt, Dotted;
    if x < WORD {
      DottedIsRead(x);
    }
    if Ipv4ToInt(ip) == Some(x) {
      Ipv4ToIntIsInjective(ip, ip);
      DottedIsRead(x);
      Ipv4ToIntIsInjective(ip, Dotted(x));
    }
  }

  lemma {:induction false} DigitsOnly(n: nat)
    ensures forall c | c in Decimal(n) :: IsDigit(c)
  {
    if n >= 10 {
      DigitsOnly(n / 10);
    }
    DecimalDigit(n % 10);
  }

  lemma NoSlash(x: nat)
    ensures '/' !in Dotted(x)
  {
    hide Decimal;
    DigitsOnly(x / 0x100_0000);
    DigitsOnly(x / 0x1_0000 % 0x100);
    DigitsOnly(x / 0x100 % 0x100);
    DigitsOnly(x % 0x100);
  }

  /** An address lies in a block, both as texts, exactly when the prefix is a number from 0 to 32 and the first so
      many bits of the two addresses agree. */
  lemma BlockOfAddresses(number: string -> Option<int>, x: nat, base: nat, text: string)
    requires x < WORD && base < WORD && '/' !in text
    ensures Ipv4MatchesCidr(number, Dotted(x), Dotted(base) + "/" + text) <==>
      && number(text).Some? && 0 <= number(text).value <= 32
      && x / Pow2(32 - number(text).value) == base / Pow2(32 - number(text).value)
  {
    hide Ipv4ToInt, Dotted, Split, Ipv4MatchesCidr;
    NoSlash(base);
    SplitWhole(Dotted(base), '/');
    SplitWhole(text, '/');
    SplitConcat(Dotted(base), text, '/');
    assert Split(Dotted(base) + "/" + text, '/') == [Dotted(base), text];
    DottedIsRead(x);
    DottedIsRead(base);
    CidrIsBlockMembership(number, Dotted(x), Dotted(base) + "/" + text);
  }

  /** The text stands for the core, perhaps mapped into IPv6, between white space. */
  ghost predicate StandsFor(text: string, core: string) {
    exists a, m, b :: StandsAs(text, core, a, m, b)
  }

  predicate StandsAs(text: string, core: string, a: string, m: string, b: string) {
    && Blank(a) && Blank(b) && text == a + m + core + b
    && m + core != "" && Tight(m + core) && (m == MAPPED || (m == "" && !(MAPPED <= core)))
  }

  lemma NormalizeIff(text: string, core: string)
    ensures NormalizeIp(Some(text)) == Some(core) <==> StandsFor(text, core)
  {
    hide Trim, IsSpace;
    forall a, m, b | StandsAs(text, core, a, m, b) ensures NormalizeIp(Some(text)) == Some(core) {
      assert text == a + (m + core) + b;
      TrimDropsBlanks(a, m + core, b);
      assert m == "" ==> m + core == core;
      assert (MAPPED + core)[|MAPPED|..] == core;
    }
    if NormalizeIp(Some(text)) == Some(core) {
      var a, b := TrimLeavesBlanks(text);
      var trimmed := Trim(text);
      if MAPPED <= trimmed {
        assert trimmed == MAPPED + core;
        assert StandsAs(text, core, a, MAPPED, b);
      } else {
        assert trimmed == "" + core && text == a + "" + core + b;
        assert StandsAs(text, core, a, "", b);
      }
    }
  }

  /** An address is allowed exactly when some entry stands for it or for a block around it, whatever white space or
      mapping either is written with. */
  lemma AllowedMeans(number: string -> Option<int>, remote: string, x: nat, allowlist: seq<string>)
    requires x < WORD && StandsFor(remote, Dotted(x))
    ensures IsIpAllowed(number, Some(remote), allowlist) <==>
      exists entry, core | entry in allowlist ::
        StandsFor(entry, core) && core != ""
        && if '/' in core then InBlock(number, Dotted(x), core) else core == Dotted(x)
  {
    hide NormalizeIp, StandsFor, InBlock, Ipv4MatchesCidr, Dotted;
    NormalizeIff(remote, Dotted(x));
    DottedIsText(x);
    forall entry, core | entry in allowlist
      ensures StandsFor(entry, core) <==> NormalizeIp(Some(entry)) == Some(core)
      ensures Ipv4MatchesCidr(number, Dotted(x), core) <==> InBlock(number, Dotted(x), core)
    {
      NormalizeIff(entry, core);
      CidrIsBlockMembership(number, Dotted(x), core);
    }
    if IsIpAllowed(number, Some(remote), allowlist) {
      var entry :| entry in allowlist && EntryAllows(number, Dotted(x), entry);
      var core := NormalizeIp(Some(entry)).value;
      assert StandsFor(entry, core);
    }
  }

  lemma DottedIsText(x: nat)
    ensures Dotted(x) != ""
  {
    hide Decimal;
  }

  /** Without a remote address nothing is allowed. */
  lemma NobodyIsRefused(number: string -> Option<int>, allowlist: seq<string>)
    ensures !IsIpAllowed(number, None, allowlist) && !IsIpAllowed(number, Some(""), allowlist)
  {
    assert Trim("") == "";
  }
}
