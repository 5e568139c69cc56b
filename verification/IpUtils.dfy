/** Matching IPv4 addresses against CIDR blocks with 32-bit shifts and masks. */
module IpUtils {
  import opened Json
  import opened Powers
  import opened Text

  const WORD := 0x1_0000_0000

  // ----- 32-bit arithmetic of ECMAScript -----

  function ToUint32(x: int): nat {
    x % WORD
  }

  function ToInt32(x: int): int {
    if ToUint32(x) < 0x8000_0000 then ToUint32(x) else ToUint32(x) - WORD
  }

  /** `x << n`: only the low five bits of the count are used. */
  function ShiftLeft(x: int, n: nat): int {
    ToInt32(ToInt32(x) * Pow2(n % 32))
  }

  function BitsAnd(a: nat, b: nat): nat {
    if a == 0 || b == 0 then 0 else 2 * BitsAnd(a / 2, b / 2) + (a % 2) * (b % 2)
  }

  /** `a & b`, a signed result. */
  function And(a: int, b: int): int {
    ToInt32(BitsAnd(ToUint32(a), ToUint32(b)))
  }

  // ----- Addresses -----

  predicate IsDigit(c: char) {
    '0' <= c <= '9'
  }

  function Digit(c: char): nat
    requires IsDigit(c)
  {
    (c - '0') as int
  }

  /** A decimal number without leading zeros, up to 255. */
  function Octet(t: string): Option<nat> {
    if !(1 <= |t| <= 3) || exists c | c in t :: !IsDigit(c) then None
    else if |t| > 1 && t[0] == '0' then None
    else
      var n := if |t| == 1 then Digit(t[0])
               else if |t| == 2 then 10 * Digit(t[0]) + Digit(t[1])
               else 100 * Digit(t[0]) + 10 * Digit(t[1]) + Digit(t[2]);
      if n <= 255 then Some(n) else None
  }

  function Ipv4ToInt(ip: string): Option<nat> {
    var parts := Split(ip, '.');
    if |parts| != 4 || exists i | 0 <= i < 4 :: Octet(parts[i]) == None then None
    else
      var p := Octets(ip);
      Some(ToUint32(ToUint32(ShiftLeft(p[0], 24)) + ToUint32(ShiftLeft(p[1], 16))
                    + ToUint32(ShiftLeft(p[2], 8)) + p[3]))
  }

  function Mask(prefix: nat): nat
    requires prefix <= 32
  {
    if prefix == 0 then 0 else ToUint32(ShiftLeft(0xffff_ffff, 32 - prefix))
  }

  predicate SameBlock(a: nat, b: nat, prefix: nat)
    requires prefix <= 32
  {
    And(a, Mask(prefix)) == And(b, Mask(prefix))
  }

  /** `number` stands for `Number(text)` where it is an integer. */
  function Ipv4MatchesCidr(number: string -> Option<int>, ip: string, cidr: string): bool {
    var parts := Split(cidr, '/');
    var prefix := if |parts| == 1 then Some(32) else number(parts[1]);
    && prefix.Some? && 0 <= prefix.value <= 32
    && Ipv4ToInt(ip).Some? && Ipv4ToInt(parts[0]).Some?
    && SameBlock(Ipv4ToInt(ip).value, Ipv4ToInt(parts[0]).value, prefix.value)
  }

  const MAPPED := "::ffff:"

  function NormalizeIp(value: Option<string>): Option<string> {
    if value == None || Trim(value.value) == "" then None
    else
      var trimmed := Trim(value.value);
      Some(if MAPPED <= trimmed then trimmed[|MAPPED|..] else trimmed)
  }

  predicate EntryAllows(number: string -> Option<int>, ip: string, entry: string) {
    var candidate := NormalizeIp(Some(entry));
    if candidate == None || candidate.value == "" then false
    else if '/' in candidate.value then Ipv4MatchesCidr(number, ip, candidate.value)
    else ip == candidate.value
  }

  predicate IsIpAllowed(number: string -> Option<int>, remoteAddress: Option<string>, allowlist: seq<string>) {
    var ip := NormalizeIp(remoteAddress);
    ip.Some? && ip.value != "" && exists entry | entry in allowlist :: EntryAllows(number, ip.value, entry)
  }

  // ----- Arithmetic -----

  lemma DivMod(x: nat, m: nat)
    requires m > 0
    ensures x == (x / m) * m + x % m && x % m < m
  {
  }

  lemma AtLeastOnce(d: nat, m: nat)
    requires d > 0
    ensures d * m >= m
  {
  }

  lemma QuotientIsUnique(m: nat, q: nat, r: nat, q': nat, r': nat)
    requires q * m + r == q' * m + r' && r < m && r' < m
    ensures q == q' && r == r'
  {
    if q < q' {
      assert (q' - q) * m == q' * m - q * m;
      AtLeastOnce(q' - q, m);
    } else if q' < q {
      assert (q - q') * m == q * m - q' * m;
      AtLeastOnce(q - q', m);
    }
  }

  lemma Quotient(x: nat, m: nat, q: nat, r: nat)
    requires m > 0 && x == q * m + r && r < m
    ensures x / m == q && x % m == r
  {
    DivMod(x, m);
    QuotientIsUnique(m, q, r, x / m, x % m);
  }

  lemma Scale(a: nat, b: nat, m: nat)
    requires a <= b
    ensures a * m <= b * m
  {
  }

  /** Dividing by `m` and then by `n` is dividing by `m * n`. */
  lemma DivideTwice(x: nat, m: nat, n: nat)
    requires m > 0 && n > 0
    ensures m * n > 0 && (x / m) / n == x / (m * n)
  {
    var q, r := x / m, x % m;
    var s, t := q / n, q % n;
    DivMod(x, m);
    DivMod(q, n);
    Scale(t + 1, n, m);
    calc {
      x;
      (s * n + t) * m + r;
      s * (n * m) + (t * m + r);
    }
    assert t * m + r < n * m;
    assert m * n == n * m;
    Quotient(x, m * n, s, t * m + r);
  }

  lemma HalfModulus(x: nat, m: nat)
    requires m > 0
    ensures x - x % (2 * m) == 2 * (x / 2 - (x / 2) % m)
  {
    var h, b := x / 2, x % 2;
    var q, r := h / m, h % m;
    DivMod(h, m);
    assert x == 2 * h + b;
    assert 2 * (q * m) == q * (2 * m);
    Quotient(x, 2 * m, q, 2 * r + b);
  }

  lemma {:induction false} Pow2Adds(a: nat, b: nat)
    ensures Pow2(a + b) == Pow2(a) * Pow2(b)
  {
    if a > 0 {
      Pow2Adds(a - 1, b);
      assert 2 * (Pow2(a - 1) * Pow2(b)) == (2 * Pow2(a - 1)) * Pow2(b);
    }
  }

  lemma Pow2Values()
    ensures Pow2(8) == 0x100 && Pow2(16) == 0x1_0000 && Pow2(24) == 0x100_0000 && Pow2(31) == 0x8000_0000
    ensures Pow2(32) == WORD
  {
    assert Pow2(4) == 0x10;
    assert Pow2(8) == 0x100;
    assert Pow2(12) == 0x1000;
    assert Pow2(16) == 0x1_0000;
    assert Pow2(20) == 0x10_0000;
    assert Pow2(24) == 0x100_0000;
    assert Pow2(28) == 0x1000_0000;
  }

  // ----- What the bit operations compute -----

  lemma EvenMask(x: nat, mask: nat)
    ensures BitsAnd(x, 2 * mask) == 2 * BitsAnd(x / 2, mask)
  {
    assert (2 * mask) / 2 == mask && (2 * mask) % 2 == 0;
  }

  lemma OddMask(x: nat, mask: nat)
    ensures BitsAnd(x, 2 * mask + 1) == 2 * BitsAnd(x / 2, mask) + x % 2
  {
    assert (2 * mask + 1) / 2 == mask && (2 * mask + 1) % 2 == 1;
  }

  lemma {:induction false} AndAllOnes(x: nat, n: nat)
    requires x < Pow2(n)
    ensures BitsAnd(x, Pow2(n) - 1) == x
  {
    if n > 0 {
      AndAllOnes(x / 2, n - 1);
      OddMask(x, Pow2(n - 1) - 1);
    }
  }

  /** Masking with the high bits clears the low `k`. */
  lemma {:induction false} AndHighBits(x: nat, n: nat, k: nat)
    requires k <= n && x < Pow2(n)
    ensures Pow2(k) <= Pow2(n)
    ensures BitsAnd(x, Pow2(n) - Pow2(k)) == x - x % Pow2(k)
  {
    hide BitsAnd;
    Pow2Grows(k, n);
    if k == 0 {
      AndAllOnes(x, n);
    } else {
      AndHighBits(x / 2, n - 1, k - 1);
      EvenMask(x, Pow2(n - 1) - Pow2(k - 1));
      HalfModulus(x, Pow2(k - 1));
    }
  }

  lemma UnsignedOfSigned(x: int)
    ensures ToUint32(ToInt32(x)) == ToUint32(x)
  {
  }

  lemma SignedIsInjective(a: nat, b: nat)
    requires a < WORD && b < WORD
    ensures ToInt32(a) == ToInt32(b) <==> a == b
  {
  }

  /** Prefix 0 masks everything away; otherwise the mask is the high `prefix` bits, even for 32. */
  lemma MaskValue(prefix: nat)
    requires prefix <= 32
    ensures Pow2(32 - prefix) <= WORD && Mask(prefix) == WORD - Pow2(32 - prefix)
  {
    hide Pow2;
    Pow2Values();
    Pow2Grows(32 - prefix, 32);
    if prefix > 0 {
      var k := 32 - prefix;
      Pow2Grows(k, 31);
      var p: int := Pow2(k);
      assert ToInt32(0xffff_ffff) == -1;
      assert k % 32 == k;
      assert ShiftLeft(0xffff_ffff, k) == ToInt32(-p) by {
        hide ToInt32;
      }
      UnsignedOfSigned(-p);
      assert ToUint32(-p) == WORD - p;
    }
  }

  lemma MaskedBy(a: nat, prefix: nat)
    requires a < WORD && prefix <= 32
    ensures a / Pow2(32 - prefix) * Pow2(32 - prefix) < WORD
    ensures BitsAnd(a, Mask(prefix)) == a / Pow2(32 - prefix) * Pow2(32 - prefix)
  {
    hide BitsAnd;
    MaskValue(prefix);
    Pow2Values();
    AndHighBits(a, 32, 32 - prefix);
    DivMod(a, Pow2(32 - prefix));
  }

  /** Two addresses match a prefix exactly when they lie in the same aligned block of 2^(32 - prefix). */
  lemma SameBlockIsDivision(a: nat, b: nat, prefix: nat)
    requires a < WORD && b < WORD && prefix <= 32
    ensures SameBlock(a, b, prefix) <==> a / Pow2(32 - prefix) == b / Pow2(32 - prefix)
  {
    hide BitsAnd, Mask, ToInt32;
    var m := Pow2(32 - prefix);
    var x, y := BitsAnd(a, Mask(prefix)), BitsAnd(b, Mask(prefix));
    MaskedBy(a, prefix);
    MaskedBy(b, prefix);
    assert ToUint32(a) == a && ToUint32(b) == b;
    MaskValue(prefix);
    assert ToUint32(Mask(prefix)) == Mask(prefix);
    SignedIsInjective(x, y);
    if x == y {
      QuotientIsUnique(m, a / m, 0, b / m, 0);
    }
  }

  /** A match on a prefix is a match on every shorter one. */
  lemma ShorterPrefixMatches(a: nat, b: nat, prefix: nat, shorter: nat)
    requires a < WORD && b < WORD && shorter <= prefix <= 32
    requires SameBlock(a, b, prefix)
    ensures SameBlock(a, b, shorter)
  {
    hide SameBlock;
    SameBlockIsDivision(a, b, prefix);
    SameBlockIsDivision(a, b, shorter);
    var m, n := Pow2(32 - prefix), Pow2(prefix - shorter);
    Pow2Adds(32 - prefix, prefix - shorter);
    DivideTwice(a, m, n);
    DivideTwice(b, m, n);
  }

  lemma ShiftedOctet(b: nat, n: nat)
    requires n < 32 && b <= 255 && b * Pow2(n) < WORD
    ensures ToUint32(ShiftLeft(b, n)) == b * Pow2(n)
  {
    hide Pow2, ToInt32, ToUint32;
    OctetIsSigned(b);
    var x: nat := b * Pow2(n);
    assert n % 32 == n;
    assert ShiftLeft(b, n) == ToInt32(x);
    UnsignedOfSigned(x);
    SmallIsUnsigned(x);
  }

  lemma OctetIsSigned(b: nat)
    requires b <= 255
    ensures ToInt32(b) == b
  {
  }

  lemma SmallIsUnsigned(x: nat)
    requires x < WORD
    ensures ToUint32(x) == x
  {
  }

  function Number(p: seq<nat>): nat
    requires |p| == 4
  {
    p[0] * 0x100_0000 + p[1] * 0x1_0000 + p[2] * 0x100 + p[3]
  }

  /** The shifted octets add up without overflow, even where a shift makes the sign bit. */
  lemma AddressValue(p: seq<nat>)
    requires |p| == 4 && forall i | 0 <= i < 4 :: p[i] <= 255
    ensures Number(p) < WORD
    ensures ToUint32(ToUint32(ShiftLeft(p[0], 24)) + ToUint32(ShiftLeft(p[1], 16))
                     + ToUint32(ShiftLeft(p[2], 8)) + p[3])
      == Number(p)
  {
    hide ShiftLeft, Pow2;
    Pow2Values();
    ShiftedOctet(p[0], 24);
    ShiftedOctet(p[1], 16);
    ShiftedOctet(p[2], 8);
  }

  lemma NumberIsInjective(p: seq<nat>, q: seq<nat>)
    requires |p| == |q| == 4 && forall i | 0 <= i < 4 :: p[i] <= 255 && q[i] <= 255
    requires Number(p) == Number(q)
    ensures p == q
  {
    QuotientIsUnique(0x100_0000, p[0], p[1] * 0x1_0000 + p[2] * 0x100 + p[3],
                     q[0], q[1] * 0x1_0000 + q[2] * 0x100 + q[3]);
    QuotientIsUnique(0x1_0000, p[1], p[2] * 0x100 + p[3], q[1], q[2] * 0x100 + q[3]);
    QuotientIsUnique(0x100, p[2], p[3], q[2], q[3]);
    assert p == [p[0], p[1], p[2], p[3]] && q == [q[0], q[1], q[2], q[3]];
  }

  /** The length of an octet's text follows from its value, and the value from its digits. */
  lemma OctetDigits(s: string)
    requires Octet(s).Some?
    ensures 1 <= |s| <= 3 && forall i | 0 <= i < |s| :: IsDigit(s[i]) && Digit(s[i]) <= 9
    ensures var n := Octet(s).value;
      match |s|
      case 1 => n == Digit(s[0]) < 10
      case 2 => n == 10 * Digit(s[0]) + Digit(s[1]) && 10 <= n < 100
      case _ => n == 100 * Digit(s[0]) + 10 * Digit(s[1]) + Digit(s[2]) && 100 <= n
  {
    forall i | 0 <= i < |s| ensures IsDigit(s[i]) {
      assert s[i] in s;
    }
    assert |s| > 1 ==> Digit(s[0]) >= 1;
  }

  lemma DigitIsInjective(c: char, d: char)
    requires IsDigit(c) && IsDigit(d) && Digit(c) == Digit(d)
    ensures c == d
  {
  }

  lemma SameDigits(a: nat, a': nat, b: nat, b': nat, c: nat, c': nat)
    requires a <= 9 && a' <= 9 && b <= 9 && b' <= 9 && c <= 9 && c' <= 9
    requires 100 * a + 10 * b + c == 100 * a' + 10 * b' + c'
    ensures a == a' && b == b' && c == c'
  {
  }

  lemma OctetIsInjective(s: string, t: string)
    requires Octet(s).Some? && Octet(s) == Octet(t)
    ensures s == t
  {
    hide Octet, Digit, IsDigit;
    OctetDigits(s);
    OctetDigits(t);
    assert |s| == |t|;
    SameDigits(if |s| == 3 then Digit(s[0]) else 0, if |s| == 3 then Digit(t[0]) else 0,
               if |s| >= 2 then Digit(s[|s| - 2]) else 0, if |s| >= 2 then Digit(t[|s| - 2]) else 0,
               Digit(s[|s| - 1]), Digit(t[|s| - 1]));
    forall i | 0 <= i < |s| ensures s[i] == t[i] {
      DigitIsInjective(s[i], t[i]);
    }
  }

  function Octets(ip: string): (p: seq<nat>)
    requires |Split(ip, '.')| == 4 && forall i | 0 <= i < 4 :: Octet(Split(ip, '.')[i]).Some?
    ensures |p| == 4 && forall i | 0 <= i < 4 :: p[i] <= 255
  {
    seq(4, i requires 0 <= i < 4 => Octet(Split(ip, '.')[i]).value)
  }

  lemma OctetsDetermineAddress(a: string, b: string)
    requires |Split(a, '.')| == 4 && forall i | 0 <= i < 4 :: Octet(Split(a, '.')[i]).Some?
    requires |Split(b, '.')| == 4 && forall i | 0 <= i < 4 :: Octet(Split(b, '.')[i]).Some?
    requires Octets(a) == Octets(b)
    ensures a == b
  {
    hide Octet, Split, Join;
    var s, t := Split(a, '.'), Split(b, '.');
    forall i | 0 <= i < 4
      ensures s[i] == t[i]
    {
      assert Octets(a)[i] == Octets(b)[i];
      OctetIsInjective(s[i], t[i]);
    }
    assert s == t;
    JoinUndoesSplit(a, '.');
    JoinUndoesSplit(b, '.');
  }

  /** Different addresses have different numbers, all below 2^32. */
  lemma Ipv4ToIntIsInjective(a: string, b: string)
    requires Ipv4ToInt(a).Some?
    ensures Ipv4ToInt(a).value < WORD
    ensures Ipv4ToInt(a) == Ipv4ToInt(b) ==> a == b
  {
    hide Octet, Split, ShiftLeft;
    if Ipv4ToInt(a) == Ipv4ToInt(b) {
      AddressValue(Octets(a));
      AddressValue(Octets(b));
      NumberIsInjective(Octets(a), Octets(b));
      OctetsDetermineAddress(a, b);
    }
  }

  /** The address and the block's base have the same quotient by the size of the block. */
  predicate InBlock(number: string -> Option<int>, ip: string, cidr: string) {
    var parts := Split(cidr, '/');
    var prefix := if |parts| == 1 then Some(32) else number(parts[1]);
    && prefix.Some? && 0 <= prefix.value <= 32
    && Ipv4ToInt(ip).Some? && Ipv4ToInt(parts[0]).Some?
    && Ipv4ToInt(ip).value / Pow2(32 - prefix.value) == Ipv4ToInt(parts[0]).value / Pow2(32 - prefix.value)
  }

  /** An address matches a block, written as text, exactly when it lies in the block as a number. */
  lemma CidrIsBlockMembership(number: string -> Option<int>, ip: string, cidr: string)
    ensures Ipv4MatchesCidr(number, ip, cidr) <==> InBlock(number, ip, cidr)
  {
    hide Split, SameBlock, Ipv4ToInt;
    var parts := Split(cidr, '/');
    var prefix := if |parts| == 1 then Some(32) else number(parts[1]);
    if prefix.Some? && 0 <= prefix.value <= 32 && Ipv4ToInt(ip).Some? && Ipv4ToInt(parts[0]).Some? {
      Ipv4ToIntIsInjective(ip, ip);
      Ipv4ToIntIsInjective(parts[0], parts[0]);
      SameBlockIsDivision(Ipv4ToInt(ip).value, Ipv4ToInt(parts[0]).value, prefix.value);
    }
  }

  /** An entry that, trimmed and unmapped, is a block around the address or the address itself. */
  predicate Covers(number: string -> Option<int>, entry: string, ip: string) {
    var candidate := NormalizeIp(Some(entry));
    candidate.Some? && candidate.value != ""
    && if '/' in candidate.value then InBlock(number, ip, candidate.value) else candidate.value == ip
  }

  /** The allowlist lets in exactly the listed addresses and those in its blocks, and an IPv4 address written
      as a mapped IPv6 address like the address itself. */
  lemma AllowedIffCovered(number: string -> Option<int>, ip: string, allowlist: seq<string>)
    requires ip != "" && !IsSpace(ip[0]) && !IsSpace(ip[|ip| - 1]) && !(MAPPED <= ip)
    ensures IsIpAllowed(number, Some(ip), allowlist) <==> exists entry | entry in allowlist :: Covers(number, entry, ip)
    ensures IsIpAllowed(number, Some(MAPPED + ip), allowlist) <==> IsIpAllowed(number, Some(ip), allowlist)
  {
    hide Trim, IsSpace, Ipv4MatchesCidr, InBlock;
    TrimKeeps(ip);
    assert (MAPPED + ip)[0] == ':' && (MAPPED + ip)[|MAPPED + ip| - 1] == ip[|ip| - 1];
    assert (MAPPED + ip)[|MAPPED|..] == ip;
    ColonIsNoSpace();
    TrimKeeps(MAPPED + ip);
    forall entry | entry in allowlist
      ensures EntryAllows(number, ip, entry) <==> Covers(number, entry, ip)
    {
      var candidate := NormalizeIp(Some(entry));
      if candidate.Some? {
        CidrIsBlockMembership(number, ip, candidate.value);
      }
    }
  }

  lemma ColonIsNoSpace()
    ensures !IsSpace(':')
  {
  }
}
