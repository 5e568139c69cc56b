/** Signed requests: what is signed, and when a signed request is accepted. */
module IntegrationAuth {
  import opened Json
  import opened Text
  import opened StableStringify
  import opened CollationTies

  datatype Hashes = Hashes(sha256: string -> string, hmac: (string, string) -> string) {
    /** Both hashes are printed as 64 hexadecimal digits in lower case. */
    ghost predicate Lawful() {
      (forall t :: IsDigest(sha256(t))) && (forall k, t :: IsDigest(hmac(k, t)))
    }
  }

  datatype Body = Undefined | Parsed(t: Tree)

  datatype Request = Request(
    method_: string, url: string, timestamp: Option<string>, signature: Option<string>, hasBody: bool, body: Body)

  function Upper(s: string): string {
    seq(|s|, i requires 0 <= i < |s| => if 'a' <= s[i] <= 'z' then s[i] - 32 as char else s[i])
  }

  function BodyToString(le: Collation, body: Body, hasBody: bool): string {
    if !hasBody || body.Undefined? || body.t.Null? then ""
    else if body.t.String? then body.t.s
    else StableStringify.StableStringify(le, body.t)
  }

  function Message(h: Hashes, timestamp: string, verb: string, path: string, body: string): string {
    timestamp + "\n" + Upper(verb) + "\n" + path + "\n" + h.sha256(body)
  }

  function SignForTest(
      h: Hashes, le: Collation, verb: string, path: string, body: Body, timestamp: string, secret: string): string {
    h.hmac(secret, Message(h, timestamp, verb, path, BodyToString(le, body, true)))
  }

  function Path(url: string): string {
    var path := Split(url, '?')[0];
    if path == "" then "/" else path
  }

  function Signature(h: Hashes, le: Collation, req: Request, timestamp: string, secret: string): string {
    h.hmac(secret, Message(h, timestamp, req.method_, Path(req.url), BodyToString(le, req.body, req.hasBody)))
  }

  /** `number` stands for `Number(value)` where it is finite. Small values are seconds. */
  function ParseTimestamp(number: string -> Option<real>, value: string): Option<real> {
    match number(value)
    case None => None
    case Some(n) => if n <= 0.0 then None else Some(if n > 1_000_000_000_000.0 then n else n * 1000.0)
  }

  predicate IsHex(s: string) {
    forall c | c in s :: '0' <= c <= '9' || 'a' <= c <= 'f' || 'A' <= c <= 'F'
  }

  const PREFIX := "sha256="
  const DIGEST_LENGTH := 64

  function NormalizeSignature(value: string): Option<string> {
    var trimmed := Trim(value);
    var normalized :=
      if |trimmed| >= |PREFIX| && Lower(trimmed[..|PREFIX|]) == PREFIX then trimmed[|PREFIX|..] else trimmed;
    if |normalized| == DIGEST_LENGTH && IsHex(normalized) then Some(Lower(normalized)) else None
  }

  function Abs(x: real): real {
    if x < 0.0 then -x else x
  }

  /** The HTTP status of the check: 200 accepts the request. */
  function Verify(h: Hashes, le: Collation, number: string -> Option<real>, secret: Option<string>,
                  req: Request, now: real, skewSeconds: nat): int
  {
    if secret == None then 503
    else if req.timestamp == None || req.timestamp.value == "" then 401
    else if req.signature == None || req.signature.value == "" then 401
    else match ParseTimestamp(number, req.timestamp.value)
      case None => 401
      case Some(timestamp) =>
        if Abs(now - timestamp) > skewSeconds as real * 1000.0 then 401
        else
          var actual := NormalizeSignature(req.signature.value);
          if actual.Some?
             && h.sha256(actual.value) == h.sha256(Signature(h, le, req, req.timestamp.value, secret.value))
          then 200 else 401
  }

  predicate IsDigest(s: string) {
    |s| == DIGEST_LENGTH && forall c | c in s :: '0' <= c <= '9' || 'a' <= c <= 'f'
  }

  lemma DigestIsLowerHex(digest: string)
    requires IsDigest(digest)
    ensures Lower(digest) == digest && IsHex(digest)
    ensures !IsSpace(digest[0]) && !IsSpace(digest[|digest| - 1]) && digest[0] != 's'
  {
    assert forall i | 0 <= i < |digest| :: digest[i] in digest;
  }

  /** A digest is read back from the header with or without its prefix. */
  lemma DigestSurvivesNormalizing(digest: string)
    requires IsDigest(digest)
    ensures NormalizeSignature(digest) == Some(digest)
    ensures NormalizeSignature(PREFIX + digest) == Some(digest)
  {
    hide Trim, IsSpace, IsHex;
    DigestIsLowerHex(digest);
    var long := PREFIX + digest;
    assert long[|long| - 1] == digest[|digest| - 1] && long[0] == PREFIX[0];
    LetterIsNoSpace();
    TrimKeeps(digest);
    TrimKeeps(long);
    assert Lower(digest[..|PREFIX|])[0] == digest[0] != PREFIX[0];
    assert long[..|PREFIX|] == PREFIX && long[|PREFIX|..] == digest;
    assert Lower(PREFIX) == PREFIX;
  }

  lemma LetterIsNoSpace()
    ensures !IsSpace(PREFIX[0])
  {
  }

  /** The hash values that take part in one check do not collide. */
  predicate CollisionFree(h: Hashes, secret: string, text: string, text': string, message: string, message': string) {
    && (h.sha256(text) == h.sha256(text') ==> text == text')
    && (h.hmac(secret, message) == h.hmac(secret, message') ==> message == message')
    && (h.sha256(h.hmac(secret, message)) == h.sha256(h.hmac(secret, message')) ==>
          h.hmac(secret, message) == h.hmac(secret, message'))
  }

  /** What a body amounts to: raw words, which an absent or null body also is, or a JSON value. */
  datatype Content = Words(s: string) | Value(v: Json)

  function ContentOf(body: Body, hasBody: bool): Content {
    if !hasBody || body.Undefined? || body.t.Null? then Words("")
    else if body.t.String? then Words(body.t.s)
    else Value(Erase(body.t))
  }

  /** Values are told apart up to the order of keys and words exactly; but words pass for a value when they
      are its stable text. */
  predicate SameContent(le: Collation, a: Body, hasA: bool, b: Body, hasB: bool) {
    match (ContentOf(a, hasA), ContentOf(b, hasB))
    case (Words(s), Words(t)) => s == t
    case (Value(v), Value(w)) => v == w
    case (Words(s), Value(_)) => s == StableStringify.StableStringify(le, b.t)
    case (Value(_), Words(t)) => t == StableStringify.StableStringify(le, a.t)
  }

  /** A body as the parser can leave it. */
  predicate BodyCanArrive(body: Body) {
    body.Parsed? ==> CanArrive(body.t)
  }

  lemma SameTextIffSameContent(le: Collation, a: Body, hasA: bool, b: Body, hasB: bool)
    requires Total(le) && BodyCanArrive(a) && BodyCanArrive(b) && (a.Parsed? ==> FreelySeparated(le, a.t))
    ensures BodyToString(le, a, hasA) == BodyToString(le, b, hasB) <==> SameContent(le, a, hasA, b, hasB)
  {
    hide StableStringify.StableStringify, Erase, CanArrive, FreelySeparated;
    if ContentOf(a, hasA).Value? && ContentOf(b, hasB).Value? {
      ArrivingTextIsCanonical(le, a.t, b.t);
    }
  }

  /** A request signed for some body, in time and for its method and path, is accepted exactly when the body
      that arrives has the same content, whatever the two bodies are. */
  lemma AcceptedIffSameBody(h: Hashes, le: Collation, number: string -> Option<real>, secret: string,
                            signed: Body, req: Request, now: real, skewSeconds: nat)
    requires Total(le) && BodyCanArrive(signed) && BodyCanArrive(req.body)
    requires signed.Parsed? ==> FreelySeparated(le, signed.t)
    requires req.timestamp.Some? && req.timestamp.value != ""
    requires ParseTimestamp(number, req.timestamp.value).Some?
    requires Abs(now - ParseTimestamp(number, req.timestamp.value).value) <= skewSeconds as real * 1000.0
    requires var digest := SignForTest(h, le, req.method_, Path(req.url), signed, req.timestamp.value, secret);
      IsDigest(digest) && req.signature == Some(PREFIX + digest)
    requires var text, text' := BodyToString(le, signed, true), BodyToString(le, req.body, req.hasBody);
      CollisionFree(h, secret, text, text',
        Message(h, req.timestamp.value, req.method_, Path(req.url), text),
        Message(h, req.timestamp.value, req.method_, Path(req.url), text'))
    ensures Verify(h, le, number, Some(secret), req, now, skewSeconds) == 200 <==>
      SameContent(le, signed, true, req.body, req.hasBody)
  {
    hide BodyToString, SameContent, NormalizeSignature, Split, BodyCanArrive, FreelySeparated;
    var ts, verb, path := req.timestamp.value, req.method_, Path(req.url);
    var text, text' := BodyToString(le, signed, true), BodyToString(le, req.body, req.hasBody);
    var head := ts + "\n" + Upper(verb) + "\n" + path + "\n";
    assert Message(h, ts, verb, path, text) == head + h.sha256(text);
    assert Message(h, ts, verb, path, text') == head + h.sha256(text');
    if Message(h, ts, verb, path, text) == Message(h, ts, verb, path, text') {
      SameRest(head, h.sha256(text), h.sha256(text'));
    }
    DigestSurvivesNormalizing(SignForTest(h, le, verb, path, signed, ts, secret));
    SameTextIffSameContent(le, signed, true, req.body, req.hasBody);
  }

  // ----- What is refused -----

  /** The number in the header is an instant in seconds up to 10^12 and in milliseconds above, and it is no
      further from `now` than the allowed skew. */
  predicate InTime(number: string -> Option<real>, header: string, now: real, skewSeconds: nat) {
    var skew := skewSeconds as real * 1000.0;
    match number(header)
    case None => false
    case Some(n) =>
      && n > 0.0
      && (n <= 1_000_000_000_000.0 ==> now - skew <= n * 1000.0 <= now + skew)
      && (n > 1_000_000_000_000.0 ==> now - skew <= n <= now + skew)
  }

  /** The header is the digest in any case, with or without the prefix in any case, between white space. */
  ghost predicate Carries(header: string, digest: string) {
    exists a, p, hex, b :: CarriesAs(header, digest, a, p, hex, b)
  }

  predicate CarriesAs(header: string, digest: string, a: string, p: string, hex: string, b: string) {
    && Blank(a) && Blank(b) && (p == "" || Lower(p) == PREFIX)
    && |hex| == DIGEST_LENGTH && IsHex(hex) && Lower(hex) == digest
    && header == a + p + hex + b
  }

  lemma HexIsTight(p: string, hex: string)
    requires |hex| == DIGEST_LENGTH && IsHex(hex) && (p == "" || Lower(p) == PREFIX)
    ensures Tight(p + hex) && Lower(hex)[..|PREFIX|] != PREFIX
  {
    hide IsSpace;
    var t := p + hex;
    HexIsNoSpace(hex[0]);
    HexIsNoSpace(hex[|hex| - 1]);
    assert t[|t| - 1] == hex[|hex| - 1] && hex[0] in hex && hex[|hex| - 1] in hex;
    if p != "" {
      assert Lower(p)[0] == PREFIX[0];
      PrefixIsNoSpace(p[0]);
      assert t[0] == p[0];
    }
    assert Lower(hex)[0] != PREFIX[0];
    assert Lower(hex)[..|PREFIX|][0] == Lower(hex)[0];
  }

  lemma HexIsNoSpace(c: char)
    ensures '0' <= c <= '9' || 'a' <= c <= 'f' || 'A' <= c <= 'F' ==> !IsSpace(c)
  {
  }

  lemma PrefixIsNoSpace(c: char)
    ensures c == 's' || c == 'S' ==> !IsSpace(c)
  {
  }

  lemma LowerOfPart(s: string, n: nat)
    requires n <= |s|
    ensures Lower(s[..n]) == Lower(s)[..n]
  {
  }

  lemma NormalizeIff(header: string, digest: string)
    ensures NormalizeSignature(header) == Some(digest) <==> Carries(header, digest)
  {
    hide IsSpace, Trim, IsHex, Lower;
    forall a, p, hex, b | CarriesAs(header, digest, a, p, hex, b)
      ensures NormalizeSignature(header) == Some(digest)
    {
      assert Lower(p) == PREFIX ==> |p| == |PREFIX| by { LowerLength(p); }
      HexIsTight(p, hex);
      assert header == a + (p + hex) + b;
      TrimDropsBlanks(a, p + hex, b);
      var trimmed := p + hex;
      if p == "" {
        assert trimmed == hex;
        LowerOfPart(hex, |PREFIX|);
      } else {
        assert trimmed[..|PREFIX|] == p && trimmed[|PREFIX|..] == hex;
      }
    }
    if NormalizeSignature(header) == Some(digest) {
      var a, b := TrimLeavesBlanks(header);
      var trimmed := Trim(header);
      if |trimmed| >= |PREFIX| && Lower(trimmed[..|PREFIX|]) == PREFIX {
        var p, hex := trimmed[..|PREFIX|], trimmed[|PREFIX|..];
        assert trimmed == p + hex;
        assert CarriesAs(header, digest, a, p, hex, b);
      } else {
        assert trimmed == "" + trimmed && header == a + "" + trimmed + b;
        assert CarriesAs(header, digest, a, "", trimmed, b);
      }
    }
  }

  lemma LowerLength(s: string)
    ensures |Lower(s)| == |s|
  {
  }

  /** What the check comes to, for any request: without a secret it is not configured; otherwise a request is
      accepted exactly when its stamp is in time and its header carries a digest that passes for the signature
      of the request itself. */
  lemma VerifyIff(h: Hashes, le: Collation, number: string -> Option<real>, secret: Option<string>,
                  req: Request, now: real, skewSeconds: nat)
    ensures var status := Verify(h, le, number, secret, req, now, skewSeconds);
      && (status == 503 <==> secret == None)
      && (status == 200 || status == 401 || status == 503)
      && (status == 200 <==>
            && secret.Some? && req.timestamp.Some? && req.timestamp.value != "" && req.signature.Some?
            && InTime(number, req.timestamp.value, now, skewSeconds)
            && exists digest ::
                 Carries(req.signature.value, digest)
                 && h.sha256(digest) == h.sha256(Signature(h, le, req, req.timestamp.value, secret.value)))
  {
    hide Signature, Carries, NormalizeSignature;
    if req.signature.Some? {
      var header := req.signature.value;
      forall digest ensures NormalizeSignature(header) == Some(digest) <==> Carries(header, digest) {
        NormalizeIff(header, digest);
      }
      if header == "" {
        NothingIsNoSignature();
      }
    }
  }

  lemma NothingIsNoSignature()
    ensures NormalizeSignature("") == None
  {
  }

  /** A request whose stamp is outside the allowed skew is refused whatever its signature. */
  lemma StaleIsRefused(h: Hashes, le: Collation, number: string -> Option<real>, secret: string,
                       req: Request, now: real, skewSeconds: nat)
    requires req.timestamp.Some? && !InTime(number, req.timestamp.value, now, skewSeconds)
    ensures Verify(h, le, number, Some(secret), req, now, skewSeconds) == 401
  {
    hide Verify, InTime;
    VerifyIff(h, le, number, Some(secret), req, now, skewSeconds);
  }

  /** The path of a request is what stands before the query, or `/`. */
  lemma PathIsBeforeQuery(path: string, query: string)
    requires '?' !in path
    ensures Path(path + "?" + query) == Path(path) == if path == "" then "/" else path
  {
    SplitWhole(path, '?');
    SplitConcat(path, query, '?');
  }

  // ----- What a signature stands for -----

  lemma FourLines(a: string, b: string, c: string, d: string)
    ensures Split(a + "\n" + b + "\n" + c + "\n" + d, '\n')
      == Split(a, '\n') + Split(b, '\n') + Split(c, '\n') + Split(d, '\n')
  {
    hide Split;
    SplitConcat(c, d, '\n');
    SplitConcat(b, c + "\n" + d, '\n');
    SplitConcat(a, b + "\n" + (c + "\n" + d), '\n');
    assert a + "\n" + b + "\n" + c + "\n" + d == a + "\n" + (b + "\n" + (c + "\n" + d));
  }

  /** Four lines can be told from any other four texts joined in the same way. */
  lemma LinesAreUnique(
      a: string, b: string, c: string, d: string, a': string, b': string, c': string, d': string)
    requires '\n' !in a' && '\n' !in b' && '\n' !in c' && '\n' !in d'
    requires a + "\n" + b + "\n" + c + "\n" + d == a' + "\n" + b' + "\n" + c' + "\n" + d'
    ensures a == a' && b == b' && c == c' && d == d'
  {
    hide Split;
    FourLines(a, b, c, d);
    FourLines(a', b', c', d');
    SplitWhole(a', '\n');
    SplitWhole(b', '\n');
    SplitWhole(c', '\n');
    SplitWhole(d', '\n');
    SplitWhole(a, '\n');
    SplitWhole(b, '\n');
    SplitWhole(c, '\n');
    SplitWhole(d, '\n');
    var all := Split(a, '\n') + Split(b, '\n') + Split(c, '\n') + Split(d, '\n');
    assert all == [a'] + [b'] + [c'] + [d'];
    assert |all| == 4;
    assert all == [a] + [b] + [c] + [d];
    assert all[0] == a && all[1] == b && all[2] == c && all[3] == d;
  }

  lemma DigestIsALine(digest: string)
    ensures IsDigest(digest) ==> '\n' !in digest
  {
  }

  lemma UpperIsALine(verb: string)
    ensures '\n' !in verb ==> '\n' !in Upper(verb)
  {
  }

  lemma PathIsALine(url: string)
    ensures '\n' !in url ==> '\n' !in Path(url)
  {
    var pieces := Split(url, '?');
    if '\n' in pieces[0] {
      JoinUndoesSplit(url, '?');
      assert pieces[0] <= Join(pieces, '?');
    }
  }

  /** The first line of a request and its headers hold no line feed. */
  predicate OneLine(req: Request) {
    '\n' !in req.method_ && '\n' !in req.url && req.timestamp.Some? && '\n' !in req.timestamp.value
  }

  /** Everything a signature is made for. */
  datatype Signed = Signed(verb: string, path: string, timestamp: string, body: Body, secret: string)

  /** The request is the one that was signed: the same method in any case, path, timestamp and content. */
  predicate Agrees(le: Collation, signed: Signed, req: Request)
    requires req.timestamp.Some?
  {
    && SameButCase(signed.verb, req.method_) && signed.path == Path(req.url)
    && signed.timestamp == req.timestamp.value && SameContent(le, signed.body, true, req.body, req.hasBody)
  }

  /** The hash values at hand do not collide, under either secret. */
  predicate NoCollision(h: Hashes, text: string, text': string, secret: string, message: string,
                        secret': string, message': string)
  {
    && (h.sha256(text) == h.sha256(text') ==> text == text')
    && (h.hmac(secret, message) == h.hmac(secret', message') ==> secret == secret' && message == message')
    && (h.sha256(h.hmac(secret, message)) == h.sha256(h.hmac(secret', message')) ==>
          h.hmac(secret, message) == h.hmac(secret', message'))
  }

  /** A request that carries the signature made for some method, path, timestamp, body and secret is accepted
      if and only if these are its own and the stamp is in time. */
  lemma AcceptedIffSigned(h: Hashes, le: Collation, number: string -> Option<real>, signed: Signed,
                          secret: string, req: Request, now: real, skewSeconds: nat)
    requires h.Lawful() && Total(le) && BodyCanArrive(signed.body) && BodyCanArrive(req.body)
    requires signed.body.Parsed? ==> FreelySeparated(le, signed.body.t)
    requires OneLine(req) && req.timestamp.value != "" && req.signature.Some?
    requires Carries(req.signature.value,
      SignForTest(h, le, signed.verb, signed.path, signed.body, signed.timestamp, signed.secret))
    requires var text, text' := BodyToString(le, signed.body, true), BodyToString(le, req.body, req.hasBody);
      NoCollision(h, text, text',
        signed.secret, Message(h, signed.timestamp, signed.verb, signed.path, text),
        secret, Message(h, req.timestamp.value, req.method_, Path(req.url), text'))
    ensures Verify(h, le, number, Some(secret), req, now, skewSeconds) == 200 <==>
      && signed.secret == secret && Agrees(le, signed, req)
      && InTime(number, req.timestamp.value, now, skewSeconds)
  {
    hide BodyToString, SameContent, NormalizeSignature, Split, BodyCanArrive, FreelySeparated, Verify, InTime, Upper,
         Path, IsDigest, Carries;
    var digest := SignForTest(h, le, signed.verb, signed.path, signed.body, signed.timestamp, signed.secret);
    var text, text' := BodyToString(le, signed.body, true), BodyToString(le, req.body, req.hasBody);
    VerifyIff(h, le, number, Some(secret), req, now, skewSeconds);
    NormalizeIff(req.signature.value, digest);
    forall other | Carries(req.signature.value, other) ensures other == digest {
      NormalizeIff(req.signature.value, other);
    }
    SameTextIffSameContent(le, signed.body, true, req.body, req.hasBody);
    UpperIff(signed.verb, req.method_);
    UpperIsALine(req.method_);
    PathIsALine(req.url);
    DigestIsALine(h.sha256(text'));
    var (a, b, c, d) := (signed.timestamp, Upper(signed.verb), signed.path, h.sha256(text));
    var (a', b', c', d') := (req.timestamp.value, Upper(req.method_), Path(req.url), h.sha256(text'));
    if a + "\n" + b + "\n" + c + "\n" + d == a' + "\n" + b' + "\n" + c' + "\n" + d' {
      LinesAreUnique(a, b, c, d, a', b', c', d');
    }
  }

  /** A request that announces no body, or whose body is absent or null, is signed like one with an empty body;
      a text is signed as it is. */
  lemma AbsentBodies(le: Collation, body: Body, hasBody: bool, text: string)
    ensures BodyToString(le, body, false) == BodyToString(le, Undefined, hasBody) == ""
    ensures BodyToString(le, Parsed(Tree.Null), hasBody) == ""
    ensures BodyToString(le, Parsed(Tree.String(text)), true) == text
  {
  }

  /** Methods are compared without regard to the case of ASCII letters. */
  lemma UpperIff(a: string, b: string)
    ensures Upper(a) == Upper(b) <==> SameButCase(a, b)
  {
    assert |Upper(a)| == |a| && |Upper(b)| == |b|;
    assert |a| == |b| ==> forall i | 0 <= i < |a| :: Upper(a)[i] == Upper(b)[i] <==> SameLetter(a[i], b[i]);
  }

  /** What is signed, line by line: the timestamp, the method in upper case, the path, and the hash of the body. */
  lemma SignedText(h: Hashes, timestamp: string, verb: string, path: string, body: string)
    requires h.Lawful() && '\n' !in timestamp && '\n' !in verb && '\n' !in path
    ensures Split(Message(h, timestamp, verb, path, body), '\n') == [timestamp, Upper(verb), path, h.sha256(body)]
  {
    hide Split, Upper, IsDigest;
    UpperIsALine(verb);
    DigestIsALine(h.sha256(body));
    FourLines(timestamp, Upper(verb), path, h.sha256(body));
    SplitWhole(timestamp, '\n');
    SplitWhole(Upper(verb), '\n');
    SplitWhole(path, '\n');
    SplitWhole(h.sha256(body), '\n');
  }

  /** A line feed in a signed field would make two different requests share a signature, which is why it matters
      that the field cannot arrive with one. */
  lemma LineFeedsMergeMessages(h: Hashes, body: string)
    ensures Message(h, "1\nGET", "PUT", "/", body) == Message(h, "1", "GET\nPUT", "/", body)
  {
    assert Upper("PUT") == "PUT" && Upper("GET\nPUT") == "GET\nPUT";
    assert "1\nGET" + "\n" + "PUT" == "1" + "\n" + "GET\nPUT";
  }
}
