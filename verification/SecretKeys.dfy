/** Which keys of a configuration hold secrets. */
module SecretKeys {
  import opened Text

  // The alternatives of the key pattern, in lower case, with each optional `_` or `-` written out.

  const PLAIN_WORDS: set<string> := {
    "password", "passwd", "pwd", "token", "secret", "authorization", "cookie", "credential",
    "cert", "ca", "pem", "key", "value"
  }

  const TOKEN_WORDS: set<string> := {
    "apikey", "api_key", "api-key", "apitoken", "api_token", "api-token",
    "accesstoken", "access_token", "access-token", "refreshtoken", "refresh_token", "refresh-token"
  }

  const KEY_WORDS: set<string> := {
    "masterkey", "master_key", "master-key", "privatekey", "private_key", "private-key",
    "walletpassword", "wallet_password", "wallet-password",
    "newvalue", "new_value", "new-value", "oldvalue", "old_value", "old-value"
  }

  const HASH_WORDS: set<string> := {
    "masterkeyhash", "masterkey_hash", "masterkey-hash",
    "master_keyhash", "master_key_hash", "master_key-hash",
    "master-keyhash", "master-key_hash", "master-key-hash"
  }

  predicate IsSecretWord(word: string) {
    word in PLAIN_WORDS || word in TOKEN_WORDS || word in KEY_WORDS || word in HASH_WORDS
  }

  /** The key ends in a secret word that starts the key or follows `_`, `-` or `.`. */
  predicate IsSecretKey(key: string) {
    exists i | 0 <= i <= |key| ::
      (i == 0 || key[i - 1] in "_-.") && IsSecretWord(Lower(key[i..]))
  }

  // ----- The words, by the parts that make them up -----

  const PLAIN_STEMS: set<seq<string>> := {
    ["password"], ["passwd"], ["pwd"], ["token"], ["secret"], ["authorization"], ["cookie"], ["credential"],
    ["cert"], ["ca"], ["pem"], ["key"], ["value"]
  }

  const JOINED_STEMS: set<seq<string>> := {
    ["api", "key"], ["api", "token"], ["access", "token"], ["refresh", "token"],
    ["master", "key"], ["master", "key", "hash"], ["private", "key"], ["wallet", "password"],
    ["new", "value"], ["old", "value"]
  }

  /** The parts in their order, with nothing, `_` or `-` between each two. */
  predicate Spells(word: string, parts: seq<string>)
    decreases |parts|
  {
    if |parts| <= 1 then parts == [word]
    else
      parts[0] <= word
      && var rest := word[|parts[0]|..];
         Spells(rest, parts[1..]) || (rest != "" && rest[0] in "_-" && Spells(rest[1..], parts[1..]))
  }

  predicate SecretWord(word: string) {
    exists parts | parts in PLAIN_STEMS + JOINED_STEMS :: Spells(word, parts)
  }

  predicate Joins(word: string, a: string, b: string) {
    word == a + b || word == a + "_" + b || word == a + "-" + b
  }

  lemma SpellsOne(word: string, a: string)
    ensures Spells(word, [a]) <==> word == a
  {
  }

  lemma SpellsTwo(word: string, a: string, b: string)
    ensures Spells(word, [a, b]) <==> word == a + b || word == a + "_" + b || word == a + "-" + b
  {
    assert [a, b][1..] == [b];
    if a <= word {
      var rest := word[|a|..];
      assert word == a + rest;
      SpellsOne(rest, b);
      if rest != "" {
        SpellsOne(rest[1..], b);
        assert rest == [rest[0]] + rest[1..];
      }
      assert rest == "_" + b ==> rest[1..] == b;
      assert rest == "-" + b ==> rest[1..] == b;
      assert word == a + ("_" + b) ==> rest == "_" + b;
      assert word == a + ("-" + b) ==> rest == "-" + b;
    }
  }

  lemma SpellsTail(word: string, b: string, c: string)
    ensures Spells(word, [b, c]) <==>
      Spells(word, [b + c]) || Spells(word, [b + "_" + c]) || Spells(word, [b + "-" + c])
  {
    SpellsTwo(word, b, c);
    SpellsOne(word, b + c);
    SpellsOne(word, b + "_" + c);
    SpellsOne(word, b + "-" + c);
  }

  lemma SpellsThree(word: string, a: string, b: string, c: string)
    ensures Spells(word, [a, b, c]) <==>
      Spells(word, [a, b + c]) || Spells(word, [a, b + "_" + c]) || Spells(word, [a, b + "-" + c])
  {
    assert [a, b, c][1..] == [b, c];
    assert [a, b + c][1..] == [b + c];
    assert [a, b + "_" + c][1..] == [b + "_" + c];
    assert [a, b + "-" + c][1..] == [b + "-" + c];
    if a <= word {
      var rest := word[|a|..];
      SpellsTail(rest, b, c);
      if rest != "" {
        SpellsTail(rest[1..], b, c);
      }
    }
  }

  lemma PlainWords(word: string)
    ensures word in PLAIN_WORDS <==> exists parts | parts in PLAIN_STEMS :: Spells(word, parts)
  {
    assert [word][0] == word;
    assert word in PLAIN_WORDS <==> [word] in PLAIN_STEMS;
    if word in PLAIN_WORDS {
      assert Spells(word, [word]);
    }
  }

  lemma TokenWords(word: string)
    ensures Spells(word, ["api", "key"]) <==> word in {"apikey", "api_key", "api-key"}
    ensures Spells(word, ["api", "token"]) <==> word in {"apitoken", "api_token", "api-token"}
    ensures Spells(word, ["access", "token"]) <==> word in {"accesstoken", "access_token", "access-token"}
    ensures Spells(word, ["refresh", "token"]) <==> word in {"refreshtoken", "refresh_token", "refresh-token"}
  {
    hide Spells;
    SpellsTwo(word, "api", "key");
    assert "api" + "key" == "apikey" && "api" + "_" + "key" == "api_key" && "api" + "-" + "key" == "api-key";
    SpellsTwo(word, "api", "token");
    assert "api" + "token" == "apitoken";
    assert "api" + "_" + "token" == "api_token";
    assert "api" + "-" + "token" == "api-token";
    SpellsTwo(word, "access", "token");
    assert "access" + "token" == "accesstoken";
    assert "access" + "_" + "token" == "access_token";
    assert "access" + "-" + "token" == "access-token";
    SpellsTwo(word, "refresh", "token");
    assert "refresh" + "token" == "refreshtoken";
    assert "refresh" + "_" + "token" == "refresh_token";
    assert "refresh" + "-" + "token" == "refresh-token";
  }

  lemma KeyWords(word: string)
    ensures Spells(word, ["master", "key"]) <==> word in {"masterkey", "master_key", "master-key"}
    ensures Spells(word, ["private", "key"]) <==> word in {"privatekey", "private_key", "private-key"}
    ensures Spells(word, ["wallet", "password"]) <==> word in {"walletpassword", "wallet_password", "wallet-password"}
    ensures Spells(word, ["new", "value"]) <==> word in {"newvalue", "new_value", "new-value"}
    ensures Spells(word, ["old", "value"]) <==> word in {"oldvalue", "old_value", "old-value"}
  {
    hide Spells;
    SpellsTwo(word, "master", "key");
    assert "master" + "key" == "masterkey";
    assert "master" + "_" + "key" == "master_key";
    assert "master" + "-" + "key" == "master-key";
    SpellsTwo(word, "private", "key");
    assert "private" + "key" == "privatekey";
    assert "private" + "_" + "key" == "private_key";
    assert "private" + "-" + "key" == "private-key";
    SpellsTwo(word, "wallet", "password");
    assert "wallet" + "password" == "walletpassword";
    assert "wallet" + "_" + "password" == "wallet_password";
    assert "wallet" + "-" + "password" == "wallet-password";
    SpellsTwo(word, "new", "value");
    assert "new" + "value" == "newvalue";
    assert "new" + "_" + "value" == "new_value";
    assert "new" + "-" + "value" == "new-value";
    SpellsTwo(word, "old", "value");
    assert "old" + "value" == "oldvalue";
    assert "old" + "_" + "value" == "old_value";
    assert "old" + "-" + "value" == "old-value";
  }

  lemma HashWords(word: string)
    ensures Spells(word, ["master", "keyhash"]) <==> word in {"masterkeyhash", "master_keyhash", "master-keyhash"}
    ensures Spells(word, ["master", "key_hash"]) <==> word in {"masterkey_hash", "master_key_hash", "master-key_hash"}
    ensures Spells(word, ["master", "key-hash"]) <==> word in {"masterkey-hash", "master_key-hash", "master-key-hash"}
  {
    hide Spells;
    SpellsTwo(word, "master", "keyhash");
    assert "master" + "keyhash" == "masterkeyhash";
    assert "master" + "_" + "keyhash" == "master_keyhash";
    assert "master" + "-" + "keyhash" == "master-keyhash";
    SpellsTwo(word, "master", "key_hash");
    assert "master" + "key_hash" == "masterkey_hash";
    assert "master" + "_" + "key_hash" == "master_key_hash";
    assert "master" + "-" + "key_hash" == "master-key_hash";
    SpellsTwo(word, "master", "key-hash");
    assert "master" + "key-hash" == "masterkey-hash";
    assert "master" + "_" + "key-hash" == "master_key-hash";
    assert "master" + "-" + "key-hash" == "master-key-hash";
  }

  lemma SpellsHash(word: string)
    ensures Spells(word, ["master", "key", "hash"]) <==>
      || Spells(word, ["master", "keyhash"]) || Spells(word, ["master", "key_hash"])
      || Spells(word, ["master", "key-hash"])
  {
    hide Spells;
    assert "key" + "hash" == "keyhash" && "key" + "_" + "hash" == "key_hash" && "key" + "-" + "hash" == "key-hash";
    SpellsThree(word, "master", "key", "hash");
  }

  lemma JoinedWords(word: string)
    ensures word in TOKEN_WORDS || word in KEY_WORDS || word in HASH_WORDS <==>
      exists parts | parts in JOINED_STEMS :: Spells(word, parts)
  {
    hide Spells;
    TokenWords(word);
    KeyWords(word);
    HashWords(word);
    SpellsHash(word);
  }

  /** The listed words are exactly the spellings of the stems. */
  lemma WordsAreSpellings(word: string)
    ensures IsSecretWord(word) <==> SecretWord(word)
  {
    hide Spells;
    PlainWords(word);
    JoinedWords(word);
  }

  // ----- The keys -----

  /** A prefix, empty or ending in a separator, and a secret word in any case. */
  predicate Separated(prefix: string) {
    prefix == "" || prefix[|prefix| - 1] in "_-."
  }

  lemma IsSecretKeyIff(key: string)
    ensures IsSecretKey(key) <==>
      exists prefix, word :: key == prefix + word && Separated(prefix) && SecretWord(Lower(word))
  {
    hide SecretWord, Lower;
    forall word ensures IsSecretWord(word) <==> SecretWord(word) {
      WordsAreSpellings(word);
    }
    if IsSecretKey(key) {
      var i :| 0 <= i <= |key| && (i == 0 || key[i - 1] in "_-.") && IsSecretWord(Lower(key[i..]));
      assert key == key[..i] + key[i..] && Separated(key[..i]);
    }
    forall prefix, word | key == prefix + word && Separated(prefix) && SecretWord(Lower(word))
      ensures IsSecretKey(key)
    {
      assert key[|prefix|..] == word;
    }
  }

  /** Whatever stands before a secret key, with a separator in between, it stays secret. */
  lemma PrefixKeepsSecret(prefix: string, key: string)
    requires Separated(prefix) && IsSecretKey(key)
    ensures IsSecretKey(prefix + key)
  {
    hide Lower;
    var i :| 0 <= i <= |key| && (i == 0 || key[i - 1] in "_-.") && IsSecretWord(Lower(key[i..]));
    var n, long := |prefix|, prefix + key;
    assert long[n + i..] == key[i..];
    assert n + i > 0 ==> long[n + i - 1] in "_-.";
  }

  lemma LowerOfRest(a: string, b: string, i: nat)
    requires Lower(a) == Lower(b) && i <= |a|
    ensures |a| == |b| && Lower(a[i..]) == Lower(b[i..])
    ensures i > 0 && a[i - 1] in "_-." ==> b[i - 1] in "_-."
  {
    assert |Lower(a)| == |a| && |Lower(b)| == |b|;
    assert Lower(a[i..]) == Lower(a)[i..] && Lower(b[i..]) == Lower(b)[i..];
    if i > 0 {
      assert Lower(a)[i - 1] == Lower(b)[i - 1];
      SeparatorsHaveNoCase(a[i - 1], b[i - 1]);
    }
  }

  lemma SeparatorsHaveNoCase(c: char, d: char)
    requires (if 'A' <= c <= 'Z' then c + 32 as char else c) == (if 'A' <= d <= 'Z' then d + 32 as char else d)
    ensures c in "_-." ==> d in "_-."
  {
    assert c in "_-." ==> c == '_' || c == '-' || c == '.';
    assert c in "_-." ==> c == d;
  }

  /** Case never matters. */
  lemma CaseNeverMatters(a: string, b: string)
    requires SameButCase(a, b)
    ensures IsSecretKey(a) <==> IsSecretKey(b)
  {
    hide Lower;
    LowerIff(a, b);
    forall x, y | Lower(x) == Lower(y) && IsSecretKey(x) ensures IsSecretKey(y) {
      var i :| 0 <= i <= |x| && (i == 0 || x[i - 1] in "_-.") && IsSecretWord(Lower(x[i..]));
      LowerOfRest(x, y, i);
    }
  }

  lemma SecretAfter(prefix: string, c: char, word: string)
    requires c in "_-." && SecretWord(Lower(word))
    ensures IsSecretKey(prefix + [c] + word)
  {
    hide SecretWord, Lower, IsSecretKey;
    IsSecretKeyIff(prefix + [c] + word);
    assert Separated(prefix + [c]);
  }

  /** A password, written in any case, is a secret under its own name and under any name that ends in it after a
      separator. */
  lemma PasswordNames(prefix: string, password: string)
    requires Lower(password) == "password"
    ensures IsSecretKey(password) && forall c | c in "_-." :: IsSecretKey(prefix + [c] + password)
  {
    hide SecretWord, Lower, IsSecretKey;
    assert SecretWord(Lower(password)) by {
      WordsAreSpellings(Lower(password));
    }
    IsSecretKeyIff(password);
    assert password == "" + password && Separated("");
    forall c | c in "_-." ensures IsSecretKey(prefix + [c] + password) {
      SecretAfter(prefix, c, password);
    }
  }
}
