/** Masked views and merged edits, value by value: what stands at the end of each path into a configuration. */
module ConfigPaths {
  import opened Json
  import opened Text
  import opened SecretKeys
  import opened SecretRedaction

  datatype Step = Key(name: string) | Index(i: nat)

  function At(v: Json, path: seq<Step>): Option<Json>
    decreases |path|
  {
    if path == [] then Some(v)
    else
      match path[0]
      case Key(k) => if v.Object? && k in v.fields then At(v.fields[k], path[1..]) else None
      case Index(i) => if v.Array? && i < |v.items| then At(v.items[i], path[1..]) else None
  }

  predicate Secret(step: Step) {
    step.Key? && IsSecretKey(step.name)
  }

  /** No secret key stands before the end of the path. */
  predicate Visible(path: seq<Step>) {
    forall i | 0 <= i < |path| - 1 :: !Secret(path[i])
  }

  /** What a masked view shows at any path: nothing that was not there and nothing behind a secret key, the mask
      under a secret key, and everything else masked in turn, so every other text and number as it is. */
  lemma {:induction false} WhatAViewShows(v: Json, path: seq<Step>)
    requires path != []
    ensures At(Redact(v), path) ==
      if At(v, path) == None || !Visible(path) then None
      else if Secret(path[|path| - 1]) then Some(MASK)
      else Some(Redact(At(v, path).value))
    decreases |path|
  {
    hide IsSecretKey;
    var rest := path[1..];
    assert forall i | 0 <= i < |rest| - 1 :: rest[i] == path[i + 1];
    if |path| == 1 {
      assert rest == [];
    } else {
      assert Visible(path) <==> !Secret(path[0]) && Visible(rest) by {
        VisibleFrom(path);
      }
      assert rest[|rest| - 1] == path[|path| - 1];
      if v.Object? && path[0].Key? && path[0].name in v.fields {
        WhatAViewShows(v.fields[path[0].name], rest);
        NothingInAText(MASK, rest);
      } else if v.Array? && path[0].Index? && path[0].i < |v.items| {
        WhatAViewShows(v.items[path[0].i], rest);
      }
    }
  }

  lemma NothingInAText(v: Json, path: seq<Step>)
    requires !v.Object? && !v.Array? && path != []
    ensures At(v, path) == None
  {
  }

  lemma VisibleFrom(path: seq<Step>)
    requires |path| > 1
    ensures Visible(path) <==> !Secret(path[0]) && Visible(path[1..])
  {
    hide Secret;
    var rest := path[1..];
    assert forall i | 0 <= i < |rest| :: rest[i] == path[i + 1];
    if !Secret(path[0]) && Visible(rest) {
      forall i | 0 <= i < |path| - 1 ensures !Secret(path[i]) {
        if i > 0 {
          assert !Secret(rest[i - 1]);
        }
      }
    }
  }

  /** Wherever in a masked view a name ends in a secret word, in any case, that starts the name or follows a
      separator, the mask is all there is. */
  lemma SecretsAreMasked(v: Json, path: seq<Step>, prefix: string, word: string)
    requires Separated(prefix) && SecretWord(Lower(word))
    ensures At(Redact(v), path + [Key(prefix + word)]) in {None, Some(MASK)}
  {
    hide IsSecretKey, SecretWord, Lower, Separated, Redact;
    IsSecretKeyIff(prefix + word);
    var long := path + [Key(prefix + word)];
    assert long[|long| - 1] == Key(prefix + word);
    WhatAViewShows(v, long);
  }

  // ----- Merging an edit -----

  /** The value under a chain of keys. */
  function Under(c: JsonObject, names: seq<string>): Option<Json>
    requires names != []
    decreases |names|
  {
    if names[0] !in c then None
    else if |names| == 1 then Some(c[names[0]])
    else if c[names[0]].Object? then Under(c[names[0]].fields, names[1..])
    else None
  }

  /** The edit does not mention the chain of keys, nor replaces an object on the way. */
  predicate Silent(incoming: JsonObject, names: seq<string>)
    requires names != []
    decreases |names|
  {
    || names[0] !in incoming
    || (|names| > 1 && incoming[names[0]].Object? && Silent(incoming[names[0]].fields, names[1..]))
  }

  lemma {:induction false} SilentIsAbsent(incoming: JsonObject, names: seq<string>)
    requires names != [] && Silent(incoming, names)
    ensures Under(incoming, names) == None
    decreases |names|
  {
    if names[0] in incoming {
      SilentIsAbsent(incoming[names[0]].fields, names[1..]);
    }
  }

  /** What an edit does at any chain of keys: what it does not mention stays, and what it sets is set, except that
      a placeholder under a secret key keeps the secret that is there. */
  lemma {:induction false} WhatAnEditDoes(current: JsonObject, incoming: JsonObject, names: seq<string>)
    requires names != []
    ensures Silent(incoming, names) ==> Under(Merge(current, incoming), names) == Under(current, names)
    ensures Under(incoming, names).Some? && !Under(incoming, names).value.Object? ==>
      Under(Merge(current, incoming), names) ==
        if IsSecretKey(names[|names| - 1]) && IsMaskedSecretValue(Under(incoming, names).value)
           && Under(current, names).Some?
        then Under(current, names) else Under(incoming, names)
    decreases |names|
  {
    hide IsSecretKey, IsMaskedSecretValue;
    var k := names[0];
    if |names| > 1 && k in incoming && incoming[k].Object? {
      var rest := names[1..];
      assert rest[|rest| - 1] == names[|names| - 1];
      assert !IsMaskedSecretValue(incoming[k]) by { ObjectIsNoPlaceholder(incoming[k]); }
      if k in current && current[k].Object? {
        WhatAnEditDoes(current[k].fields, incoming[k].fields, rest);
      } else if Silent(incoming, names) {
        SilentIsAbsent(incoming[k].fields, rest);
      }
    }
  }

  lemma ObjectIsNoPlaceholder(v: Json)
    requires v.Object?
    ensures !IsMaskedSecretValue(v)
  {
  }

  /** The placeholders are three texts, with any white space around them. */
  lemma PlaceholderIff(v: Json)
    ensures IsMaskedSecretValue(v) <==>
      v.String? && exists a, b, p | p in {"***", "*** preserved ***", "[REDACTED]"} ::
        Blank(a) && Blank(b) && v.s == a + p + b
  {
    hide Trim, IsSpace;
    PlaceholdersAreTight();
    if v.String? {
      forall p ensures Trim(v.s) == p <==> Tight(p) && exists a, b :: Blank(a) && Blank(b) && v.s == a + p + b {
        TrimIff(v.s, p);
      }
    }
  }

  lemma PlaceholdersAreTight()
    ensures Tight("***") && Tight("*** preserved ***") && Tight("[REDACTED]")
  {
  }
}
