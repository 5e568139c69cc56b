/** Masking secrets in a configuration, and saving an edited masked view back. */
module SecretRedaction {
  import opened Json
  import opened Text
  import opened SecretKeys

  const MASKED_SECRET_VALUE := "***"
  const SECRET_REDACTION_CENSOR := "[REDACTED]"
  const MASKED_PLACEHOLDERS := {MASKED_SECRET_VALUE, "*** preserved ***", SECRET_REDACTION_CENSOR}

  predicate IsMaskedSecretValue(v: Json) {
    v.String? && Trim(v.s) in MASKED_PLACEHOLDERS
  }

  const MASK := String(MASKED_SECRET_VALUE)

  function Redact(v: Json): Json
    decreases v, 1
  {
    match v
    case Array(items) => Array(seq(|items|, i requires 0 <= i < |items| => Redact(items[i])))
    case Object(fields) => Object(RedactFields(fields))
    case _ => v
  }

  function RedactFields(fields: JsonObject): JsonObject
    decreases Object(fields), 0
  {
    map k | k in fields :: if IsSecretKey(k) then MASK else Redact(fields[k])
  }

  /** The value a merge leaves under one key of the incoming object. */
  function MergedValue(current: JsonObject, key: string, value: Json): Json
    decreases value, 1
  {
    if IsSecretKey(key) && IsMaskedSecretValue(value) && key in current then
      current[key]
    else if value.Object? && key in current && current[key].Object? then
      Object(Merge(current[key].fields, value.fields))
    else
      value
  }

  function Merge(current: JsonObject, incoming: JsonObject): JsonObject
    decreases Object(incoming), 0
  {
    map k | k in current.Keys + incoming.Keys ::
      if k in incoming then MergedValue(current, k, incoming[k]) else current[k]
  }

  /** The merge after the loop has handled the keys in `done`. */
  ghost function MergedSoFar(current: JsonObject, incoming: JsonObject, done: set<string>): JsonObject
    requires done <= incoming.Keys
  {
    map k | k in current.Keys + done ::
      if k in done then MergedValue(current, k, incoming[k]) else current[k]
  }

  lemma MergedOneMore(current: JsonObject, incoming: JsonObject, done: set<string>, key: string)
    requires done <= incoming.Keys && key in incoming && key !in done
    ensures MergedSoFar(current, incoming, done + {key})
      == MergedSoFar(current, incoming, done)[key := MergedValue(current, key, incoming[key])]
    ensures key in current ==>
      key in MergedSoFar(current, incoming, done) && MergedSoFar(current, incoming, done)[key] == current[key]
  {
    hide MergedValue;
  }

  /** The loop visits the incoming keys in an arbitrary order: the result does not depend on it. */
  method MergeConfigPreservingSecrets(current: JsonObject, incoming: JsonObject) returns (merged: JsonObject)
    ensures merged == Merge(current, incoming)
    decreases Object(incoming)
  {
    hide IsSecretKey, IsMaskedSecretValue, MergedValue, MergedSoFar;
    merged := current;
    var pending := incoming.Keys;
    ghost var done: set<string> := {};
    NothingMerged(current, incoming);
    while pending != {}
      invariant pending <= incoming.Keys && done == incoming.Keys - pending
      invariant merged == MergedSoFar(current, incoming, done)
    {
      var key :| key in pending;
      var value := incoming[key];
      MergedOneMore(current, incoming, done, key);
      MergedValueCases(current, key, value);
      pending, done := pending - {key}, done + {key};
      if IsSecretKey(key) && IsMaskedSecretValue(value) && key in current {
        assert merged == merged[key := current[key]];
        continue;
      }
      if value.Object? && key in current && current[key].Object? {
        var inner := MergeConfigPreservingSecrets(current[key].fields, value.fields);
        merged := merged[key := Object(inner)];
        continue;
      }
      merged := merged[key := value];
    }
    assert done == incoming.Keys;
    AllMerged(current, incoming);
  }

  lemma NothingMerged(current: JsonObject, incoming: JsonObject)
    ensures MergedSoFar(current, incoming, {}) == current
  {
  }

  lemma AllMerged(current: JsonObject, incoming: JsonObject)
    ensures MergedSoFar(current, incoming, incoming.Keys) == Merge(current, incoming)
  {
    hide MergedValue;
  }

  lemma MergedValueCases(current: JsonObject, key: string, value: Json)
    ensures MergedValue(current, key, value) ==
      if IsSecretKey(key) && IsMaskedSecretValue(value) && key in current then current[key]
      else if value.Object? && key in current && current[key].Object? then
        Object(Merge(current[key].fields, value.fields))
      else value
  {
    hide IsSecretKey, IsMaskedSecretValue, Merge;
  }

  // ----- Laws -----

  lemma MaskIsMasked()
    ensures IsMaskedSecretValue(MASK)
  {
    assert Trim(MASKED_SECRET_VALUE) == MASKED_SECRET_VALUE;
  }

  /** Every secret key, at every depth, carries the mask. */
  predicate AllMasked(v: Json) {
    match v
    case Array(items) => forall i | 0 <= i < |items| :: AllMasked(items[i])
    case Object(fields) => forall k | k in fields :: if IsSecretKey(k) then fields[k] == MASK else AllMasked(fields[k])
    case _ => true
  }

  /** A public view discloses no secret, and masking changes nothing exactly when nothing is disclosed. */
  lemma {:induction false} RedactMasksExactly(v: Json)
    ensures AllMasked(Redact(v))
    ensures Redact(v) == v <==> AllMasked(v)
  {
    hide IsSecretKey, IsMaskedSecretValue;
    match v
    case Array(items) =>
      forall i | 0 <= i < |items|
        ensures AllMasked(Redact(items[i]))
        ensures Redact(items[i]) == items[i] <==> AllMasked(items[i])
      {
        RedactMasksExactly(items[i]);
      }
      var r := Redact(v).items;
      assert r == items <==> forall i | 0 <= i < |items| :: r[i] == items[i];
    case Object(fields) =>
      forall k | k in fields
        ensures AllMasked(Redact(fields[k]))
        ensures Redact(fields[k]) == fields[k] <==> AllMasked(fields[k])
      {
        RedactMasksExactly(fields[k]);
      }
      var r := RedactFields(fields);
      assert r == fields <==> forall k | k in fields :: r[k] == fields[k];
    case _ =>
  }

  lemma {:induction false} RedactCommutesAt(current: JsonObject, incoming: JsonObject, k: string)
    requires k in incoming && !IsSecretKey(k)
    ensures Redact(MergedValue(current, k, incoming[k])) == MergedValue(RedactFields(current), k, Redact(incoming[k]))
    decreases Object(incoming), 0
  {
    hide IsSecretKey, IsMaskedSecretValue;
    if incoming[k].Object? && k in current && current[k].Object? {
      RedactIsHomomorphism(current[k].fields, incoming[k].fields);
      assert Redact(Object(Merge(current[k].fields, incoming[k].fields)))
        == Object(RedactFields(Merge(current[k].fields, incoming[k].fields)));
    }
  }

  /** Masking commutes with merging, so an admin sees the same view whichever comes first. */
  lemma {:induction false} RedactIsHomomorphism(current: JsonObject, incoming: JsonObject)
    ensures RedactFields(Merge(current, incoming)) == Merge(RedactFields(current), RedactFields(incoming))
    decreases Object(incoming), 1
  {
    hide IsSecretKey, IsMaskedSecretValue, Redact;
    MaskIsMasked();
    var left, right := RedactFields(Merge(current, incoming)), Merge(RedactFields(current), RedactFields(incoming));
    forall k | k in left
      ensures left[k] == right[k]
    {
      if k in incoming && !IsSecretKey(k) {
        RedactCommutesAt(current, incoming, k);
      }
    }
  }

  lemma {:induction false} MergeWithSelf(c: JsonObject)
    ensures Merge(c, c) == c
    decreases Object(c)
  {
    hide IsSecretKey, IsMaskedSecretValue;
    forall k | k in c
      ensures MergedValue(c, k, c[k]) == c[k]
    {
      if c[k].Object? {
        MergeWithSelf(c[k].fields);
      }
    }
  }

  /** Saving the same edit twice is saving it once. */
  lemma {:induction false} MergeIsIdempotent(current: JsonObject, incoming: JsonObject)
    ensures Merge(Merge(current, incoming), incoming) == Merge(current, incoming)
    decreases Object(incoming)
  {
    hide IsSecretKey, IsMaskedSecretValue;
    var m := Merge(current, incoming);
    forall k | k in m
      ensures Merge(m, incoming)[k] == m[k]
    {
      if k in incoming && incoming[k].Object? {
        if k in current && current[k].Object? {
          MergeIsIdempotent(current[k].fields, incoming[k].fields);
        } else {
          MergeWithSelf(incoming[k].fields);
        }
      }
    }
  }

  /** At every level where both sides hold an object, the merge has exactly the keys of either side. */
  lemma MergeKeys(current: JsonObject, incoming: JsonObject)
    ensures Merge(current, incoming).Keys == current.Keys + incoming.Keys
    ensures forall k | k in current && k in incoming && current[k].Object? && incoming[k].Object? ::
      Merge(current, incoming)[k] == Object(Merge(current[k].fields, incoming[k].fields))
  {
    hide IsSecretKey;
    forall k | k in current && k in incoming && current[k].Object? && incoming[k].Object?
      ensures Merge(current, incoming)[k] == Object(Merge(current[k].fields, incoming[k].fields))
    {
      assert !IsMaskedSecretValue(incoming[k]);
    }
  }

  /** Every array reached through non-secret object keys discloses nothing. */
  predicate ArraysMasked(c: JsonObject)
    decreases Object(c)
  {
    forall k | k in c && !IsSecretKey(k) ::
      (c[k].Array? ==> AllMasked(c[k])) && (c[k].Object? ==> ArraysMasked(c[k].fields))
  }

  predicate MaskedAt(c: JsonObject, k: string)
    requires k in c
  {
    IsSecretKey(k) ||
    ((c[k].Array? ==> AllMasked(c[k])) && (c[k].Object? ==> ArraysMasked(c[k].fields)))
  }

  lemma {:induction false} SavingRestoresAt(c: JsonObject, k: string)
    requires k in c
    ensures Merge(c, RedactFields(c))[k] == c[k] <==> MaskedAt(c, k)
    decreases Object(c), 0
  {
    hide IsSecretKey, IsMaskedSecretValue, AllMasked;
    MaskIsMasked();
    RedactMasksExactly(c[k]);
    if !IsSecretKey(k) && c[k].Object? {
      SavingUneditedViewRestores(c[k].fields);
      assert Redact(c[k]) == Object(RedactFields(c[k].fields));
    }
  }

  /** Saving back an unedited public view restores the stored configuration, except through arrays. */
  lemma {:induction false} SavingUneditedViewRestores(c: JsonObject)
    ensures Merge(c, RedactFields(c)) == c <==> ArraysMasked(c)
    decreases Object(c), 1
  {
    hide IsSecretKey, IsMaskedSecretValue, AllMasked, MergedValue, Redact;
    var m := Merge(c, RedactFields(c));
    forall k | k in c
      ensures m[k] == c[k] <==> MaskedAt(c, k)
    {
      SavingRestoresAt(c, k);
    }
    assert m == c <==> forall k | k in c :: m[k] == c[k];
    assert ArraysMasked(c) <==> forall k | k in c :: MaskedAt(c, k);
  }

  /** A secret inside an array is overwritten by its mask when the view is saved back. */
  lemma SecretInArrayIsLost(list: string, key: string, password: string)
    requires !IsSecretKey(list) && IsSecretKey(key) && password != MASKED_SECRET_VALUE
    ensures var c := map[list := Array([Object(map[key := String(password)])])];
      Merge(c, RedactFields(c)) == map[list := Array([Object(map[key := MASK])])] != c
  {
    hide IsSecretKey, IsMaskedSecretValue;
    var inner := map[key := String(password)];
    var c := map[list := Array([Object(inner)])];
    assert RedactFields(inner) == map[key := MASK];
    assert Redact(c[list]) == Array([Object(map[key := MASK])]);
    assert Merge(c, RedactFields(c))[list] == Redact(c[list]);
    assert c[list].items[0].fields[key] != MASK;
  }
}
