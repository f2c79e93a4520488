/**
 * The app's operations on localStorage, each changing the store in place as
 * app.js does, and each specified by the functions of ChoiceRules.
 */
module ChoiceStore {
  import opened Wrappers
  import opened Calendar
  import opened DateKey
  import opened Rotation
  import opened ChoiceRules
  import opened LocalStorage

  /**
   * getSeed: reports the stored seed; an absent or invalid value is replaced
   * by "D3", written back, and reported. A valid value is left untouched.
   */
  method GetSeed(st: Storage) returns (seed: Choice)
    requires st.Valid()
    modifies st
    ensures st.Valid()
    ensures seed == StoredSeed(old(st.items))
    ensures st.items == HealSeed(old(st.items))
    ensures DecodeStored(Lookup(old(st.items), SeedKey)).Some? ==> st.items == old(st.items) && st.keys == old(st.keys)
    ensures st.keys == AppendNew(old(st.keys), SeedKey)
  {
    var stored := st.GetItem(SeedKey);
    if stored != Some("AD") && stored != Some("D3") {
      st.SetItem(SeedKey, Label(D3));
      seed := D3;
    } else {
      seed := if stored == Some("AD") then AD else D3;
    }
  }

  /**
   * clearAllOverrides: walks the key indices from the last down to 0 and
   * removes each override key. Removing index i shifts only the keys after
   * it, which are already visited, so no key is skipped: afterwards no
   * override key remains and every other key keeps its value and its order.
   */
  method ClearAllOverrides(st: Storage)
    requires st.Valid()
    modifies st
    ensures st.Valid()
    ensures st.items == WithoutOverrides(old(st.items))
    ensures st.keys == NonOverrideKeys(old(st.keys))
  {
    ghost var keys0, items0 := st.keys, st.items;
    var i := st.Length() - 1;
    KeysCount(st.keys, st.items);
    assert st.keys[i + 1..] == [];
    while i >= 0
      invariant st.Valid() && ClearedAbove(st.keys, st.items, keys0, items0, i)
      decreases i
    {
      ClearStep(st, i, keys0, items0);
      i := i - 1;
    }
    Cleared(st.items, st.keys, items0, keys0);
  }

  /**
   * The state of clearAllOverrides' loop at index i: keys up to i untouched,
   * the keys after i cleaned of overrides, every item an original one.
   */
  ghost predicate ClearedAbove(keys: seq<string>, items: map<string, string>,
                               keys0: seq<string>, items0: map<string, string>, i: int) {
    && -1 <= i < |keys| && i < |keys0|
    && keys[..i + 1] == keys0[..i + 1]
    && keys[i + 1..] == NonOverrideKeys(keys0[i + 1..])
    && SubMap(items, items0)
  }

  /** One pass of clearAllOverrides' loop: removes the key at index i when it is an override key. */
  method ClearStep(st: Storage, i: int, ghost keys0: seq<string>, ghost items0: map<string, string>)
    requires st.Valid() && 0 <= i && ClearedAbove(st.keys, st.items, keys0, items0, i)
    modifies st
    ensures st.Valid() && ClearedAbove(st.keys, st.items, keys0, items0, i - 1)
  {
    var key := st.Key(i);
    if key.Some? && key.value != "" && IsOverrideKey(key.value) {
      ghost var before := st.items;
      RemoveStep(st.keys, keys0, i);
      st.RemoveItem(key.value);
      SubMapRemove(before, items0, key.value);
    } else {
      KeepStep(st.keys, keys0, i);
    }
  }

  /** Every entry of a is an entry of b. */
  ghost predicate SubMap(a: map<string, string>, b: map<string, string>) {
    forall k :: k in a ==> k in b && a[k] == b[k]
  }

  /** Removing a key keeps a sub-map a sub-map. */
  lemma SubMapRemove(a: map<string, string>, b: map<string, string>, key: string)
    requires SubMap(a, b)
    ensures SubMap(a - {key}, b)
  {
  }

  /** When the cleaned suffix covers every index, the store holds exactly the non-override items. */
  lemma Cleared(items: map<string, string>, keys: seq<string>,
                origItems: map<string, string>, origKeys: seq<string>)
    requires forall k :: k in items <==> k in keys
    requires forall k :: k in origItems <==> k in origKeys
    requires keys[0..] == NonOverrideKeys(origKeys[0..])
    requires SubMap(items, origItems)
    ensures keys == NonOverrideKeys(origKeys)
    ensures items == WithoutOverrides(origItems)
  {
    assert keys == keys[0..] && origKeys == origKeys[0..];
    SameKeysSameItems(items, WithoutOverrides(origItems), origItems);
  }

  /** Removing the override key at index i extends the cleaned suffix down to i. */
  lemma RemoveStep(keys: seq<string>, orig: seq<string>, i: int)
    requires Distinct(keys) && 0 <= i < |keys| && i < |orig| && IsOverrideKey(keys[i])
    requires keys[..i + 1] == orig[..i + 1]
    requires keys[i + 1..] == NonOverrideKeys(orig[i + 1..])
    ensures Without(keys, keys[i]) == keys[..i] + keys[i + 1..]
    ensures var after := keys[..i] + keys[i + 1..];
      && 0 <= i <= |after| && after[..i] == orig[..i] && after[i..] == NonOverrideKeys(orig[i..])
  {
    WithoutAt(keys, i);
    DropStep(keys, orig, i);
  }

  /** Dropping index i, an override key, leaves the prefix before it and the cleaned suffix from i. */
  lemma DropStep(keys: seq<string>, orig: seq<string>, i: int)
    requires 0 <= i < |keys| && i < |orig| && IsOverrideKey(keys[i])
    requires keys[..i + 1] == orig[..i + 1]
    requires keys[i + 1..] == NonOverrideKeys(orig[i + 1..])
    ensures var after := keys[..i] + keys[i + 1..];
      && 0 <= i <= |after| && after[..i] == orig[..i] && after[i..] == NonOverrideKeys(orig[i..])
  {
    assert keys[i] == keys[..i + 1][i] == orig[..i + 1][i] == orig[i];
    DroppedHead(orig, i);
    var after := keys[..i] + keys[i + 1..];
    assert after[..i] == keys[..i];
    assert after[i..] == keys[i + 1..];
    assert keys[..i] == keys[..i + 1][..i];
    assert orig[..i] == orig[..i + 1][..i];
  }

  /** Keeping the non-override key at index i extends the cleaned suffix down to i. */
  lemma KeepStep(keys: seq<string>, orig: seq<string>, i: int)
    requires 0 <= i < |keys| && i < |orig| && !(keys[i] != "" && IsOverrideKey(keys[i]))
    requires keys[..i + 1] == orig[..i + 1]
    requires keys[i + 1..] == NonOverrideKeys(orig[i + 1..])
    ensures keys[..i] == orig[..i] && keys[i..] == NonOverrideKeys(orig[i..])
  {
    var k := keys[i];
    assert k == keys[..i + 1][i] == orig[..i + 1][i] == orig[i];
    EmptyIsNotOverride();
    assert !IsOverrideKey(k);
    KeptHead(orig, i);
    assert keys[i..] == [k] + keys[i + 1..];
    assert keys[..i] == keys[..i + 1][..i];
    assert orig[..i] == orig[..i + 1][..i];
  }

  /** An override key at the head of a suffix is filtered out. */
  lemma DroppedHead(s: seq<string>, i: int)
    requires 0 <= i < |s| && IsOverrideKey(s[i])
    ensures NonOverrideKeys(s[i..]) == NonOverrideKeys(s[i + 1..])
  {
    NonOverrideKeysCons(s, i);
  }

  /** A non-override key at the head of a suffix survives the filter. */
  lemma KeptHead(s: seq<string>, i: int)
    requires 0 <= i < |s| && !IsOverrideKey(s[i])
    ensures NonOverrideKeys(s[i..]) == [s[i]] + NonOverrideKeys(s[i + 1..])
  {
    NonOverrideKeysCons(s, i);
  }

  /** The empty key lies outside the override namespace. */
  lemma EmptyIsNotOverride()
    ensures !IsOverrideKey("")
  {
    assert |""| < |OverridePrefix|;
  }

  /** Two maps that agree on their keys and take their values from one map are equal. */
  lemma SameKeysSameItems(a: map<string, string>, b: map<string, string>, source: map<string, string>)
    requires forall k :: k in a <==> k in b
    requires forall k :: k in a ==> k in source && a[k] == source[k]
    requires forall k :: k in b ==> k in source && b[k] == source[k]
    ensures a == b
  {
  }

  /** setSeedFromAnchor: stores the new seed, then clears every override. */
  method SetSeedFromAnchor(st: Storage, firstChoice: Choice)
    requires st.Valid()
    modifies st
    ensures st.Valid()
    ensures st.items == WithoutOverrides(old(st.items)[SeedKey := Label(firstChoice)])
    ensures st.keys == NonOverrideKeys(AppendNew(old(st.keys), SeedKey))
    ensures forall d :: ValidDate(d) ==> Resolve(st.items, d) == Resolution(RotatedChoice(d, firstChoice), FromRotation)
  {
    st.SetItem(SeedKey, Label(firstChoice));
    ClearAllOverrides(st);
    forall d | ValidDate(d)
      ensures Resolve(st.items, d) == Resolution(RotatedChoice(d, firstChoice), FromRotation)
    {
      SeedResetResolves(old(st.items), firstChoice, d);
    }
  }

  /** rotatedChoiceFor: the rotation from the seed getSeed reports (healing the seed on the way). */
  method RotatedChoiceFor(st: Storage, d: Date) returns (c: Choice)
    requires st.Valid() && ValidDate(d)
    modifies st
    ensures st.Valid()
    ensures c == RotatedChoice(d, StoredSeed(old(st.items)))
    ensures st.items == HealSeed(old(st.items))
    ensures st.keys == AppendNew(old(st.keys), SeedKey)
  {
    var seed := GetSeed(st);
    var offset := DayNumber(d) - DayNumber(Anchor);
    c := if JsRemainder(offset, 2) == 0 then seed else Other(seed);
  }

  /**
   * getChoiceForDate: the date's override when it holds a valid label,
   * otherwise the rotation. Only the rotation path touches the store, and
   * only to heal the seed.
   */
  method GetChoiceForDate(st: Storage, d: Date) returns (r: Resolution)
    requires st.Valid() && ValidDate(d)
    modifies st
    ensures st.Valid()
    ensures r == Resolve(old(st.items), d)
    ensures st.items == if r.source == FromOverride then old(st.items) else HealSeed(old(st.items))
    ensures st.keys == if r.source == FromOverride then old(st.keys) else AppendNew(old(st.keys), SeedKey)
  {
    var dateKey := FormatDateKey(d);
    var stored := st.GetItem(OverrideKey(dateKey));
    if stored == Some("AD") || stored == Some("D3") {
      r := Resolution(if stored == Some("AD") then AD else D3, FromOverride);
    } else {
      var c := RotatedChoiceFor(st, d);
      r := Resolution(c, FromRotation);
    }
  }

  /** setOverrideForToday: pins the choice of the date with key dateKey. */
  method SetOverrideForToday(st: Storage, dateKey: string, choice: Choice)
    requires st.Valid()
    modifies st
    ensures st.Valid()
    ensures st.items == old(st.items)[OverrideKey(dateKey) := Label(choice)]
    ensures st.keys == AppendNew(old(st.keys), OverrideKey(dateKey))
    ensures forall d :: ValidDate(d) && FormatDateKey(d) == dateKey ==> Resolve(st.items, d) == Resolution(choice, FromOverride)
  {
    st.SetItem(OverrideKey(dateKey), Label(choice));
    forall d | ValidDate(d) && FormatDateKey(d) == dateKey
      ensures Resolve(st.items, d) == Resolution(choice, FromOverride)
    {
      SetOverrideResolves(old(st.items), d, choice, d);
    }
  }

  /**
   * clearOverrideForToday: removes the override of the date with key dateKey
   * (nothing happens when there is none); that date then resolves by rotation.
   */
  method ClearOverrideForToday(st: Storage, dateKey: string)
    requires st.Valid()
    modifies st
    ensures st.Valid()
    ensures st.items == old(st.items) - {OverrideKey(dateKey)}
    ensures st.keys == Without(old(st.keys), OverrideKey(dateKey))
    ensures OverrideKey(dateKey) !in old(st.items) ==> st.items == old(st.items) && st.keys == old(st.keys)
    ensures forall d :: ValidDate(d) && FormatDateKey(d) == dateKey ==> Resolve(st.items, d).source == FromRotation
  {
    st.RemoveItem(OverrideKey(dateKey));
    if OverrideKey(dateKey) !in old(st.items) {
      WithoutAbsent(old(st.keys), OverrideKey(dateKey));
    }
    forall d | ValidDate(d) && FormatDateKey(d) == dateKey
      ensures Resolve(st.items, d).source == FromRotation
    {
      ClearOverrideResolves(old(st.items), d, d);
    }
  }

  /**
   * The today button: pins today to the label other than the one it
   * currently resolves to. Today's choice flips and is now an override;
   * every other date resolves as before.
   */
  method ToggleToday(st: Storage, today: Date)
    requires st.Valid() && ValidDate(today)
    modifies st
    ensures st.Valid()
    ensures var r := Resolve(old(st.items), today);
      && st.items == (if r.source == FromOverride then old(st.items) else HealSeed(old(st.items)))
                     [OverrideKey(FormatDateKey(today)) := Label(Other(r.choice))]
      && st.keys == AppendNew(if r.source == FromOverride then old(st.keys) else AppendNew(old(st.keys), SeedKey),
                              OverrideKey(FormatDateKey(today)))
    ensures Resolve(st.items, today) == Resolution(Other(Resolve(old(st.items), today).choice), FromOverride)
    ensures forall e :: ValidDate(e) && e != today ==> Resolve(st.items, e) == Resolve(old(st.items), e)
  {
    var dateKey := FormatDateKey(today);
    var current := GetChoiceForDate(st, today);
    var next := if current.choice == AD then D3 else AD;
    ghost var mid := st.items;
    SetOverrideForToday(st, dateKey, next);
    forall e | ValidDate(e) && e != today
      ensures Resolve(st.items, e) == Resolve(old(st.items), e)
    {
      SetOverrideResolves(mid, today, next, e);
      HealSeedKeepsResolution(old(st.items), e);
    }
  }
}
