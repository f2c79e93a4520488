/**
 * What the stored items mean: the storage keys, the seed with its default,
 * and the resolution of a date's choice from an override or the rotation.
 * These functions specify the methods of ChoiceStore, which work on the
 * store in place.
 */
module ChoiceRules {
  import opened Wrappers
  import opened Calendar
  import opened DateKey
  import opened Rotation
  import opened LocalStorage

  const StoragePrefix: string := "eatWhat."

  /** Where the seed (the anchor date's choice) is stored. */
  const SeedKey: string := StoragePrefix + "seedFirstChoice"

  /** Every per-date override key starts with this. */
  const OverridePrefix: string := StoragePrefix + "override."

  /** key.startsWith("eatWhat.override.") */
  predicate IsOverrideKey(k: string) {
    OverridePrefix <= k
  }

  /** overrideKey: the storage key of the override for a date key. */
  function OverrideKey(dateKey: string): (k: string)
    ensures IsOverrideKey(k) && k[|OverridePrefix|..] == dateKey
  {
    OverridePrefix + dateKey
  }

  /** Where a resolved choice came from. */
  datatype Source = FromOverride | FromRotation

  datatype Resolution = Resolution(choice: Choice, source: Source)

  /** A stored string that reads as a choice. */
  function DecodeStored(v: Option<string>): (r: Option<Choice>)
    ensures r.Some? ==> v == Some(Label(r.value))
    ensures v.Some? && (v.value == "AD" || v.value == "D3") ==> r.Some?
  {
    match v
    case None => None
    case Some(s) => Decode(s)
  }

  /** The seed getSeed reports: the stored label when it is "AD" or "D3", otherwise "D3". */
  function StoredSeed(items: map<string, string>): (c: Choice)
    ensures DecodeStored(Lookup(items, SeedKey)).Some? ==> Label(c) == items[SeedKey]
    ensures DecodeStored(Lookup(items, SeedKey)).None? ==> c == D3
  {
    match DecodeStored(Lookup(items, SeedKey))
    case Some(c) => c
    case None => D3
  }

  /** The store after getSeed: an absent or invalid seed replaced by "D3", nothing else touched. */
  function HealSeed(items: map<string, string>): map<string, string> {
    if DecodeStored(Lookup(items, SeedKey)).Some? then items else items[SeedKey := Label(D3)]
  }

  /** The override stored for a date, when its value is a valid label. */
  function OverrideFor(items: map<string, string>, d: Date): Option<Choice>
    requires ValidDate(d)
  {
    DecodeStored(Lookup(items, OverrideKey(FormatDateKey(d))))
  }

  /**
   * getChoiceForDate: a valid override for the date wins; otherwise the
   * rotation from the stored seed decides.
   */
  function Resolve(items: map<string, string>, d: Date): (r: Resolution)
    requires ValidDate(d)
    ensures r.source == FromOverride
        <==> OverrideKey(FormatDateKey(d)) in items && Decode(items[OverrideKey(FormatDateKey(d))]).Some?
    ensures r.source == FromOverride ==> items[OverrideKey(FormatDateKey(d))] == Label(r.choice)
    ensures r.source == FromRotation ==> r.choice == RotatedChoice(d, StoredSeed(items))
  {
    match OverrideFor(items, d)
    case Some(c) => Resolution(c, FromOverride)
    case None => Resolution(RotatedChoice(d, StoredSeed(items)), FromRotation)
  }

  /** The store with every override key removed (clearAllOverrides). */
  function WithoutOverrides(items: map<string, string>): (r: map<string, string>)
    ensures forall k :: k in r <==> k in items && !IsOverrideKey(k)
    ensures forall k :: k in r ==> r[k] == items[k]
  {
    map k | k in items && !IsOverrideKey(k) :: items[k]
  }

  /** The keys of s that are not override keys, in their order. */
  function NonOverrideKeys(s: seq<string>): (r: seq<string>)
    ensures forall k :: k in r <==> k in s && !IsOverrideKey(k)
  {
    if s == [] then []
    else (if IsOverrideKey(s[0]) then [] else [s[0]]) + NonOverrideKeys(s[1..])
  }

  // ---------------------------------------------------------------------------

  /** The seed key lives outside the override namespace. */
  lemma SeedKeyIsNotOverride()
    ensures !IsOverrideKey(SeedKey)
  {
    assert SeedKey[8] != OverridePrefix[8];
  }

  /** Different date keys have different override keys. */
  lemma OverrideKeyInjective(a: string, b: string)
    ensures OverrideKey(a) == OverrideKey(b) <==> a == b
  {
  }

  /** The override key of a date belongs to that date alone. */
  lemma OverrideKeyOfDate(d: Date, e: Date)
    requires ValidDate(d) && ValidDate(e)
    ensures OverrideKey(FormatDateKey(d)) == OverrideKey(FormatDateKey(e)) <==> d == e
  {
    OverrideKeyInjective(FormatDateKey(d), FormatDateKey(e));
    DateKeyInjective(d, e);
  }

  /** After healing, the seed is stored validly and is the one that was reported. */
  lemma HealSeedStoresSeed(items: map<string, string>)
    ensures SeedKey in HealSeed(items)
    ensures HealSeed(items)[SeedKey] == Label(StoredSeed(items))
    ensures StoredSeed(HealSeed(items)) == StoredSeed(items)
    ensures HealSeed(HealSeed(items)) == HealSeed(items)
    ensures forall k :: k != SeedKey ==> Lookup(HealSeed(items), k) == Lookup(items, k)
  {
  }

  /** Healing the seed changes no date's resolution. */
  lemma HealSeedKeepsResolution(items: map<string, string>, d: Date)
    requires ValidDate(d)
    ensures Resolve(HealSeed(items), d) == Resolve(items, d)
  {
    SeedKeyIsNotOverride();
    HealSeedStoresSeed(items);
    assert Lookup(HealSeed(items), OverrideKey(FormatDateKey(d))) == Lookup(items, OverrideKey(FormatDateKey(d)));
  }

  /** A key outside the override namespace never changes a date's override. */
  lemma OtherKeyKeepsOverride(items: map<string, string>, k: string, v: string, d: Date)
    requires ValidDate(d) && !IsOverrideKey(k)
    ensures OverrideFor(items[k := v], d) == OverrideFor(items, d)
    ensures OverrideFor(items - {k}, d) == OverrideFor(items, d)
  {
    assert k != OverrideKey(FormatDateKey(d));
  }

  /**
   * Setting the override of date d makes d resolve to it, and every other
   * date resolves as before.
   */
  lemma SetOverrideResolves(items: map<string, string>, d: Date, c: Choice, e: Date)
    requires ValidDate(d) && ValidDate(e)
    ensures Resolve(items[OverrideKey(FormatDateKey(d)) := Label(c)], d) == Resolution(c, FromOverride)
    ensures e != d ==> Resolve(items[OverrideKey(FormatDateKey(d)) := Label(c)], e) == Resolve(items, e)
  {
    OverrideKeyOfDate(d, e);
    SeedKeyIsNotOverride();
    DecodeLabel(c);
    var after := items[OverrideKey(FormatDateKey(d)) := Label(c)];
    assert Lookup(after, SeedKey) == Lookup(items, SeedKey);
  }

  /**
   * Clearing the override of date d makes d resolve by rotation, and every
   * other date resolves as before; clearing an absent override changes nothing.
   */
  lemma ClearOverrideResolves(items: map<string, string>, d: Date, e: Date)
    requires ValidDate(d) && ValidDate(e)
    ensures Resolve(items - {OverrideKey(FormatDateKey(d))}, d)
         == Resolution(RotatedChoice(d, StoredSeed(items)), FromRotation)
    ensures e != d ==> Resolve(items - {OverrideKey(FormatDateKey(d))}, e) == Resolve(items, e)
    ensures OverrideKey(FormatDateKey(d)) !in items ==> items - {OverrideKey(FormatDateKey(d))} == items
  {
    OverrideKeyOfDate(d, e);
    SeedKeyIsNotOverride();
    var after := items - {OverrideKey(FormatDateKey(d))};
    assert Lookup(after, SeedKey) == Lookup(items, SeedKey);
  }

  /** After the seed is reset to c and the overrides cleared, every date resolves by rotation from c. */
  lemma SeedResetResolves(items: map<string, string>, c: Choice, d: Date)
    requires ValidDate(d)
    ensures Resolve(WithoutOverrides(items[SeedKey := Label(c)]), d) == Resolution(RotatedChoice(d, c), FromRotation)
  {
    SeedKeyIsNotOverride();
    DecodeLabel(c);
    var after := WithoutOverrides(items[SeedKey := Label(c)]);
    assert Lookup(after, SeedKey) == Some(Label(c));
    assert OverrideKey(FormatDateKey(d)) !in after;
  }

  /** Writing the other label of today's resolved choice as an override flips today's choice. */
  lemma ToggleFlips(items: map<string, string>, d: Date)
    requires ValidDate(d)
    ensures var next := Other(Resolve(items, d).choice);
      && Resolve(items[OverrideKey(FormatDateKey(d)) := Label(next)], d) == Resolution(next, FromOverride)
      && Resolve(items[OverrideKey(FormatDateKey(d)) := Label(next)], d).choice != Resolve(items, d).choice
  {
    SetOverrideResolves(items, d, Other(Resolve(items, d).choice), d);
  }

  /**
   * The filter keeps order: filtering a concatenation filters each part and
   * keeps the first part's survivors before the second's.
   */
  lemma {:induction false} NonOverrideKeysAppend(a: seq<string>, b: seq<string>)
    ensures NonOverrideKeys(a + b) == NonOverrideKeys(a) + NonOverrideKeys(b)
    decreases |a|
  {
    if a == [] {
      assert a + b == b;
    } else {
      assert (a + b)[0] == a[0];
      assert (a + b)[1..] == a[1..] + b;
      NonOverrideKeysAppend(a[1..], b);
    }
  }

  /** The first element of a filtered suffix decides whether the key stays. */
  lemma NonOverrideKeysCons(s: seq<string>, i: int)
    requires 0 <= i < |s|
    ensures NonOverrideKeys(s[i..])
         == (if IsOverrideKey(s[i]) then [] else [s[i]]) + NonOverrideKeys(s[i + 1..])
  {
    assert s[i..][1..] == s[i + 1..];
  }
}
