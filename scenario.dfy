/**
 * A client of the store: the worked example of the rotation with the anchor
 * 2025-12-30 and the default seed "D3", an override, and a seed reset.
 */
module Scenario {
  import opened Calendar
  import opened DateKey
  import opened Rotation
  import opened ChoiceRules
  import opened LocalStorage
  import opened ChoiceStore

  /** The three days of the example in rotation: the anchor, then alternating. */
  lemma ExampleRotation(seed: Choice)
    ensures RotatedChoice(Date(2025, 12, 30), seed) == seed
    ensures RotatedChoice(Date(2025, 12, 31), seed) == Other(seed)
    ensures RotatedChoice(Date(2026, 1, 1), seed) == seed
  {
    AnchorIdentity(seed);
    assert NextDay(Anchor) == Date(2025, 12, 31);
    Alternation(Anchor, seed);
    assert NextDay(Date(2025, 12, 31)) == Date(2026, 1, 1);
    Alternation(Date(2025, 12, 31), seed);
  }

  /** A store holding only the seed has no override for any date. */
  lemma SeedOnlyResolves(seed: Choice, d: Date)
    requires ValidDate(d)
    ensures Resolve(map[SeedKey := Label(seed)], d) == Resolution(RotatedChoice(d, seed), FromRotation)
  {
    SeedKeyIsNotOverride();
    DecodeLabel(seed);
    assert OverrideKey(FormatDateKey(d)) != SeedKey;
  }

  method WorkedExample() {
    var st := new Storage();
    var dec30, dec31, jan1 := Date(2025, 12, 30), Date(2025, 12, 31), Date(2026, 1, 1);
    ExampleRotation(D3);
    ExampleRotation(AD);

    var r := GetChoiceForDate(st, dec30);
    assert r == Resolution(D3, FromRotation);
    assert st.items == map[SeedKey := "D3"];
    SeedOnlyResolves(D3, dec31);
    SeedOnlyResolves(D3, jan1);
    r := GetChoiceForDate(st, dec31);
    assert r == Resolution(AD, FromRotation);
    r := GetChoiceForDate(st, jan1);
    assert r == Resolution(D3, FromRotation);

    SetOverrideForToday(st, FormatDateKey(dec31), D3);
    r := GetChoiceForDate(st, dec31);
    assert r == Resolution(D3, FromOverride);

    SetSeedFromAnchor(st, AD);
    r := GetChoiceForDate(st, dec30);
    assert r == Resolution(AD, FromRotation);
    r := GetChoiceForDate(st, dec31);
    assert r == Resolution(D3, FromRotation);
  }
}
