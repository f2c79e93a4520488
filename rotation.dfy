/**
 * The two labels and the day-by-day rotation between them: the seed label on
 * the anchor date 2025-12-30 and on every date an even number of days away
 * from it, the other label on the rest.
 */
module Rotation {
  import opened Wrappers
  import opened Calendar
  import opened DateKey

  /** The two choices, stored as the strings "AD" and "D3". */
  datatype Choice = AD | D3

  /** The label that is not c (`seedFirst === "AD" ? "D3" : "AD"`). */
  function Other(c: Choice): (r: Choice)
    ensures r != c
  {
    if c == AD then D3 else AD
  }

  /** The stored form of a choice. */
  function Label(c: Choice): string {
    match c
    case AD => "AD"
    case D3 => "D3"
  }

  /**
   * Reads a stored string: exactly "AD" or "D3" is a choice, anything else
   * (including a missing value, handled by the caller) is not.
   */
  function Decode(s: string): (r: Option<Choice>)
    ensures forall c :: r == Some(c) <==> s == Label(c)
  {
    if s == "AD" then Some(AD) else if s == "D3" then Some(D3) else None
  }

  /** The fixed anchor date, whose own choice is the seed. */
  const Anchor: Date := Date(2025, 12, 30)

  /** The label shown for the anchor, each field padded as formatDateKey pads it. */
  function AnchorLabel(): (s: string)
    ensures ParseDateKey(s) == Some(Anchor)
  {
    DateKeyRoundTrip(Anchor);
    IntToDecimal(Anchor.year) + "-" + PadStart2(NatToDecimal(Anchor.month))
      + "-" + PadStart2(NatToDecimal(Anchor.day))
  }

  /** JavaScript's `%`: truncating division, so the remainder takes the sign of the dividend. */
  function JsRemainder(a: int, b: int): (r: int)
    requires b != 0
    ensures a >= 0 ==> 0 <= r
    ensures a <= 0 ==> r <= 0
    ensures -(if b < 0 then -b else b) < r < (if b < 0 then -b else b)
    ensures (a - r) % (if b < 0 then -b else b) == 0
  {
    var m := if b < 0 then -b else b;
    var r := if a >= 0 then a % m else -((-a) % m);
    RemainderCongruent(a, m, r);
    r
  }

  /** The dividend and its truncated remainder r differ by a multiple of the modulus. */
  lemma RemainderCongruent(a: int, m: int, r: int)
    requires m > 0 && r == if a >= 0 then a % m else -((-a) % m)
    ensures (a - r) % m == 0
  {
    var q := if a >= 0 then a / m else -((-a) / m);
    if a >= 0 {
      assert a == m * (a / m) + a % m;
    } else {
      assert -a == m * ((-a) / m) + (-a) % m;
    }
    assert a - r == m * q;
    MultipleOfModulus(q, m);
  }

  /** A multiple of m leaves no remainder modulo m. */
  lemma MultipleOfModulus(q: int, m: int)
    requires m > 0
    ensures (m * q) % m == 0
  {
    var r := (m * q) % m;
    var t := q - (m * q) / m;
    assert m * q == m * ((m * q) / m) + r;
    assert r == m * t;
  }

  /** `offset % 2 === 0` is an exact evenness test even for negative offsets. */
  lemma JsRemainderParity(a: int)
    ensures JsRemainder(a, 2) == 0 <==> a % 2 == 0
  {
    if a < 0 {
      assert (-a) % 2 == 0 <==> a % 2 == 0;
    }
  }

  /** Signed distance in days from the anchor to d. */
  function Offset(d: Date): int
    requires ValidDate(d)
  {
    DayNumber(d) - DayNumber(Anchor)
  }

  /**
   * rotatedChoiceFor given the seed: the seed on dates an even number of days
   * from the anchor, the other label on the others.
   */
  function RotatedChoice(d: Date, seed: Choice): (r: Choice)
    requires ValidDate(d)
    ensures r == seed <==> Offset(d) % 2 == 0
  {
    JsRemainderParity(Offset(d));
    if JsRemainder(Offset(d), 2) == 0 then seed else Other(seed)
  }

  // ---------------------------------------------------------------------------

  /** The anchor date gets the seed. */
  lemma AnchorIdentity(seed: Choice)
    ensures RotatedChoice(Anchor, seed) == seed
  {
  }

  /** Parity of a sum: o + k is as even as o exactly when k is even. */
  lemma ParityShift(o: int, k: int)
    ensures ((o + k) % 2 == 0 <==> o % 2 == 0) <==> k % 2 == 0
  {
  }

  /** Rotation given the parity of the offsets: dates whose offsets differ by k. */
  lemma RotationByDistance(a: Date, b: Date, k: int, seed: Choice)
    requires ValidDate(a) && ValidDate(b) && Offset(b) == Offset(a) + k
    ensures RotatedChoice(b, seed)
         == if k % 2 == 0 then RotatedChoice(a, seed) else Other(RotatedChoice(a, seed))
  {
    ParityShift(Offset(a), k);
  }

  /** The choice flips from each calendar day to the next, before the anchor too. */
  lemma Alternation(d: Date, seed: Choice)
    requires ValidDate(d)
    ensures RotatedChoice(NextDay(d), seed) == Other(RotatedChoice(d, seed))
  {
    DayNumberNext(d);
    RotationByDistance(d, NextDay(d), 1, seed);
  }

  /** The choice of d + k days is the seed's when k is even, the other label's when k is odd. */
  lemma RotationAfterDays(d: Date, k: int, seed: Choice)
    requires ValidDate(d)
    ensures RotatedChoice(AddDays(d, k), seed)
         == if k % 2 == 0 then RotatedChoice(d, seed) else Other(RotatedChoice(d, seed))
  {
    DayNumberAddDays(d, k);
    RotationByDistance(d, AddDays(d, k), k, seed);
  }

  /** The days k before and k after the anchor get the same choice. */
  lemma SymmetryAroundAnchor(k: nat, seed: Choice)
    ensures RotatedChoice(AddDays(Anchor, -(k as int)), seed) == RotatedChoice(AddDays(Anchor, k), seed)
  {
    RotationAfterDays(Anchor, k, seed);
    RotationAfterDays(Anchor, -(k as int), seed);
    ParityShift(0, k);
    ParityShift(k, -(k as int));
  }

  /** Two dates get the same choice exactly when they lie an even number of days apart. */
  lemma SameChoiceIffEvenDistance(a: Date, b: Date, seed: Choice)
    requires ValidDate(a) && ValidDate(b)
    ensures RotatedChoice(a, seed) == RotatedChoice(b, seed)
        <==> (DayNumber(b) - DayNumber(a)) % 2 == 0
  {
    RotationByDistance(a, b, DayNumber(b) - DayNumber(a), seed);
  }

  /** The anchor 2025-12-30 is day 20452 after 1970-01-01, a Tuesday; its label is "2025-12-30". */
  lemma AnchorFacts()
    ensures DayNumber(Anchor) == 20452
    ensures Weekday(Anchor) == 2 && WeekdayIndexMondayFirst(Anchor) == 1
    ensures AnchorLabel() == "2025-12-30"
  {
  }

  /** Reading a stored label gives the choice back. */
  lemma DecodeLabel(c: Choice)
    ensures Decode(Label(c)) == Some(c)
  {
  }
}
