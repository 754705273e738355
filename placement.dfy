/**
 * Deterministic placement of a meteor on the map from its id.
 *
 * The page has no real impact location for a near-Earth object, so it hashes
 * the object's id string (a Java-style polynomial hash over UTF-16 code units,
 * reduced to an unsigned 32-bit value after every step) and splits the hash
 * into a latitude bucket and a longitude bucket.
 *
 * Positions are kept in hundredths of a degree: each bucket is scaled by
 * exactly 1/100 of a degree (150/15000 and 360/36000), so the value the page
 * obtains after rounding to six decimals is always a whole number of
 * centidegrees.
 */
module Placement {

  /** A UTF-16 code unit, the value JavaScript's charCodeAt returns. */
  type CodeUnit = c: int | 0 <= c < 0x1_0000

  /** `>>> 0` keeps the hash as an unsigned 32-bit integer. */
  const Modulus: nat := 0x1_0000_0000

  /** Latitude buckets: 150 degrees in steps of 0.01. */
  const LatBuckets: nat := 15000

  /** Longitude buckets: 360 degrees in steps of 0.01. */
  const LonBuckets: nat := 36000

  /** Number of distinct map cells a hash can land in. */
  const Cells: nat := 540_000_000

  /** A map position in hundredths of a degree. */
  datatype LatLng = LatLng(lat: int, lon: int)

  /** Latitude in [-75, 74.99], longitude in [-180, 179.99]. */
  predicate InRange(p: LatLng) {
    -7500 <= p.lat < 7500 && -18000 <= p.lon < 18000
  }

  /** One turn of the hash loop: h = (h * 31 + c) >>> 0. */
  function Step(h: nat, c: CodeUnit): (r: nat)
    ensures r < Modulus
  {
    (h * 31 + c) % Modulus
  }

  /** The loop's value after reading every code unit of `id`, starting from 0. */
  function Hash(id: seq<CodeUnit>): (h: nat)
    ensures h < Modulus
    decreases |id|
  {
    if id == [] then 0 else Step(Hash(id[..|id| - 1]), id[|id| - 1])
  }

  /** Left fold of Step over `units`, consuming them from the front. */
  function FoldSteps(h: nat, units: seq<CodeUnit>): nat
    decreases |units|
  {
    if units == [] then h else FoldSteps(Step(h, units[0]), units[1..])
  }

  /** 31 raised to the n-th power. */
  function Pow31(n: nat): nat {
    if n == 0 then 1 else 31 * Pow31(n - 1)
  }

  /** The textbook string hash without wrap-around: the sum of id[i] * 31^(n-1-i). */
  function Polynomial(id: seq<CodeUnit>): nat
    decreases |id|
  {
    if id == [] then 0 else id[0] * Pow31(|id| - 1) + Polynomial(id[1..])
  }

  /** Maps a 32-bit hash to its map cell, as the page does. */
  function Place(h: nat): (p: LatLng)
    ensures InRange(p)
  {
    LatLng(h % LatBuckets - 7500, (h / LatBuckets) % LonBuckets - 18000)
  }

  /** The position the page gives to the meteor with this id. */
  function LatLngOf(id: seq<CodeUnit>): (p: LatLng)
    ensures InRange(p)
  {
    Place(Hash(id))
  }

  /** The cell number of an in-range position: inverse of Place on [0, Cells). */
  function CellOf(p: LatLng): (c: nat)
    requires InRange(p)
    ensures c < Cells
  {
    (p.lon + 18000) * LatBuckets + (p.lat + 7500)
  }

  /** Degrees from centidegrees, exactly. */
  function Degrees(centi: int): real {
    centi as real / 100.0
  }

  /** The page's latitude formula evaluated in exact arithmetic. */
  function FormulaLatitude(h: nat): real {
    ((h % 15000) as real / 15000.0) * 150.0 - 75.0
  }

  /** The page's longitude formula evaluated in exact arithmetic. */
  function FormulaLongitude(h: nat): real {
    (((h / 15000) % 36000) as real / 36000.0) * 360.0 - 180.0
  }

  /**
   * The page's idToLatLng: the hash loop, then the bucket split.
   * The result is the specification function LatLngOf; the empty id lands in
   * the south-west corner of the range.
   */
  method IdToLatLng(id: seq<CodeUnit>) returns (p: LatLng)
    ensures p == LatLngOf(id)
    ensures InRange(p)
    ensures id == [] ==> p == LatLng(-7500, -18000)
  {
    var h: nat := 0;
    var i := 0;
    while i < |id|
      invariant 0 <= i <= |id|
      invariant h < Modulus
      invariant h == Hash(id[..i])
    {
      assert id[..i + 1][..i] == id[..i];
      h := (h * 31 + id[i]) % Modulus;
      i := i + 1;
    }
    assert id[..|id|] == id;
    var latBucket := h % LatBuckets;
    var lonBucket := (h / LatBuckets) % LonBuckets;
    p := LatLng(latBucket - 7500, lonBucket - 18000);
  }

  /** Folding the rest of an id onto the hash of its prefix gives the hash of the whole id. */
  lemma {:induction false} FoldExtends(prefix: seq<CodeUnit>, rest: seq<CodeUnit>)
    ensures FoldSteps(Hash(prefix), rest) == Hash(prefix + rest)
    decreases |rest|
  {
    if rest == [] {
      assert prefix + rest == prefix;
    } else {
      var longer := prefix + [rest[0]];
      assert longer[..|longer| - 1] == prefix;
      FoldExtends(longer, rest[1..]);
      assert longer + rest[1..] == prefix + rest;
    }
  }

  /** The hash is the left fold of h -> (h * 31 + c) mod 2^32 from 0. */
  lemma HashIsLeftFold(id: seq<CodeUnit>)
    ensures Hash(id) == FoldSteps(0, id)
  {
    FoldExtends([], id);
    assert [] + id == id;
  }

  /** Appending one code unit multiplies the polynomial by 31 and adds the unit. */
  lemma {:induction false} PolynomialAppend(id: seq<CodeUnit>, c: CodeUnit)
    ensures Polynomial(id + [c]) == Polynomial(id) * 31 + c
    decreases |id|
  {
    if id == [] {
      assert [] + [c] == [c];
    } else {
      var longer := id + [c];
      assert longer[1..] == id[1..] + [c];
      PolynomialAppend(id[1..], c);
      calc {
        Polynomial(longer);
        id[0] * Pow31(|id|) + Polynomial(id[1..]) * 31 + c;
        { assert Pow31(|id|) == 31 * Pow31(|id| - 1); }
        id[0] * (31 * Pow31(|id| - 1)) + Polynomial(id[1..]) * 31 + c;
        (id[0] * Pow31(|id| - 1) + Polynomial(id[1..])) * 31 + c;
      }
    }
  }

  /** Reducing after every step equals reducing once at the end. */
  lemma ModStep(x: nat, c: CodeUnit)
    ensures ((x % Modulus) * 31 + c) % Modulus == (x * 31 + c) % Modulus
  {
  }

  /** The loop computes the Java string hash modulo 2^32. */
  lemma {:induction false} HashIsPolynomial(id: seq<CodeUnit>)
    ensures Hash(id) == Polynomial(id) % Modulus
    decreases |id|
  {
    if id != [] {
      var prefix, c := id[..|id| - 1], id[|id| - 1];
      assert prefix + [c] == id;
      HashIsPolynomial(prefix);
      PolynomialAppend(prefix, c);
      ModStep(Polynomial(prefix), c);
    }
  }

  /** Ids that differ only in their last code unit never share a hash. */
  lemma LastUnitSeparates(prefix: seq<CodeUnit>, c1: CodeUnit, c2: CodeUnit)
    requires c1 != c2
    ensures Hash(prefix + [c1]) != Hash(prefix + [c2])
  {
  }

  /** Both coordinates, as the page's formulas give them, are whole centidegrees. */
  lemma ExactHundredths(h: nat)
    ensures Degrees(Place(h).lat) == FormulaLatitude(h)
    ensures Degrees(Place(h).lon) == FormulaLongitude(h)
  {
  }

  /** Reading a position back as a cell recovers the hash modulo the number of cells. */
  lemma CellOfPlace(h: nat)
    ensures CellOf(Place(h)) == h % Cells
  {
  }

  /** Placing a cell number gives back the position it was read from. */
  lemma PlaceOfCell(p: LatLng)
    requires InRange(p)
    ensures Place(CellOf(p)) == p
  {
  }

  /** Two hashes share a map position exactly when they agree modulo the number of cells. */
  lemma SamePlaceIff(h1: nat, h2: nat)
    ensures Place(h1) == Place(h2) <==> h1 % Cells == h2 % Cells
  {
    CellOfPlace(h1);
    CellOfPlace(h2);
    if h1 % Cells == h2 % Cells {
      PlaceOfCell(Place(h1));
      PlaceOfCell(Place(h2));
    }
  }

  /** Every position of the range is the placement of some 32-bit hash. */
  lemma EveryPositionReached(p: LatLng)
    requires InRange(p)
    ensures exists h: nat :: h < Modulus && Place(h) == p
  {
    PlaceOfCell(p);
    assert CellOf(p) < Modulus;
  }

  /** The empty id keeps the hash at 0 and lands in the south-west corner. */
  lemma EmptyIdCorner()
    ensures Hash([]) == 0
    ensures LatLngOf([]) == LatLng(-7500, -18000)
  {
  }

  /**
   * A worked example with wrap-around: the id "2000433" (code units of the
   * digits) hashes to 2845520918 and lands at latitude -15.82, longitude -82.99.
   */
  lemma {:induction false} ExampleId()
    ensures Hash([50, 48, 48, 48, 52, 51, 51]) == 2845520918
    ensures LatLngOf([50, 48, 48, 48, 52, 51, 51]) == LatLng(-1582, -8299)
  {
    var p1: seq<CodeUnit> := [50];
    var p2: seq<CodeUnit> := p1 + [48];
    var p3: seq<CodeUnit> := p2 + [48];
    var p4: seq<CodeUnit> := p3 + [48];
    var p5: seq<CodeUnit> := p4 + [52];
    var p6: seq<CodeUnit> := p5 + [51];
    var id: seq<CodeUnit> := p6 + [51];
    assert p1[..0] == [];
    assert Hash(p1) == 50;
    assert p2[..1] == p1;
    assert Hash(p2) == Step(50, 48) == 1598;
    assert p3[..2] == p2;
    assert Hash(p3) == Step(1598, 48) == 49586;
    assert p4[..3] == p3;
    assert Hash(p4) == Step(49586, 48) == 1537214;
    assert p5[..4] == p4;
    assert Hash(p5) == Step(1537214, 52) == 47653686;
    assert p6[..5] == p5;
    assert Hash(p6) == Step(47653686, 51) == 1477264317;
    assert id[..6] == p6;
    assert Hash(id) == Step(1477264317, 51) == 2845520918;
    assert id == [50, 48, 48, 48, 52, 51, 51];
  }
}
