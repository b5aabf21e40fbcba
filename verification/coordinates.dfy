/** Conversion of NMEA-style packed coordinates `ddmm.mmm` (whole degrees in the
    digits above the hundreds, minutes below) into decimal degrees: `dd_coord`
    of glider_transec_cmd.py. Floating point is idealised as exact reals. */
module Coordinates {

  /** Whole-degree part of a packed value: Python's floor division `x // 100`. */
  function Degrees(x: real): int
  {
    (x / 100.0).Floor
  }

  /** Minute part of a packed value, `x - 100 * (x // 100)`; always in [0, 100). */
  function Minutes(x: real): (m: real)
    ensures 0.0 <= m < 100.0
    ensures x == 100.0 * Degrees(x) as real + m
  {
    x - 100.0 * Degrees(x) as real
  }

  /** Decimal degrees of a packed value: degrees plus minutes / 60. The result
      never falls below the whole degrees `x // 100`, and exceeds them by less
      than 100/60, the most the minute digits can add. */
  function DdCoord(x: real): (dd: real)
    ensures Degrees(x) as real <= dd < Degrees(x) as real + 100.0 / 60.0
  {
    Degrees(x) as real + Minutes(x) / 60.0
  }

  /** A packed value is well formed when its minute part is a real minute count (< 60). */
  predicate WellFormed(x: real)
  {
    Minutes(x) < 60.0
  }

  /** Packs whole degrees `d` and minutes `m` into `ddmm.mmm` form. */
  function Pack(d: int, m: real): real
  {
    100.0 * d as real + m
  }

  /** Packed form of a decimal-degree value: the inverse of `DdCoord`. */
  function ToPacked(dd: real): (x: real)
    ensures WellFormed(x)
    ensures Degrees(x) == dd.Floor
  {
    var d := dd.Floor;
    var m := 60.0 * (dd - d as real);
    PackedParts(d, m);
    Pack(d, m)
  }

  /** Splitting a packed value recovers the degrees and minutes it was packed from. */
  lemma PackedParts(d: int, m: real)
    requires 0.0 <= m < 100.0
    ensures Degrees(Pack(d, m)) == d
    ensures Minutes(Pack(d, m)) == m
  {
    assert Pack(d, m) / 100.0 == d as real + m / 100.0;
  }

  /** For integer `d` and `0 <= m < 100`, `dd_coord(100 * d + m) == d + m / 60`. */
  lemma DdCoordOfPacked(d: int, m: real)
    requires 0.0 <= m < 100.0
    ensures DdCoord(Pack(d, m)) == d as real + m / 60.0
  {
    PackedParts(d, m);
  }

  /** On well-formed input the integer part of the result is `x // 100`. */
  lemma FloorOfDdCoord(x: real)
    requires WellFormed(x)
    ensures DdCoord(x).Floor == Degrees(x)
  {
    var r := DdCoord(x);
    assert Degrees(x) as real <= r < Degrees(x) as real + 1.0;
  }

  /** `DdCoord` is non-decreasing over well-formed packed values. */
  lemma DdCoordMonotone(x: real, y: real)
    requires WellFormed(x) && WellFormed(y)
    requires x <= y
    ensures DdCoord(x) <= DdCoord(y)
  {
    assert x / 100.0 <= y / 100.0;
    assert Degrees(x) <= Degrees(y);
    if Degrees(x) < Degrees(y) {
      FloorOfDdCoord(x);
      FloorOfDdCoord(y);
    }
  }

  /** Without the well-formedness guard `DdCoord` is not monotone: a minute
      part of 99 reads as more than a whole degree. */
  lemma MalformedNotMonotone()
    ensures !WellFormed(99.0)
    ensures DdCoord(99.0) > DdCoord(100.0)
  {
    PackedParts(0, 99.0);
    PackedParts(1, 0.0);
  }

  /** Packing a decimal-degree value and converting it back is the identity. */
  lemma DdCoordOfToPacked(dd: real)
    ensures DdCoord(ToPacked(dd)) == dd
  {
    var d := dd.Floor;
    PackedParts(d, 60.0 * (dd - d as real));
  }

  /** Converting a packed value and packing it again gives it back exactly
      when it was well formed. */
  lemma ToPackedOfDdCoord(x: real)
    ensures ToPacked(DdCoord(x)) == x <==> WellFormed(x)
  {
    if WellFormed(x) {
      FloorOfDdCoord(x);
      assert ToPacked(DdCoord(x)) == Pack(Degrees(x), Minutes(x));
    }
  }
}
