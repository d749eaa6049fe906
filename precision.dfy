/** Precision of a code length and the clamping of coordinates that happens
    before encoding (openlocationcode.cpp, anonymous namespace), over exact
    reals instead of doubles. */
module Precision {
  import opened Arithmetic
  import opened Symbols

  /** pow_neg: base raised to an exponent of either sign. */
  function PowNeg(base: nat, exponent: int): (r: real)
    requires 0 < base
    ensures r > 0.0
    ensures exponent >= 0 ==> r == Pow(base, exponent) as real
    ensures exponent < 0 ==> r * Pow(base, -exponent) as real == 1.0
  {
    if exponent == 0 then 1.0
    else if exponent > 0 then Pow(base, exponent) as real
    else 1.0 / Pow(base, -exponent) as real
  }

  /** compute_precision_for_length: the height in degrees of the area a code
      of this many digits stands for. In the source `codeLength / -2` is a
      C++ division of non-negative by negative, which truncates toward zero,
      so the exponent is 2 - codeLength / 2 with Dafny's division. */
  function ComputePrecisionForLength(codeLength: nat): (r: real)
    ensures r > 0.0
  {
    if codeLength <= PairCodeLength then PowNeg(EncodingBase, 2 - codeLength / 2)
    else PowNeg(EncodingBase, -3) / Pow(5, codeLength - PairCodeLength) as real
  }

  /** From two digits on a code is at most 20 degrees high; each pair of
      digits divides that by 20 and each grid digit by 5. */
  lemma {:induction false} PrecisionValues(codeLength: nat)
    ensures codeLength >= MinimumDigitCount ==> ComputePrecisionForLength(codeLength) <= 20.0
    ensures codeLength <= PairCodeLength ==>
              ComputePrecisionForLength(codeLength) == PowNeg(EncodingBase, 2 - codeLength / 2)
    ensures codeLength > PairCodeLength ==>
              ComputePrecisionForLength(codeLength) * 8000.0 * Pow(5, codeLength - 10) as real == 1.0
  {
    if codeLength <= PairCodeLength {
      var e := 2 - codeLength / 2;
      if e < 0 {
        PowMonotone(EncodingBase, 0, -e);
      }
    } else {
      var k := codeLength - PairCodeLength;
      assert Pow(20, 3) == 8000;
      var p5 := Pow(5, k);
      PowMonotone(5, 0, k);
      assert ComputePrecisionForLength(codeLength) == (1.0 / 8000.0) / p5 as real;
    }
  }

  function RealMin(a: real, b: real): real { if a <= b then a else b }
  function RealMax(a: real, b: real): real { if a >= b then a else b }

  /** adjust_latitude: clamp to [-90, 90], and move the pole itself half a
      cell south so that its code stays inside the grid. */
  function AdjustLatitude(latitude: real, codeLength: nat): (r: real)
    // every code length the callers use (at least 2) lands in [-90, 90)
    ensures codeLength >= MinimumDigitCount ==> -90.0 <= r < 90.0
    // a latitude already inside [-90, 90) is left alone
    ensures -90.0 <= latitude < 90.0 ==> r == latitude
    ensures latitude < -90.0 ==> r == -90.0
    // the pole and beyond: half a cell of this length below the pole
    ensures latitude >= 90.0 ==> r == 90.0 - ComputePrecisionForLength(codeLength) / 2.0
  {
    PrecisionValues(codeLength);
    var clamped := RealMin(90.0, RealMax(-90.0, latitude));
    if clamped < LatitudeMaxDegrees as real then clamped
    else clamped - ComputePrecisionForLength(codeLength) / 2.0
  }

  /** An angle that is a whole number of turns. */
  predicate WholeTurns(angle: real)
  {
    (angle / 360.0).Floor as real == angle / 360.0
  }

  /** The longitude moved by whole turns into [-180, 180). */
  function NormalizedLongitude(longitude: real): (r: real)
    ensures -180.0 <= r < 180.0
    // only whole turns are added or taken away
    ensures WholeTurns(r - longitude)
    ensures -180.0 <= longitude < 180.0 ==> r == longitude
  {
    var turns := ((longitude + 180.0) / 360.0).Floor;
    TurnsBounds(longitude, turns);
    longitude - 360.0 * turns as real
  }

  /** Taking away the turns counted by the floor lands in [-180, 180). */
  lemma TurnsBounds(longitude: real, turns: int)
    requires turns == ((longitude + 180.0) / 360.0).Floor
    ensures -180.0 <= longitude - 360.0 * turns as real < 180.0
    ensures WholeTurns(-360.0 * turns as real)
  {
    var y := (longitude + 180.0) / 360.0;
    assert turns as real <= y < turns as real + 1.0;
    assert longitude + 180.0 == 360.0 * y;
    assert (-360.0 * turns as real) / 360.0 == (-turns) as real;
  }

  /** Whole turns away from a longitude, only one value lies in
      [-180, 180). */
  lemma NormalizedLongitudeUnique(longitude: real, r: real, turns: int)
    requires r == longitude + 360.0 * turns as real && -180.0 <= r < 180.0
    ensures r == NormalizedLongitude(longitude)
  {
    var y := (r + 180.0) / 360.0;
    assert 0.0 <= y < 1.0;
    assert (longitude + 180.0) / 360.0 == y - turns as real;
    assert ((longitude + 180.0) / 360.0).Floor == -turns;
  }

  /** normalize_longitude, with the source's two loops. */
  method NormalizeLongitude(longitude: real) returns (r: real)
    ensures r == NormalizedLongitude(longitude)
  {
    r := longitude;
    ghost var turns := 0;
    while r < -(LongitudeMaxDegrees as real)
      invariant r == longitude + 360.0 * turns as real
      decreases (-r).Floor
    {
      r := r + 360.0;
      turns := turns + 1;
    }
    while r >= LongitudeMaxDegrees as real
      invariant r == longitude + 360.0 * turns as real
      invariant r >= -180.0
      decreases r.Floor
    {
      r := r - 360.0;
      turns := turns - 1;
    }
    NormalizedLongitudeUnique(longitude, r, turns);
  }

  /** The conversion of a double to int64: truncation toward zero. */
  function TruncateToInt(x: real): (i: int)
    ensures x >= 0.0 ==> i >= 0 && i as real <= x < i as real + 1.0
  {
    if x >= 0.0 then x.Floor else -((-x).Floor)
  }

  /** lat_val: the latitude shifted to [0, 180) and scaled to units of the
      last grid digit. */
  function LatitudeToFixed(latitude: real): (v: int)
    ensures latitude >= -90.0 ==>
              v >= 0 && v as real <= (latitude + 90.0) * GridLatPrecisionInverse as real < v as real + 1.0
    ensures -90.0 <= latitude < 90.0 ==> v < 180 * GridLatPrecisionInverse
  {
    TruncateToInt(LatitudeMaxDegrees as real * GridLatPrecisionInverse as real
                  + latitude * GridLatPrecisionInverse as real)
  }

  /** lng_val: the longitude shifted to [0, 360) and scaled to units of the
      last grid digit. */
  function LongitudeToFixed(longitude: real): (v: int)
    ensures longitude >= -180.0 ==>
              v >= 0 && v as real <= (longitude + 180.0) * GridLngPrecisionInverse as real < v as real + 1.0
    ensures -180.0 <= longitude < 180.0 ==> v < 360 * GridLngPrecisionInverse
  {
    TruncateToInt(LongitudeMaxDegrees as real * GridLngPrecisionInverse as real
                  + longitude * GridLngPrecisionInverse as real)
  }
}
