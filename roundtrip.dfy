/** Encode followed by Decode: the decoded area contains the point that was
    encoded, it has as many digits as were asked for, and it is as high as
    the precision of that many digits. */
module RoundTrip {
  import opened Arithmetic
  import opened Symbols
  import opened CodeAreas
  import opened Precision
  import opened Encoder
  import opened Decoder

  /** The m leading pair digits of a value below 20^5, read back at their
      place values, round it down to a multiple of 20^(5-m). */
  lemma PairSection(L: nat, m: nat)
    requires m <= 5 && L < Pow(EncodingBase, 5)
    ensures var P := Pow(EncodingBase, 5 - m);
            && SectionValue(LeadingDigits(L, EncodingBase, 5, m), EncodingBase) == (L / P) * P
            && (L / P) * P <= L < (L / P) * P + P
  {
    var P := Pow(EncodingBase, 5 - m);
    LeadingDigitsOfSmallValue(L, EncodingBase, 5, m);
    RoundDownBounds(L, P);
  }

  /** The g leading grid digits of v, read back at their place values, are
      v rounded down to a multiple of b^(5-g) less its part above b^5. */
  lemma GridSection(v: nat, b: nat, g: nat)
    requires 1 < b && g <= 5
    ensures var Q := Pow(b, 5 - g);
            SectionValue(LeadingDigits(v, b, 5, g), b) == (v / Q) * Q - (v / Pow(b, 5)) * Pow(b, 5)
  {
    var Q := Pow(b, 5 - g);
    var L := v / Pow(b, 5);
    LeadingDigitsValue(v, b, 5, g);
    PowAdd(b, g, 5 - g);
    assert g + (5 - g) == 5;
    var x := v / Q;
    var top := Pow(b, g);
    assert SectionValue(LeadingDigits(v, b, 5, g), b) == (x - L * top) * Q;
    Distribute(x, L, top, Q);
  }

  lemma Distribute(x: int, a: int, c: int, q: int)
    ensures (x - a * c) * q == x * q - a * (c * q)
  {
    assert (x - a * c) * q == x * q - (a * c) * q;
    assert (a * c) * q == a * (c * q);
  }

  /** A value within [L*B, L*B + B) with lo <= L < lo + P lies within
      [lo*B, lo*B + P*B). */
  lemma ScaleBounds(v: nat, L: nat, B: nat, lo: nat, P: nat)
    requires L * B <= v < L * B + B && lo <= L < lo + P
    ensures lo * B <= v < lo * B + P * B
  {
    MulMonotone(lo, L, B);
    MulMonotone(L + 1, lo + P, B);
  }

  /** One axis in the abstract: a value v of at most five base-20 digits
      above five base-b digits. Reading back its m leading pair digits, and
      after all five pairs its g leading grid digits, gives v rounded down to
      a whole number of cells: a lower bound within one cell of v. */
  lemma AxisContainment(v: nat, b: nat, m: nat, g: nat)
    requires 1 < b && 1 <= m <= 5 && g <= 5 && (g > 0 ==> m == 5)
    requires v < Pow(EncodingBase, 5) * Pow(b, 5)
    ensures var low := SectionValue(LeadingDigits(v / Pow(b, 5), EncodingBase, 5, m), EncodingBase) * Pow(b, 5)
                       + SectionValue(LeadingDigits(v, b, 5, g), b);
            var cell := if g > 0 then Pow(b, 5 - g) else Pow(EncodingBase, 5 - m) * Pow(b, 5);
            && low == (v / cell) * cell
            && low <= v < low + cell
  {
    if g == 0 {
      assert LeadingDigits(v, b, 5, 0) == [];
      PairAxisContainment(v, b, m);
    } else {
      GridAxisContainment(v, b, g);
    }
  }

  /** AxisContainment when only pair digits are read. */
  lemma PairAxisContainment(v: nat, b: nat, m: nat)
    requires 1 < b && 1 <= m <= 5
    requires v < Pow(EncodingBase, 5) * Pow(b, 5)
    ensures var low := SectionValue(LeadingDigits(v / Pow(b, 5), EncodingBase, 5, m), EncodingBase) * Pow(b, 5);
            && low == (v / (Pow(EncodingBase, 5 - m) * Pow(b, 5))) * (Pow(EncodingBase, 5 - m) * Pow(b, 5))
            && low <= v < low + Pow(EncodingBase, 5 - m) * Pow(b, 5)
  {
    var B := Pow(b, 5);
    var L := v / B;
    DivBelow(v, Pow(EncodingBase, 5), B);
    PairSection(L, m);
    RoundDownBounds(v, B);
    var P := Pow(EncodingBase, 5 - m);
    var pairLow := SectionValue(LeadingDigits(L, EncodingBase, 5, m), EncodingBase);
    ScaleBounds(v, L, B, pairLow, P);
    RoundDownNested(v, B, P);
  }

  /** AxisContainment when all five pairs and g grid digits are read. */
  lemma GridAxisContainment(v: nat, b: nat, g: nat)
    requires 1 < b && 1 <= g <= 5
    requires v < Pow(EncodingBase, 5) * Pow(b, 5)
    ensures var low := SectionValue(LeadingDigits(v / Pow(b, 5), EncodingBase, 5, 5), EncodingBase) * Pow(b, 5)
                       + SectionValue(LeadingDigits(v, b, 5, g), b);
            && low == (v / Pow(b, 5 - g)) * Pow(b, 5 - g)
            && low <= v < low + Pow(b, 5 - g)
  {
    var B := Pow(b, 5);
    var L := v / B;
    DivBelow(v, Pow(EncodingBase, 5), B);
    PairSection(L, 5);
    assert Pow(EncodingBase, 0) == 1;
    var pairLow := SectionValue(LeadingDigits(L, EncodingBase, 5, 5), EncodingBase);
    assert pairLow == L;
    GridSection(v, b, g);
    var Q := Pow(b, 5 - g);
    RoundDownBounds(v, Q);
    assert pairLow * B + SectionValue(LeadingDigits(v, b, 5, g), b) == (v / Q) * Q;
  }

  /** A grid digit of an encoded code names its row and column: the base-5
      digit of the latitude and the base-4 digit of the longitude. */
  lemma EncodedGridDigit(latVal: nat, lngVal: nat, j: nat)
    requires j < 5
    ensures SizeDiv(DigitIndex(latVal, lngVal, PairCodeLength + j), GridColumns) == DigitAt(latVal, GridRows, 5, j)
    ensures SizeMod(DigitIndex(latVal, lngVal, PairCodeLength + j), GridColumns) == DigitAt(lngVal, GridColumns, 5, j)
  {
    var row := DigitAt(latVal, GridRows, 5, j);
    var col := DigitAt(lngVal, GridColumns, 5, j);
    assert DigitIndex(latVal, lngVal, PairCodeLength + j) == row * GridColumns + col;
    DivUnique(row * GridColumns + col, GridColumns, row, col);
  }

  /** The columns Decode reads from an encoded code are the leading digits
      the encoder wrote. */
  lemma EncodedColumns(latVal: nat, lngVal: nat, n: nat)
    requires LegalLength(n)
    ensures var clean := SignificantDigits(latVal, lngVal)[..n];
            var m := PairCount(clean);
            var g := GridCount(clean);
            && LatitudeColumn(clean, m) == LeadingDigits(latVal / Pow(GridRows, GridCodeLength), EncodingBase, 5, m)
            && LongitudeColumn(clean, m) == LeadingDigits(lngVal / Pow(GridColumns, GridCodeLength), EncodingBase, 5, m)
            && GridRowColumn(clean, g) == LeadingDigits(latVal, GridRows, 5, g)
            && GridColumnColumn(clean, g) == LeadingDigits(lngVal, GridColumns, 5, g)
  {
    var clean := SignificantDigits(latVal, lngVal)[..n];
    EncodedPairColumns(latVal, lngVal, clean, PairCount(clean));
    EncodedGridColumns(latVal, lngVal, clean, GridCount(clean));
  }

  /** Decode reads back the alphabet index the encoder chose for digit k. */
  lemma EncodedSymbol(latVal: nat, lngVal: nat, k: nat)
    requires k < MaximumDigitCount
    ensures AlphabetPosition(SignificantDigits(latVal, lngVal)[k]) == DigitIndex(latVal, lngVal, k)
  {
    AlphabetRoundTrip(DigitIndex(latVal, lngVal, k));
  }

  lemma EncodedPairColumns(latVal: nat, lngVal: nat, clean: string, m: nat)
    requires 2 * m <= |clean| && m <= 5
    requires |clean| <= MaximumDigitCount && clean == SignificantDigits(latVal, lngVal)[..|clean|]
    ensures LatitudeColumn(clean, m) == LeadingDigits(latVal / Pow(GridRows, GridCodeLength), EncodingBase, 5, m)
    ensures LongitudeColumn(clean, m) == LeadingDigits(lngVal / Pow(GridColumns, GridCodeLength), EncodingBase, 5, m)
  {
    assert Pow(GridRows, GridCodeLength) == 3125 && Pow(GridColumns, GridCodeLength) == 1024;
    var latPairs := latVal / Pow(GridRows, GridCodeLength);
    var lngPairs := lngVal / Pow(GridColumns, GridCodeLength);
    forall j | 0 <= j < m
      ensures LatitudeColumn(clean, m)[j] == LeadingDigits(latPairs, EncodingBase, 5, m)[j]
    {
      assert LatitudeColumn(clean, m)[j] == AlphabetPosition(SignificantDigits(latVal, lngVal)[2 * j]);
      EncodedSymbol(latVal, lngVal, 2 * j);
      PairDigits(latVal, lngVal, j);
    }
    forall j | 0 <= j < m
      ensures LongitudeColumn(clean, m)[j] == LeadingDigits(lngPairs, EncodingBase, 5, m)[j]
    {
      assert LongitudeColumn(clean, m)[j] == AlphabetPosition(SignificantDigits(latVal, lngVal)[2 * j + 1]);
      EncodedSymbol(latVal, lngVal, 2 * j + 1);
      PairDigits(latVal, lngVal, j);
    }
  }

  lemma EncodedGridColumns(latVal: nat, lngVal: nat, clean: string, g: nat)
    requires g <= 5 && (g == 0 || PairCodeLength + g <= |clean|)
    requires |clean| <= MaximumDigitCount && clean == SignificantDigits(latVal, lngVal)[..|clean|]
    ensures GridRowColumn(clean, g) == LeadingDigits(latVal, GridRows, 5, g)
    ensures GridColumnColumn(clean, g) == LeadingDigits(lngVal, GridColumns, 5, g)
  {
    forall j | 0 <= j < g
      ensures GridRowColumn(clean, g)[j] == LeadingDigits(latVal, GridRows, 5, g)[j]
      ensures GridColumnColumn(clean, g)[j] == LeadingDigits(lngVal, GridColumns, 5, g)[j]
    {
      EncodedSymbol(latVal, lngVal, PairCodeLength + j);
      EncodedGridDigit(latVal, lngVal, j);
    }
  }

  /** Every latitude cell size divides the 180 degrees from pole to pole,
      so the cells laid from the south pole end exactly at the north pole. */
  lemma LatitudeCellsTile(m: nat, g: nat)
    requires 1 <= m <= 5 && g <= 5 && (g > 0 ==> m == 5)
    ensures var cell := if g > 0 then Pow(GridRows, 5 - g) else Pow(EncodingBase, 5 - m) * Pow(GridRows, 5);
            && cell > 0
            && 2 * LatitudeMaxDegrees * GridLatPrecisionInverse
               == (2 * LatitudeMaxDegrees * GridLatPrecisionInverse / cell) * cell
  {
    var cell := if g > 0 then Pow(GridRows, 5 - g) else Pow(EncodingBase, 5 - m) * Pow(GridRows, 5);
    var range := 2 * LatitudeMaxDegrees * GridLatPrecisionInverse;
    assert Pow(EncodingBase, 4) == 160000 && Pow(GridRows, 5) == 3125;
    assert range == 9 * Pow(EncodingBase, 4) * Pow(GridRows, 5);
    CellsTile(9, GridRows, m, g);
  }

  /** Every longitude cell size divides the 360 degrees around the globe. */
  lemma LongitudeCellsTile(m: nat, g: nat)
    requires 1 <= m <= 5 && g <= 5 && (g > 0 ==> m == 5)
    ensures var cell := if g > 0 then Pow(GridColumns, 5 - g) else Pow(EncodingBase, 5 - m) * Pow(GridColumns, 5);
            && cell > 0
            && 2 * LongitudeMaxDegrees * GridLngPrecisionInverse
               == (2 * LongitudeMaxDegrees * GridLngPrecisionInverse / cell) * cell
  {
    var cell := if g > 0 then Pow(GridColumns, 5 - g) else Pow(EncodingBase, 5 - m) * Pow(GridColumns, 5);
    var range := 2 * LongitudeMaxDegrees * GridLngPrecisionInverse;
    assert Pow(EncodingBase, 4) == 160000 && Pow(GridColumns, 5) == 1024;
    assert range == 18 * Pow(EncodingBase, 4) * Pow(GridColumns, 5);
    CellsTile(18, GridColumns, m, g);
  }

  /** A range of f times 20^4 pair cells of b^5 grid units each is a whole
      number of cells of every size a code of m pairs and g grid digits
      reads. */
  lemma CellsTile(f: nat, b: nat, m: nat, g: nat)
    requires 1 < b && 1 <= m <= 5 && g <= 5 && (g > 0 ==> m == 5)
    ensures var cell := if g > 0 then Pow(b, 5 - g) else Pow(EncodingBase, 5 - m) * Pow(b, 5);
            var range := f * Pow(EncodingBase, 4) * Pow(b, 5);
            cell > 0 && range == (range / cell) * cell
  {
    var top := Pow(EncodingBase, 4);
    var grid := Pow(b, 5);
    if g > 0 {
      var cell := Pow(b, 5 - g);
      PowAdd(b, g, 5 - g);
      assert grid == Pow(b, g) * cell;
      Regroup(f * top, Pow(b, g), cell);
      WholeCells(f * top * grid, cell, f * top * Pow(b, g));
    } else {
      var pairCell := Pow(EncodingBase, 5 - m);
      PowAdd(EncodingBase, m - 1, 5 - m);
      assert m - 1 + (5 - m) == 4;
      assert top == Pow(EncodingBase, m - 1) * pairCell;
      Regroup(f, Pow(EncodingBase, m - 1), pairCell);
      Regroup(f * Pow(EncodingBase, m - 1), pairCell, grid);
      WholeCells(f * top * grid, pairCell * grid, f * Pow(EncodingBase, m - 1));
    }
  }

  /** The latitude digits of an encoded code, read back, bound the
      fixed-point latitude they were encoded from to within one cell, and
      that cell lies between the poles. */
  lemma LatitudeContainment(latVal: nat, lngVal: nat, n: nat)
    requires LegalLength(n)
    requires latVal < 2 * LatitudeMaxDegrees * GridLatPrecisionInverse
    ensures var clean := SignificantDigits(latVal, lngVal)[..n];
            && LatitudeUnits(clean) <= latVal < LatitudeUnits(clean) + LatitudeCellUnits(clean)
            && 0 <= LatitudeUnits(clean)
            && LatitudeUnits(clean) + LatitudeCellUnits(clean) <= 2 * LatitudeMaxDegrees * GridLatPrecisionInverse
  {
    var clean := SignificantDigits(latVal, lngVal)[..n];
    var m := PairCount(clean);
    var g := GridCount(clean);
    assert |clean| == n;
    LegalLengthCounts(clean);
    assert Pow(EncodingBase, 5) == 3200000 && Pow(GridRows, 5) == 3125;
    assert Pow(EncodingBase, 5) * Pow(GridRows, 5) == 10000000000;
    EncodedColumns(latVal, lngVal, n);
    assert LatitudeUnits(clean) == SectionValue(LeadingDigits(latVal / Pow(GridRows, 5), EncodingBase, 5, m), EncodingBase) * Pow(GridRows, 5)
                             + SectionValue(LeadingDigits(latVal, GridRows, 5, g), GridRows);
    AxisContainment(latVal, GridRows, m, g);
    var cell := LatitudeCellUnits(clean);
    if g == 0 {
      EvenPairCells(clean);
    } else {
      assert cell == Pow(GridRows, 5 - g);
    }
    LatitudeCellsTile(m, g);
    CellWithinRange(latVal, cell, LatitudeUnits(clean), 2 * LatitudeMaxDegrees * GridLatPrecisionInverse);
  }

  /** The same for the longitude digits, whose cell lies within one turn
      east of the antimeridian. */
  lemma LongitudeContainment(latVal: nat, lngVal: nat, n: nat)
    requires LegalLength(n)
    requires lngVal < 2 * LongitudeMaxDegrees * GridLngPrecisionInverse
    ensures var clean := SignificantDigits(latVal, lngVal)[..n];
            && LongitudeUnits(clean) <= lngVal < LongitudeUnits(clean) + LongitudeCellUnits(clean)
            && 0 <= LongitudeUnits(clean)
            && LongitudeUnits(clean) + LongitudeCellUnits(clean) <= 2 * LongitudeMaxDegrees * GridLngPrecisionInverse
  {
    var clean := SignificantDigits(latVal, lngVal)[..n];
    var m := PairCount(clean);
    var g := GridCount(clean);
    assert |clean| == n;
    LegalLengthCounts(clean);
    assert Pow(EncodingBase, 5) == 3200000 && Pow(GridColumns, 5) == 1024;
    assert Pow(EncodingBase, 5) * Pow(GridColumns, 5) == 3276800000;
    EncodedColumns(latVal, lngVal, n);
    assert LongitudeUnits(clean) == SectionValue(LeadingDigits(lngVal / Pow(GridColumns, 5), EncodingBase, 5, m), EncodingBase) * Pow(GridColumns, 5)
                             + SectionValue(LeadingDigits(lngVal, GridColumns, 5, g), GridColumns);
    AxisContainment(lngVal, GridColumns, m, g);
    var cell := LongitudeCellUnits(clean);
    if g == 0 {
      EvenPairCells(clean);
    } else {
      assert cell == Pow(GridColumns, 5 - g);
    }
    LongitudeCellsTile(m, g);
    CellWithinRange(lngVal, cell, LongitudeUnits(clean), 2 * LongitudeMaxDegrees * GridLngPrecisionInverse);
  }

  /** In integer units, the decoded area of an encoded code holds the
      fixed-point coordinates it was encoded from: lower bound <= value <
      lower bound + cell, on each axis, with the cell inside the globe. */
  lemma EncodeDecodeUnits(latVal: nat, lngVal: nat, n: nat)
    requires LegalLength(n)
    requires latVal < 2 * LatitudeMaxDegrees * GridLatPrecisionInverse
    requires lngVal < 2 * LongitudeMaxDegrees * GridLngPrecisionInverse
    ensures var clean := DecodedDigits(EncodedCode(latVal, lngVal, n));
            && clean == SignificantDigits(latVal, lngVal)[..n]
            && LatitudeUnits(clean) <= latVal < LatitudeUnits(clean) + LatitudeCellUnits(clean)
            && LongitudeUnits(clean) <= lngVal < LongitudeUnits(clean) + LongitudeCellUnits(clean)
            && 0 <= LatitudeUnits(clean)
            && LatitudeUnits(clean) + LatitudeCellUnits(clean) <= 2 * LatitudeMaxDegrees * GridLatPrecisionInverse
            && 0 <= LongitudeUnits(clean)
            && LongitudeUnits(clean) + LongitudeCellUnits(clean) <= 2 * LongitudeMaxDegrees * GridLngPrecisionInverse
  {
    EncodedCodeValid(latVal, lngVal, n);
    LatitudeContainment(latVal, lngVal, n);
    LongitudeContainment(latVal, lngVal, n);
  }

  /** A legal digit count reads at least one pair, and all five before any
      grid digit. */
  lemma LegalLengthCounts(clean: string)
    requires LegalLength(|clean|)
    ensures 1 <= PairCount(clean) <= 5
    ensures GridCount(clean) <= 5 && (GridCount(clean) > 0 ==> PairCount(clean) == 5)
  {
  }

  /** For an even count of at most ten digits the pair place value is the
      width of the last pair read. */
  lemma EvenPairCells(clean: string)
    requires 2 <= |clean| <= PairCodeLength && |clean| % 2 == 0
    ensures PairPlaceValue(clean) == Pow(EncodingBase, 5 - PairCount(clean))
    ensures LatitudeCellUnits(clean) == Pow(EncodingBase, 5 - PairCount(clean)) * Pow(GridRows, 5)
    ensures LongitudeCellUnits(clean) == Pow(EncodingBase, 5 - PairCount(clean)) * Pow(GridColumns, 5)
  {
    var n := |clean|;
    var k := n / 2;
    assert n == 2 * k;
    assert (n - 1) / 2 == k - 1;
    assert PairCount(clean) == k;
  }

  /** The round trip over degrees: decoding what Encode returns gives an
      area of the effective length that contains the location Encode
      actually encoded (its latitude clamped, its longitude normalised),
      and whose height is the precision of that length. */
  lemma EncodeDecodeRoundTrip(location: LatLng, codeLength: nat)
    ensures var code := EncodedLocation(location, codeLength);
            var n := EffectiveLength(codeLength);
            && DecodedDigits(code) != []
            && var area := DecodedArea(code);
               && area.codeLength == n
               && area.latitudeLo <= AdjustLatitude(location.latitude, n) < area.latitudeHi
               && area.longitudeLo <= NormalizedLongitude(location.longitude) < area.longitudeHi
               && area.latitudeHi - area.latitudeLo == ComputePrecisionForLength(n)
  {
    var n := EffectiveLength(codeLength);
    var latVal := LatitudeValue(location, n);
    var lngVal := LongitudeValue(location);
    var code := EncodedLocation(location, codeLength);
    assert code == EncodedCode(latVal, lngVal, n);
    EncodeDecodeUnits(latVal, lngVal, n);
    var clean := DecodedDigits(code);
    DecodedAreaInUnits(code);
    DecodedAreaSize(code);
    var latitude := AdjustLatitude(location.latitude, n);
    var longitude := NormalizedLongitude(location.longitude);
    var lo := LatitudeUnits(clean);
    var hi := lo + LatitudeCellUnits(clean);
    assert lo <= latVal && latVal + 1 <= hi;
    assert latVal as real <= (latitude + 90.0) * 25000000.0 < latVal as real + 1.0;
    var lngLo := LongitudeUnits(clean);
    var lngHi := lngLo + LongitudeCellUnits(clean);
    assert lngLo <= lngVal && lngVal + 1 <= lngHi;
    assert lngVal as real <= (longitude + 180.0) * 8192000.0 < lngVal as real + 1.0;
  }

  /** The decoded area of an encoded code never reaches beyond the poles or
      the antimeridian: its cells are laid from the south pole and the
      antimeridian and tile the globe exactly. At the north pole this rests
      on the half-cell step AdjustLatitude takes below +90. */
  lemma EncodedAreaWithinGlobe(location: LatLng, codeLength: nat)
    ensures var code := EncodedLocation(location, codeLength);
            && DecodedDigits(code) != []
            && var area := DecodedArea(code);
               && -90.0 <= area.latitudeLo && area.latitudeHi <= 90.0
               && -180.0 <= area.longitudeLo && area.longitudeHi <= 180.0
  {
    var n := EffectiveLength(codeLength);
    var code := EncodedLocation(location, codeLength);
    assert code == EncodedCode(LatitudeValue(location, n), LongitudeValue(location), n);
    EncodeDecodeUnits(LatitudeValue(location, n), LongitudeValue(location), n);
    DecodedAreaInUnits(code);
  }
}
