/** Decode: a code to the area it stands for (openlocationcode.cpp). The
    pair digits are summed with base-20 place values in units of 1/8000 of a
    degree, the grid digits with base-5 (latitude) and base-4 (longitude)
    place values in units of the last grid cell. */
module Decoder {
  import opened Arithmetic
  import opened Text
  import opened Symbols
  import opened CodeAreas
  import opened Validator
  import opened Precision

  /** The digits Decode reads: the cleaned code, cut to fifteen. */
  function DecodedDigits(code: string): (clean: string)
    ensures |clean| <= MaximumDigitCount
    ensures |clean| == if CodeLength(code) > MaximumDigitCount then MaximumDigitCount else CodeLength(code)
    ensures clean == CleanCode(code)[..|clean|]
  {
    var clean := CleanCode(code);
    if |clean| > MaximumDigitCount then Substring(clean, 0, MaximumDigitCount) else clean
  }

  /** The number of whole pairs among the first ten digits. An odd last
      digit among them is not read. */
  function PairCount(clean: string): (m: nat)
    ensures 2 * m <= |clean| && m <= PairCodeLength / 2
  {
    (if |clean| < PairCodeLength then |clean| else PairCodeLength) / 2
  }

  /** The number of grid digits. */
  function GridCount(clean: string): (g: nat)
    ensures g > 0 ==> PairCodeLength + g == |clean|
    ensures |clean| <= MaximumDigitCount ==> g <= GridCodeLength
  {
    if |clean| > PairCodeLength then |clean| - PairCodeLength else 0
  }

  /** Alphabet positions of the latitude digits (even indices) and the
      longitude digits (odd indices) of the first m pairs. */
  function LatitudeColumn(clean: string, m: nat): (ps: seq<int>)
    requires 2 * m <= |clean|
    ensures |ps| == m
  {
    seq(m, j requires 0 <= j < m => AlphabetPosition(clean[2 * j]))
  }

  function LongitudeColumn(clean: string, m: nat): (ps: seq<int>)
    requires 2 * m <= |clean|
    ensures |ps| == m
  {
    seq(m, j requires 0 <= j < m => AlphabetPosition(clean[2 * j + 1]))
  }

  /** Rows and columns of the first g grid digits: position / 4 and
      position % 4, where 4 is a size_t, so the position is divided as an
      unsigned number and the result converted back to int. */
  function GridRowColumn(clean: string, g: nat): (rs: seq<int>)
    requires g == 0 || PairCodeLength + g <= |clean|
    ensures |rs| == g
  {
    seq(g, j requires 0 <= j < g => SizeDiv(AlphabetPosition(clean[PairCodeLength + j]), GridColumns))
  }

  function GridColumnColumn(clean: string, g: nat): (cs: seq<int>)
    requires g == 0 || PairCodeLength + g <= |clean|
    ensures |cs| == g
  {
    seq(g, j requires 0 <= j < g => SizeMod(AlphabetPosition(clean[PairCodeLength + j]), GridColumns))
  }

  /** A grid character outside the alphabet looks up to -1, which the
      unsigned division turns into row -1 and column 3: one row south and
      the last column, not the row 0 and column -1 of signed C++. */
  lemma IllegalGridDigit()
    ensures var clean := "2222222222A";
            && AlphabetPosition(clean[PairCodeLength]) == -1
            && GridRowColumn(clean, 1) == [-1]
            && GridColumnColumn(clean, 1) == [3]
  {
    SizeDivModFour(-1);
  }

  /** Digits summed with the place values of a five-digit section, the
      first digit worth b^4. */
  function SectionValue(ds: seq<int>, b: nat): int
    requires |ds| <= 5
  {
    Horner(ds, b) * Pow(b, 5 - |ds|)
  }

  /** The place value Decode's pair loop ends on: that of the last digit
      pair it reads when the count is even, one twentieth of it when the
      count is odd. */
  function PairPlaceValue(clean: string): (pv: nat)
    requires clean != []
    ensures pv > 0
  {
    var digits := if |clean| < PairCodeLength then |clean| else PairCodeLength;
    Pow(EncodingBase, 4 - (digits - 1) / 2)
  }

  /** The area Decode returns (before its rounding to 14 places). */
  function DecodedArea(code: string): (area: CodeArea)
    requires DecodedDigits(code) != []
    ensures area.latitudeLo < area.latitudeHi && area.longitudeLo < area.longitudeHi
    ensures area.codeLength == |DecodedDigits(code)|
  {
    var clean := DecodedDigits(code);
    var lat := LowerLatitude(clean);
    var lng := LowerLongitude(clean);
    CodeArea(lat, lng, lat + LatitudePrecision(clean), lng + LongitudePrecision(clean), |clean|)
  }

  /** The south-west corner: the pair sum over 8000 plus the grid sum over
      the grid inverse, shifted by the pole and the antimeridian. */
  function LowerLatitude(clean: string): real
    requires |clean| <= MaximumDigitCount
  {
    var normalLat := SectionValue(LatitudeColumn(clean, PairCount(clean)), EncodingBase)
                     - LatitudeMaxDegrees * PairPrecisionInverse;
    var extraLat := SectionValue(GridRowColumn(clean, GridCount(clean)), GridRows);
    normalLat as real / PairPrecisionInverse as real + extraLat as real / GridLatPrecisionInverse as real
  }

  function LowerLongitude(clean: string): real
    requires |clean| <= MaximumDigitCount
  {
    var normalLng := SectionValue(LongitudeColumn(clean, PairCount(clean)), EncodingBase)
                     - LongitudeMaxDegrees * PairPrecisionInverse;
    var extraLng := SectionValue(GridColumnColumn(clean, GridCount(clean)), GridColumns);
    normalLng as real / PairPrecisionInverse as real + extraLng as real / GridLngPrecisionInverse as real
  }

  /** The sides of the area: the last place value each loop ends on. */
  function LatitudePrecision(clean: string): (side: real)
    requires clean != [] && |clean| <= MaximumDigitCount
    ensures side > 0.0
  {
    var g := GridCount(clean);
    if g > 0 then Pow(GridRows, GridCodeLength - g) as real / GridLatPrecisionInverse as real
    else PairPlaceValue(clean) as real / PairPrecisionInverse as real
  }

  function LongitudePrecision(clean: string): (side: real)
    requires clean != [] && |clean| <= MaximumDigitCount
    ensures side > 0.0
  {
    var g := GridCount(clean);
    if g > 0 then Pow(GridColumns, GridCodeLength - g) as real / GridLngPrecisionInverse as real
    else PairPlaceValue(clean) as real / PairPrecisionInverse as real
  }

  /** One more pair read: the column grows by the digit at its place. */
  lemma PairColumnsStep(clean: string, m: nat)
    requires 2 * m + 2 <= |clean| && m < 5
    ensures SectionValue(LatitudeColumn(clean, m + 1), EncodingBase)
            == SectionValue(LatitudeColumn(clean, m), EncodingBase) + AlphabetPosition(clean[2 * m]) * Pow(EncodingBase, 4 - m)
    ensures SectionValue(LongitudeColumn(clean, m + 1), EncodingBase)
            == SectionValue(LongitudeColumn(clean, m), EncodingBase) + AlphabetPosition(clean[2 * m + 1]) * Pow(EncodingBase, 4 - m)
  {
    assert LatitudeColumn(clean, m + 1) == LatitudeColumn(clean, m) + [AlphabetPosition(clean[2 * m])];
    SectionStep(LatitudeColumn(clean, m), AlphabetPosition(clean[2 * m]), EncodingBase);
    assert LongitudeColumn(clean, m + 1) == LongitudeColumn(clean, m) + [AlphabetPosition(clean[2 * m + 1])];
    SectionStep(LongitudeColumn(clean, m), AlphabetPosition(clean[2 * m + 1]), EncodingBase);
  }

  /** A digit appended to a section takes the next place value. */
  lemma SectionStep(ds: seq<int>, d: int, b: nat)
    requires |ds| < 5
    ensures SectionValue(ds + [d], b) == SectionValue(ds, b) + d * Pow(b, 4 - |ds|)
  {
    HornerPlaceStep(ds, d, b, 5);
  }

  /** One more grid digit read. */
  lemma GridColumnsStep(clean: string, g: nat)
    requires PairCodeLength + g < |clean| && g < 5
    ensures var dval := AlphabetPosition(clean[PairCodeLength + g]);
            && SectionValue(GridRowColumn(clean, g + 1), GridRows)
               == SectionValue(GridRowColumn(clean, g), GridRows) + SizeDiv(dval, GridColumns) * Pow(GridRows, 4 - g)
            && SectionValue(GridColumnColumn(clean, g + 1), GridColumns)
               == SectionValue(GridColumnColumn(clean, g), GridColumns) + SizeMod(dval, GridColumns) * Pow(GridColumns, 4 - g)
  {
    var dval := AlphabetPosition(clean[PairCodeLength + g]);
    assert GridRowColumn(clean, g + 1) == GridRowColumn(clean, g) + [SizeDiv(dval, GridColumns)];
    SectionStep(GridRowColumn(clean, g), SizeDiv(dval, GridColumns), GridRows);
    assert GridColumnColumn(clean, g + 1) == GridColumnColumn(clean, g) + [SizeMod(dval, GridColumns)];
    SectionStep(GridColumnColumn(clean, g), SizeMod(dval, GridColumns), GridColumns);
  }

  /** Decode, with the source's accumulators and loops. The cleaned code
      must not be empty: the source's `digits - 1` would wrap around. */
  method Decode(code: string) returns (area: CodeArea)
    requires DecodedDigits(code) != []
    ensures area == DecodedArea(code)
  {
    var clean := CleanCode(code);
    if |clean| > MaximumDigitCount {
      clean := Substring(clean, 0, MaximumDigitCount);
    }
    assert clean == DecodedDigits(code);
    var normalLat, normalLng, pv := DecodePairs(clean);
    var extraLat: int := 0;
    var extraLng: int := 0;
    var latPrecision: real := pv as real / PairPrecisionInverse as real;
    var lngPrecision: real := pv as real / PairPrecisionInverse as real;
    if |clean| > PairCodeLength {
      var rowPv, colPv;
      extraLat, extraLng, rowPv, colPv := DecodeGrid(clean);
      latPrecision := rowPv as real / GridLatPrecisionInverse as real;
      lngPrecision := colPv as real / GridLngPrecisionInverse as real;
      GridSides(clean);
    } else {
      PairSides(clean);
    }
    var lat := normalLat as real / PairPrecisionInverse as real + extraLat as real / GridLatPrecisionInverse as real;
    var lng := normalLng as real / PairPrecisionInverse as real + extraLng as real / GridLngPrecisionInverse as real;
    area := CodeArea(lat, lng, lat + latPrecision, lng + lngPrecision, |clean|);
    AssembledArea(code, clean, normalLat, normalLng, extraLat, extraLng, latPrecision, lngPrecision);
  }

  /** Without grid digits the grid sums are zero and the sides are the
      pair place value. */
  lemma PairSides(clean: string)
    requires clean != [] && |clean| <= PairCodeLength
    ensures SectionValue(GridRowColumn(clean, GridCount(clean)), GridRows) == 0
    ensures SectionValue(GridColumnColumn(clean, GridCount(clean)), GridColumns) == 0
    ensures LatitudePrecision(clean) == PairPlaceValue(clean) as real / PairPrecisionInverse as real
    ensures LongitudePrecision(clean) == PairPlaceValue(clean) as real / PairPrecisionInverse as real
  {
    assert GridRowColumn(clean, GridCount(clean)) == [] && GridColumnColumn(clean, GridCount(clean)) == [];
  }

  /** With grid digits the sides are the grid place values. */
  lemma GridSides(clean: string)
    requires PairCodeLength < |clean| <= MaximumDigitCount
    ensures LatitudePrecision(clean) == Pow(GridRows, 5 - GridCount(clean)) as real / GridLatPrecisionInverse as real
    ensures LongitudePrecision(clean) == Pow(GridColumns, 5 - GridCount(clean)) as real / GridLngPrecisionInverse as real
  {
  }

  /** Decode's last step: the sums and place values of its two loops make
      up DecodedArea. */
  lemma AssembledArea(code: string, clean: string, normalLat: int, normalLng: int,
                      extraLat: int, extraLng: int, latPrecision: real, lngPrecision: real)
    requires DecodedDigits(code) != [] && clean == DecodedDigits(code)
    requires normalLat == SectionValue(LatitudeColumn(clean, PairCount(clean)), EncodingBase)
                         - LatitudeMaxDegrees * PairPrecisionInverse
    requires normalLng == SectionValue(LongitudeColumn(clean, PairCount(clean)), EncodingBase)
                         - LongitudeMaxDegrees * PairPrecisionInverse
    requires extraLat == SectionValue(GridRowColumn(clean, GridCount(clean)), GridRows)
    requires extraLng == SectionValue(GridColumnColumn(clean, GridCount(clean)), GridColumns)
    requires latPrecision == LatitudePrecision(clean) && lngPrecision == LongitudePrecision(clean)
    ensures var lat := normalLat as real / PairPrecisionInverse as real + extraLat as real / GridLatPrecisionInverse as real;
            var lng := normalLng as real / PairPrecisionInverse as real + extraLng as real / GridLngPrecisionInverse as real;
            CodeArea(lat, lng, lat + latPrecision, lng + lngPrecision, |clean|) == DecodedArea(code)
  {
  }

  /** The pair loop of Decode: the integer lower bounds in units of 1/8000
      of a degree and the place value it ends on. */
  method DecodePairs(clean: string) returns (normalLat: int, normalLng: int, pv: nat)
    requires clean != []
    ensures normalLat == SectionValue(LatitudeColumn(clean, PairCount(clean)), EncodingBase)
                         - LatitudeMaxDegrees * PairPrecisionInverse
    ensures normalLng == SectionValue(LongitudeColumn(clean, PairCount(clean)), EncodingBase)
                         - LongitudeMaxDegrees * PairPrecisionInverse
    ensures pv == PairPlaceValue(clean)
  {
    normalLat := -(LatitudeMaxDegrees * PairPrecisionInverse);
    normalLng := -(LongitudeMaxDegrees * PairPrecisionInverse);
    var digits := if |clean| < PairCodeLength then |clean| else PairCodeLength;
    pv := Pow(EncodingBase, PairCodeLength / 2 - 1);
    var i := 0;
    ghost var m := 0;  // pairs read
    while i < digits - 1
      invariant i == 2 * m && i <= digits
      invariant normalLat == SectionValue(LatitudeColumn(clean, m), EncodingBase) - LatitudeMaxDegrees * PairPrecisionInverse
      invariant normalLng == SectionValue(LongitudeColumn(clean, m), EncodingBase) - LongitudeMaxDegrees * PairPrecisionInverse
      invariant pv == if i < digits then Pow(EncodingBase, 4 - m) else Pow(EncodingBase, 5 - m)
    {
      PairColumnsStep(clean, m);
      assert pv == Pow(EncodingBase, 4 - m) && clean[i] == clean[2 * m] && clean[i + 1] == clean[2 * m + 1];
      normalLat := normalLat + AlphabetPosition(clean[i]) * pv;
      normalLng := normalLng + AlphabetPosition(clean[i + 1]) * pv;
      if i < digits - 2 {
        PowDivBase(EncodingBase, 4 - m);
        pv := pv / EncodingBase;
      }
      i, m := i + 2, m + 1;
    }
    assert m == PairCount(clean);
    assert (digits - 1) / 2 == if i < digits then m else m - 1;
  }

  /** The grid loop of Decode: the integer offsets in units of the last
      grid cell and the place values it ends on. */
  method DecodeGrid(clean: string) returns (extraLat: int, extraLng: int, rowPv: nat, colPv: nat)
    requires PairCodeLength < |clean| <= MaximumDigitCount
    ensures extraLat == SectionValue(GridRowColumn(clean, GridCount(clean)), GridRows)
    ensures extraLng == SectionValue(GridColumnColumn(clean, GridCount(clean)), GridColumns)
    ensures rowPv == Pow(GridRows, 5 - GridCount(clean)) && colPv == Pow(GridColumns, 5 - GridCount(clean))
  {
    extraLat, extraLng := 0, 0;
    rowPv := Pow(GridRows, GridCodeLength - 1);
    colPv := Pow(GridColumns, GridCodeLength - 1);
    var digits := if MaximumDigitCount < |clean| then MaximumDigitCount else |clean|;
    ghost var g := 0;  // grid digits read
    for j := PairCodeLength to digits
      invariant g == j - PairCodeLength
      invariant extraLat == SectionValue(GridRowColumn(clean, g), GridRows)
      invariant extraLng == SectionValue(GridColumnColumn(clean, g), GridColumns)
      invariant rowPv == if j < digits then Pow(GridRows, 4 - g) else Pow(GridRows, 5 - g)
      invariant colPv == if j < digits then Pow(GridColumns, 4 - g) else Pow(GridColumns, 5 - g)
    {
      var dval := AlphabetPosition(clean[j]);
      var row := SizeDiv(dval, GridColumns);
      var col := SizeMod(dval, GridColumns);
      GridColumnsStep(clean, g);
      assert rowPv == Pow(GridRows, 4 - g) && colPv == Pow(GridColumns, 4 - g);
      extraLat := extraLat + row * rowPv;
      extraLng := extraLng + col * colPv;
      if j < digits - 1 {
        PowDivBase(GridRows, 4 - g);
        PowDivBase(GridColumns, 4 - g);
        rowPv := rowPv / GridRows;
        colPv := colPv / GridColumns;
      }
      g := g + 1;
    }
  }

  /** A valid code meets Decode's precondition, and all it cleans to are
      symbols. */
  lemma ValidCodeDecodable(code: string)
    requires ValidCode(code)
    ensures DecodedDigits(code) != []
    ensures forall i | 0 <= i < |DecodedDigits(code)| :: IsAlphabetChar(DecodedDigits(code)[i])
  {
    ValidCodeCleansToSymbols(code);
  }

  /** The lower latitude bound in units of the last grid cell
      (1/25000000 of a degree), counted from the south pole, and the height
      of the area in the same units. */
  function LatitudeUnits(clean: string): int
    requires |clean| <= MaximumDigitCount
  {
    SectionValue(LatitudeColumn(clean, PairCount(clean)), EncodingBase) * Pow(GridRows, GridCodeLength)
    + SectionValue(GridRowColumn(clean, GridCount(clean)), GridRows)
  }

  function LatitudeCellUnits(clean: string): nat
    requires clean != [] && |clean| <= MaximumDigitCount
  {
    var g := GridCount(clean);
    if g > 0 then Pow(GridRows, GridCodeLength - g) else PairPlaceValue(clean) * Pow(GridRows, GridCodeLength)
  }

  /** The same for longitude, in units of 1/8192000 of a degree counted from
      the antimeridian. */
  function LongitudeUnits(clean: string): int
    requires |clean| <= MaximumDigitCount
  {
    SectionValue(LongitudeColumn(clean, PairCount(clean)), EncodingBase) * Pow(GridColumns, GridCodeLength)
    + SectionValue(GridColumnColumn(clean, GridCount(clean)), GridColumns)
  }

  function LongitudeCellUnits(clean: string): nat
    requires clean != [] && |clean| <= MaximumDigitCount
  {
    var g := GridCount(clean);
    if g > 0 then Pow(GridColumns, GridCodeLength - g) else PairPlaceValue(clean) * Pow(GridColumns, GridCodeLength)
  }

  /** The decoded bounds are the integer units above, over the grid
      inverses: what the source's sums of two fractions come to. */
  lemma DecodedAreaInUnits(code: string)
    requires DecodedDigits(code) != []
    ensures var clean := DecodedDigits(code);
            var area := DecodedArea(code);
            && area.latitudeLo == (LatitudeUnits(clean) - LatitudeMaxDegrees * GridLatPrecisionInverse) as real
                                  / GridLatPrecisionInverse as real
            && area.latitudeHi == (LatitudeUnits(clean) + LatitudeCellUnits(clean) - LatitudeMaxDegrees * GridLatPrecisionInverse) as real
                                  / GridLatPrecisionInverse as real
            && area.longitudeLo == (LongitudeUnits(clean) - LongitudeMaxDegrees * GridLngPrecisionInverse) as real
                                   / GridLngPrecisionInverse as real
            && area.longitudeHi == (LongitudeUnits(clean) + LongitudeCellUnits(clean) - LongitudeMaxDegrees * GridLngPrecisionInverse) as real
                                   / GridLngPrecisionInverse as real
            && area.codeLength == |clean|
  {
    var clean := DecodedDigits(code);
    var m := PairCount(clean);
    var g := GridCount(clean);
    assert Pow(GridRows, GridCodeLength) == 3125 && Pow(GridColumns, GridCodeLength) == 1024;
    var pairLat := SectionValue(LatitudeColumn(clean, m), EncodingBase);
    var pairLng := SectionValue(LongitudeColumn(clean, m), EncodingBase);
    var extraLat := SectionValue(GridRowColumn(clean, g), GridRows);
    var extraLng := SectionValue(GridColumnColumn(clean, g), GridColumns);
    assert LatitudeUnits(clean) == pairLat * 3125 + extraLat;
    assert LongitudeUnits(clean) == pairLng * 1024 + extraLng;
    assert (pairLat * 3125) as real == pairLat as real * 3125.0;
    assert (pairLng * 1024) as real == pairLng as real * 1024.0;
    var pv := PairPlaceValue(clean);
    assert (pv * 3125) as real == pv as real * 3125.0;
    assert (pv * 1024) as real == pv as real * 1024.0;
  }

  /** The height of the decoded area is the precision of its digit count.
      An odd count of ten or fewer digits gets the height of one digit
      more, because the pair loop still divides the place value after the
      last whole pair. Beyond ten digits the width follows the 4-column
      grid instead. */
  lemma DecodedAreaSize(code: string)
    requires DecodedDigits(code) != []
    ensures var n := |DecodedDigits(code)|;
            var area := DecodedArea(code);
            && (n <= PairCodeLength && n % 2 == 0 ==>
                  area.latitudeHi - area.latitudeLo == ComputePrecisionForLength(n)
                  && area.longitudeHi - area.longitudeLo == ComputePrecisionForLength(n))
            && (n <= PairCodeLength && n % 2 == 1 ==>
                  area.latitudeHi - area.latitudeLo == ComputePrecisionForLength(n + 1)
                  && area.longitudeHi - area.longitudeLo == ComputePrecisionForLength(n + 1))
            && (n > PairCodeLength ==>
                  area.latitudeHi - area.latitudeLo == ComputePrecisionForLength(n)
                  && area.longitudeHi - area.longitudeLo
                     == 1.0 / (PairPrecisionInverse * Pow(GridColumns, n - PairCodeLength)) as real)
  {
    var clean := DecodedDigits(code);
    DecodedAreaSides(code);
    PrecisionOfDigits(clean);
  }

  /** The sides of the decoded area are the precisions of its digits. */
  lemma DecodedAreaSides(code: string)
    requires DecodedDigits(code) != []
    ensures var clean := DecodedDigits(code);
            var area := DecodedArea(code);
            && area.latitudeHi - area.latitudeLo == LatitudePrecision(clean)
            && area.longitudeHi - area.longitudeLo == LongitudePrecision(clean)
  {
  }

  /** The precisions of some digits against the precision table. */
  lemma PrecisionOfDigits(clean: string)
    requires clean != [] && |clean| <= MaximumDigitCount
    ensures var n := |clean|;
            && (n <= PairCodeLength ==>
                  var k := if n % 2 == 0 then n else n + 1;
                  LatitudePrecision(clean) == ComputePrecisionForLength(k)
                  && LongitudePrecision(clean) == ComputePrecisionForLength(k))
            && (n > PairCodeLength ==>
                  LatitudePrecision(clean) == ComputePrecisionForLength(n)
                  && LongitudePrecision(clean) == 1.0 / (PairPrecisionInverse * Pow(GridColumns, n - PairCodeLength)) as real)
  {
    var n := |clean|;
    if n <= PairCodeLength {
      assert PairPlaceValue(clean) == Pow(EncodingBase, 4 - (n - 1) / 2);
      PairCellPrecision(n);
    } else {
      var g := n - PairCodeLength;
      assert GridCount(clean) == g;
      GridCellPrecision(g);
    }
  }

  /** The pair loop's last place value, in degrees, against the precision
      table. */
  lemma PairCellPrecision(n: nat)
    requires 1 <= n <= PairCodeLength
    ensures var pv := Pow(EncodingBase, 4 - (n - 1) / 2);
            pv as real / PairPrecisionInverse as real
            == ComputePrecisionForLength(if n % 2 == 0 then n else n + 1)
  {
    var k := if n % 2 == 0 then n else n + 1;
    var e := 4 - (n - 1) / 2;
    assert e == 5 - k / 2;
    assert Pow(20, 3) == 8000;
    PrecisionValues(k);
    if e >= 3 {
      PowAdd(20, 3, e - 3);
    } else {
      PowAdd(20, e, 3 - e);
    }
  }

  /** The grid loop's last place values, in degrees, against the precision
      table. */
  lemma GridCellPrecision(g: nat)
    requires 1 <= g <= GridCodeLength
    ensures Pow(GridRows, 5 - g) as real / GridLatPrecisionInverse as real
            == ComputePrecisionForLength(PairCodeLength + g)
    ensures Pow(GridColumns, 5 - g) as real / GridLngPrecisionInverse as real
            == 1.0 / (PairPrecisionInverse * Pow(GridColumns, g)) as real
  {
    GridRowPrecision(g);
    GridColumnPrecision(g);
  }

  lemma GridRowPrecision(g: nat)
    requires 1 <= g <= GridCodeLength
    ensures Pow(GridRows, 5 - g) as real / GridLatPrecisionInverse as real
            == ComputePrecisionForLength(PairCodeLength + g)
  {
    PowAdd(GridRows, g, 5 - g);
    assert Pow(GridRows, 5) == 3125;
    PrecisionValues(PairCodeLength + g);
    var rowPv := Pow(GridRows, 5 - g);
    assert (rowPv * Pow(GridRows, g)) as real == rowPv as real * Pow(GridRows, g) as real;
  }

  lemma GridColumnPrecision(g: nat)
    requires 1 <= g <= GridCodeLength
    ensures Pow(GridColumns, 5 - g) as real / GridLngPrecisionInverse as real
            == 1.0 / (PairPrecisionInverse * Pow(GridColumns, g)) as real
  {
    PowAdd(GridColumns, g, 5 - g);
    assert Pow(GridColumns, 5) == 1024;
    var colPv := Pow(GridColumns, 5 - g);
    assert (colPv * Pow(GridColumns, g)) as real == colPv as real * Pow(GridColumns, g) as real;
    assert (PairPrecisionInverse * Pow(GridColumns, g)) as real == 8000.0 * Pow(GridColumns, g) as real;
    assert colPv as real * Pow(GridColumns, g) as real == 1024.0;
  }
}
