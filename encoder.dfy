/** Encode: a location to a code of a requested length (openlocationcode.cpp).
    The coordinates are first turned into integers in units of the last grid
    digit; every digit is then read off those integers. */
module Encoder {
  import opened Arithmetic
  import opened Text
  import opened Symbols
  import opened CodeAreas
  import opened Precision
  import opened Validator

  /** The digit counts Encode produces: 2 to 15, even below 10. */
  predicate LegalLength(n: nat)
  {
    MinimumDigitCount <= n <= MaximumDigitCount && (n >= PairCodeLength || n % 2 == 0)
  }

  /** The requested length clamped to [2, 15], odd lengths below 10 raised
      by one. */
  function EffectiveLength(codeLength: nat): (n: nat)
    ensures LegalLength(n)
    // the least legal length not below the request ...
    ensures codeLength <= MaximumDigitCount ==>
              codeLength <= n && forall m | codeLength <= m < n :: !LegalLength(m)
    // ... and the longest one when the request exceeds it
    ensures codeLength > MaximumDigitCount ==> n == MaximumDigitCount
  {
    var clamped := NatMax(NatMin(codeLength, MaximumDigitCount), MinimumDigitCount);
    if clamped < PairCodeLength && clamped % 2 == 1 then clamped + 1 else clamped
  }

  function NatMin(a: nat, b: nat): nat { if a <= b then a else b }
  function NatMax(a: nat, b: nat): nat { if a >= b then a else b }

  /** A legal length is left as it is. */
  lemma EffectiveLengthKeepsLegal(n: nat)
    requires LegalLength(n)
    ensures EffectiveLength(n) == n
  {
  }

  /** The alphabet index of digit k of the code for the fixed-point
      coordinates. Digits 0 to 9 alternate latitude and longitude in base 20,
      read from the coordinates with the grid part divided off; digits 10 to
      14 each name one cell of the 4-column, 5-row grid. */
  function DigitIndex(latVal: nat, lngVal: nat, k: nat): (d: nat)
    requires k < MaximumDigitCount
    ensures d < EncodingBase
  {
    if k < PairCodeLength then
      if k % 2 == 0 then DigitAt(latVal / Pow(GridRows, GridCodeLength), EncodingBase, PairCodeLength / 2, k / 2)
      else DigitAt(lngVal / Pow(GridColumns, GridCodeLength), EncodingBase, PairCodeLength / 2, k / 2)
    else
      DigitAt(latVal, GridRows, GridCodeLength, k - PairCodeLength) * GridColumns
      + DigitAt(lngVal, GridColumns, GridCodeLength, k - PairCodeLength)
  }

  /** All fifteen digits of the fixed-point coordinates. */
  function SignificantDigits(latVal: nat, lngVal: nat): (ds: string)
    ensures |ds| == MaximumDigitCount
    ensures forall k | 0 <= k < MaximumDigitCount :: ds[k] == Alphabet[DigitIndex(latVal, lngVal, k)]
  {
    seq(MaximumDigitCount, k requires 0 <= k < MaximumDigitCount => Alphabet[DigitIndex(latVal, lngVal, k)])
  }

  /** The code of the first n of fifteen digits: the separator after the
      eighth digit, and padding up to it when there are fewer than eight. */
  function FormatCode(digits: string, n: nat): (code: string)
    requires |digits| == MaximumDigitCount && LegalLength(n)
    ensures n >= SeparatorPosition ==> |code| == n + 1
    ensures n < SeparatorPosition ==> |code| == SeparatorPosition + 1
  {
    if n >= SeparatorPosition then digits[..SeparatorPosition] + [Separator] + digits[SeparatorPosition..n]
    else digits[..n] + Repeat(Padding, SeparatorPosition - n) + [Separator]
  }

  /** The code of n digits for the fixed-point coordinates. */
  function EncodedCode(latVal: nat, lngVal: nat, n: nat): (code: string)
    requires LegalLength(n)
  {
    FormatCode(SignificantDigits(latVal, lngVal), n)
  }

  /** The digit the grid loop writes in its round i. */
  lemma GridDigit(latVal: nat, lngVal: nat, i: nat)
    requires i < GridCodeLength
    ensures DigitIndex(latVal, lngVal, MaximumDigitCount - 1 - i)
            == (latVal / Pow(GridRows, i)) % GridRows * GridColumns + (lngVal / Pow(GridColumns, i)) % GridColumns
  {
    DigitAtPlace(latVal, GridRows, GridCodeLength, i);
    DigitAtPlace(lngVal, GridColumns, GridCodeLength, i);
  }

  /** Digits 2j and 2j + 1 are the j-th base-20 digits of latitude and
      longitude with the grid part divided off. */
  lemma PairDigits(latVal: nat, lngVal: nat, j: nat)
    requires j < 5
    ensures DigitIndex(latVal, lngVal, 2 * j)
            == DigitAt(latVal / Pow(GridRows, GridCodeLength), EncodingBase, 5, j)
    ensures DigitIndex(latVal, lngVal, 2 * j + 1)
            == DigitAt(lngVal / Pow(GridColumns, GridCodeLength), EncodingBase, 5, j)
  {
    assert Pow(GridRows, GridCodeLength) == 3125 && Pow(GridColumns, GridCodeLength) == 1024;
    assert (2 * j) % 2 == 0 && (2 * j) / 2 == j;
    assert (2 * j + 1) % 2 == 1 && (2 * j + 1) / 2 == j;
  }

  /** The longitude digit the pair loop writes in its round i. */
  lemma PairLongitudeDigit(latVal: nat, lngVal: nat, i: nat)
    requires i < 5
    ensures DigitIndex(latVal, lngVal, 9 - 2 * i)
            == (lngVal / Pow(GridColumns, GridCodeLength) / Pow(EncodingBase, i)) % EncodingBase
  {
    assert Pow(GridColumns, GridCodeLength) == 1024;
    var pairs := lngVal / Pow(GridColumns, GridCodeLength);
    var j := 4 - i;
    PairDigits(latVal, lngVal, j);
    DigitAtPlace(pairs, EncodingBase, 5, i);
    if i == 0 {
      assert j == 4;
    } else if i == 1 {
      assert j == 3;
    } else if i == 2 {
      assert j == 2;
    } else if i == 3 {
      assert j == 1;
    } else {
      assert j == 0;
    }
  }

  /** The latitude digit the pair loop writes in its round i. */
  lemma PairLatitudeDigit(latVal: nat, lngVal: nat, i: nat)
    requires i < 5
    ensures DigitIndex(latVal, lngVal, 8 - 2 * i)
            == (latVal / Pow(GridRows, GridCodeLength) / Pow(EncodingBase, i)) % EncodingBase
  {
    assert Pow(GridRows, GridCodeLength) == 3125;
    var pairs := latVal / Pow(GridRows, GridCodeLength);
    var j := 4 - i;
    PairDigits(latVal, lngVal, j);
    DigitAtPlace(pairs, EncodingBase, 5, i);
    if i == 0 {
      assert j == 4;
    } else if i == 1 {
      assert j == 3;
    } else if i == 2 {
      assert j == 2;
    } else if i == 3 {
      assert j == 1;
    } else {
      assert j == 0;
    }
  }

  /** The source's buffer before any digit is written. */
  const InitialBuffer: string := "123456789abcdef"

  /** The integer part of Encode, with the source's buffer and loops. */
  method EncodeFixedPoint(latVal: nat, lngVal: nat, codeLength: nat) returns (code: string)
    requires LegalLength(codeLength)
    ensures code == EncodedCode(latVal, lngVal, codeLength)
  {
    ghost var ds := SignificantDigits(latVal, lngVal);
    var buffer := new char[MaximumDigitCount](i requires 0 <= i < MaximumDigitCount => InitialBuffer[i]);
    var lat := latVal;
    var lng := lngVal;
    if codeLength > PairCodeLength {
      lat, lng := WriteGridDigits(buffer, latVal, lngVal);
    } else {
      lat := lat / Pow(GridRows, GridCodeLength);
      lng := lng / Pow(GridColumns, GridCodeLength);
    }
    WritePairDigits(buffer, latVal, lngVal, lat, lng);
    assert buffer[..PairCodeLength] == ds[..PairCodeLength];
    assert codeLength > PairCodeLength ==> buffer[..] == ds;
    code := InsertSeparator(buffer[..]);
    if codeLength >= SeparatorPosition {
      code := Substring(code, 0, codeLength + 1);
      assert code == ds[..SeparatorPosition] + [Separator] + ds[SeparatorPosition..codeLength];
      assert code == FormatCode(ds, codeLength);
      return;
    }
    // Pad up to the separator.
    ghost var unpadded := code;
    for i := codeLength to SeparatorPosition
      invariant |code| == |unpadded|
      invariant forall k | 0 <= k < |code| :: code[k] == (if codeLength <= k < i then Padding else unpadded[k])
    {
      code := code[i := Padding];
    }
    code := Substring(code, 0, SeparatorPosition + 1);
    assert code == ds[..codeLength] + Repeat(Padding, SeparatorPosition - codeLength) + [Separator];
    assert code == FormatCode(ds, codeLength);
  }

  /** The grid part of Encode: the last five digits, last one first. Hands
      back the coordinates with the grid part divided off. */
  method WriteGridDigits(buffer: array<char>, latVal: nat, lngVal: nat) returns (lat: nat, lng: nat)
    requires buffer.Length == MaximumDigitCount
    modifies buffer
    ensures lat == latVal / Pow(GridRows, GridCodeLength) && lng == lngVal / Pow(GridColumns, GridCodeLength)
    ensures forall k | PairCodeLength <= k < MaximumDigitCount ::
              buffer[k] == SignificantDigits(latVal, lngVal)[k]
    ensures forall k | 0 <= k < PairCodeLength :: buffer[k] == old(buffer[k])
  {
    ghost var ds := SignificantDigits(latVal, lngVal);
    lat, lng := latVal, lngVal;
    var pos: int := MaximumDigitCount - 1;
    for i := 0 to GridCodeLength
      invariant pos == MaximumDigitCount - 1 - i
      invariant lat == latVal / Pow(GridRows, i) && lng == lngVal / Pow(GridColumns, i)
      invariant forall k | pos < k < MaximumDigitCount :: buffer[k] == ds[k]
      invariant forall k | 0 <= k < PairCodeLength :: buffer[k] == old(buffer[k])
    {
      var latDigit := lat % GridRows;
      var lngDigit := lng % GridColumns;
      var ndx := latDigit * GridColumns + lngDigit;
      GridDigit(latVal, lngVal, i);
      buffer[pos] := Alphabet[ndx];
      pos := pos - 1;
      NextPlace(latVal, GridRows, i);
      NextPlace(lngVal, GridColumns, i);
      lat := lat / GridRows;
      lng := lng / GridColumns;
    }
  }

  /** The pair part of Encode: ten digits, last pair first, longitude digit
      before latitude digit, from the coordinates with the grid part
      divided off. */
  method WritePairDigits(buffer: array<char>, ghost latVal: nat, ghost lngVal: nat, latPairs: nat, lngPairs: nat)
    requires buffer.Length == MaximumDigitCount
    requires latPairs == latVal / Pow(GridRows, GridCodeLength)
    requires lngPairs == lngVal / Pow(GridColumns, GridCodeLength)
    modifies buffer
    ensures forall k | 0 <= k < PairCodeLength :: buffer[k] == SignificantDigits(latVal, lngVal)[k]
    ensures forall k | PairCodeLength <= k < MaximumDigitCount :: buffer[k] == old(buffer[k])
  {
    ghost var ds := SignificantDigits(latVal, lngVal);
    var lat, lng := latPairs, lngPairs;
    var pos: int := PairCodeLength - 1;
    for i := 0 to PairCodeLength / 2
      invariant pos == PairCodeLength - 1 - 2 * i
      invariant lat == latPairs / Pow(EncodingBase, i) && lng == lngPairs / Pow(EncodingBase, i)
      invariant forall k | pos < k < PairCodeLength :: buffer[k] == ds[k]
      invariant forall k | PairCodeLength <= k < MaximumDigitCount :: buffer[k] == old(buffer[k])
    {
      var latNdx := lat % EncodingBase;
      var lngNdx := lng % EncodingBase;
      PairLongitudeDigit(latVal, lngVal, i);
      PairLatitudeDigit(latVal, lngVal, i);
      buffer[pos] := Alphabet[lngNdx];
      pos := pos - 1;
      buffer[pos] := Alphabet[latNdx];
      pos := pos - 1;
      NextPlace(latPairs, EncodingBase, i);
      NextPlace(lngPairs, EncodingBase, i);
      lat := lat / EncodingBase;
      lng := lng / EncodingBase;
    }
  }

  /** The separator goes in after the eighth digit. */
  function InsertSeparator(digits: string): (code: string)
    requires |digits| == MaximumDigitCount
    ensures |code| == MaximumDigitCount + 1 && code[SeparatorPosition] == Separator
    ensures forall k | 0 <= k < SeparatorPosition :: code[k] == digits[k]
    ensures forall k | SeparatorPosition < k < |code| :: code[k] == digits[k - 1]
  {
    digits[..SeparatorPosition] + [Separator] + digits[SeparatorPosition..]
  }

  /** Every symbol of the alphabet is recognised by the lookup. */
  lemma AlphabetSymbolsRecognised()
    ensures forall i | 0 <= i < |Alphabet| :: IsAlphabetChar(Alphabet[i]) && AlphabetPosition(Alphabet[i]) == i
  {
    forall i | 0 <= i < |Alphabet|
      ensures IsAlphabetChar(Alphabet[i]) && AlphabetPosition(Alphabet[i]) == i
    {
      AlphabetRoundTrip(i);
    }
  }

  /** Laid out by FormatCode, symbols make a valid code with the separator
      at index 8 and, below eight digits, padding from index n on. */
  lemma FormattedCodeValid(digits: string, n: nat)
    requires |digits| == MaximumDigitCount && LegalLength(n)
    requires forall k | 0 <= k < |digits| :: digits[k] in Alphabet
    ensures var code := FormatCode(digits, n);
            && ValidCode(code)
            && SeparatorIndex(code) == SeparatorPosition
            && (n >= SeparatorPosition ==> Padding !in code)
            && (n < SeparatorPosition ==> Padding in code && FirstIndex(code, Padding) == n)
  {
    var code := FormatCode(digits, n);
    AlphabetSymbolsRecognised();
    SeparatorAndPaddingAreNotSymbols();
    assert forall k | 0 <= k < |digits| :: IsAlphabetChar(digits[k]) && digits[k] != Padding && digits[k] != Separator;
    FormattedCodeSeparator(digits, n);
    if n >= SeparatorPosition {
      FormattedCodeUnpadded(digits, n);
    } else {
      FormattedCodePadding(digits, n);
    }
  }

  lemma FormattedCodeUnpadded(digits: string, n: nat)
    requires |digits| == MaximumDigitCount && LegalLength(n) && n >= SeparatorPosition
    requires forall k | 0 <= k < |digits| :: digits[k] != Padding
    ensures Padding !in FormatCode(digits, n)
  {
    var code := FormatCode(digits, n);
    forall k | 0 <= k < |code|
      ensures code[k] != Padding
    {
      if k < SeparatorPosition {
        assert code[k] == digits[k];
      } else if k > SeparatorPosition {
        assert code[k] == digits[k - 1];
      }
    }
  }

  lemma FormattedCodeSeparator(digits: string, n: nat)
    requires |digits| == MaximumDigitCount && LegalLength(n)
    requires forall k | 0 <= k < |digits| :: IsAlphabetChar(digits[k]) && digits[k] != Padding && digits[k] != Separator
    ensures var code := FormatCode(digits, n);
            && (forall k | 0 <= k < |code| :: LegalChar(code[k]))
            && Separator in code && FirstIndex(code, Separator) == SeparatorPosition
            && forall k | 0 <= k < |code| && k != SeparatorPosition :: code[k] != Separator
  {
    var code := FormatCode(digits, n);
    assert code[SeparatorPosition] == Separator;
  }

  lemma FormattedCodePadding(digits: string, n: nat)
    requires |digits| == MaximumDigitCount && LegalLength(n) && n < SeparatorPosition
    requires forall k | 0 <= k < |digits| :: digits[k] != Padding && digits[k] != Separator
    requires Separator in FormatCode(digits, n) && FirstIndex(FormatCode(digits, n), Separator) == SeparatorPosition
    ensures var code := FormatCode(digits, n);
            Padding in code && FirstIndex(code, Padding) == n && PaddingWellPlaced(code)
  {
    var code := FormatCode(digits, n);
    assert code[n] == Padding;
    assert forall k | 0 <= k < n :: code[k] != Padding;
  }

  /** A formatted code cleans back to the digits it was made of. */
  lemma FormattedCodeCleans(digits: string, n: nat)
    requires |digits| == MaximumDigitCount && LegalLength(n)
    requires forall k | 0 <= k < |digits| :: digits[k] in Alphabet
    ensures var code := FormatCode(digits, n);
            CleanCode(code) == digits[..n] && CodeLength(code) == n
  {
    var code := FormatCode(digits, n);
    FormattedCodeValid(digits, n);
    ValidCodeCleansToSymbols(code);
    StrippedValidCode(code);
    var stripped := code[..SeparatorPosition] + code[SeparatorPosition + 1..];
    assert CleanCode(code) == stripped[..n];
    if n >= SeparatorPosition {
      assert stripped == digits[..n];
    } else {
      assert stripped[..n] == digits[..n];
    }
  }

  /** An encoded code is valid, has n digits and cleans to the first n
      digits of the coordinates. */
  lemma EncodedCodeValid(latVal: nat, lngVal: nat, n: nat)
    requires LegalLength(n)
    ensures var code := EncodedCode(latVal, lngVal, n);
            && ValidCode(code)
            && CleanCode(code) == SignificantDigits(latVal, lngVal)[..n]
            && CodeLength(code) == n
  {
    var ds := SignificantDigits(latVal, lngVal);
    assert forall k | 0 <= k < |ds| :: ds[k] in Alphabet;
    FormattedCodeValid(ds, n);
    FormattedCodeCleans(ds, n);
  }

  /** Inside the globe the first latitude digit stays below 9 and the first
      longitude digit below 18. */
  lemma FirstDigitsInRange(latVal: nat, lngVal: nat)
    requires latVal < 2 * LatitudeMaxDegrees * GridLatPrecisionInverse
    requires lngVal < 2 * LongitudeMaxDegrees * GridLngPrecisionInverse
    ensures DigitIndex(latVal, lngVal, 0) < 9 && DigitIndex(latVal, lngVal, 1) < 18
  {
    assert Pow(GridRows, GridCodeLength) == 3125 && Pow(GridColumns, GridCodeLength) == 1024;
    assert Pow(EncodingBase, 4) == 160000;
    var latPairs := latVal / 3125;
    var lngPairs := lngVal / 1024;
    assert DigitIndex(latVal, lngVal, 0) == latPairs / 160000 % 20;
    assert DigitIndex(latVal, lngVal, 1) == lngPairs / 160000 % 20;
    DivDiv(latVal, 3125, 160000);
    DivDiv(lngVal, 1024, 160000);
  }

  /** Coordinates inside the globe give a full code. */
  lemma EncodedCodeFull(latVal: nat, lngVal: nat, n: nat)
    requires LegalLength(n)
    requires latVal < 2 * LatitudeMaxDegrees * GridLatPrecisionInverse
    requires lngVal < 2 * LongitudeMaxDegrees * GridLngPrecisionInverse
    ensures IsFull(EncodedCode(latVal, lngVal, n))
  {
    var code := EncodedCode(latVal, lngVal, n);
    var ds := SignificantDigits(latVal, lngVal);
    EncodedCodeValid(latVal, lngVal, n);
    FirstDigitsInRange(latVal, lngVal);
    AlphabetSymbolsRecognised();
    assert code[0] == ds[0] && code[1] == ds[1];
    assert FirstIndex(code, Separator) == SeparatorPosition;
  }

  /** The location Encode works on: the latitude clamped for the length,
      the longitude normalised, both in fixed point. */
  function LatitudeValue(location: LatLng, n: nat): (v: nat)
    requires n >= MinimumDigitCount
    ensures v < 2 * LatitudeMaxDegrees * GridLatPrecisionInverse
  {
    LatitudeToFixed(AdjustLatitude(location.latitude, n))
  }

  function LongitudeValue(location: LatLng): (v: nat)
    ensures v < 2 * LongitudeMaxDegrees * GridLngPrecisionInverse
  {
    LongitudeToFixed(NormalizedLongitude(location.longitude))
  }

  /** What Encode returns. */
  function EncodedLocation(location: LatLng, codeLength: nat): (code: string)
    ensures |code| > SeparatorPosition
  {
    var n := EffectiveLength(codeLength);
    EncodedCode(LatitudeValue(location, n), LongitudeValue(location), n)
  }

  /** Encode always returns a full code of the effective length. */
  lemma EncodedLocationFull(location: LatLng, codeLength: nat)
    ensures var code := EncodedLocation(location, codeLength);
            IsFull(code) && CodeLength(code) == EffectiveLength(codeLength)
  {
    var n := EffectiveLength(codeLength);
    EncodedCodeValid(LatitudeValue(location, n), LongitudeValue(location), n);
    EncodedCodeFull(LatitudeValue(location, n), LongitudeValue(location), n);
  }

  /** The shape of what Encode returns: one separator, at index 8; the
      effective length plus one characters, or nine when there are fewer
      than eight digits, with padding from the last digit up to the
      separator; every other character a symbol of the alphabet. */
  lemma EncodedLocationShape(location: LatLng, codeLength: nat)
    ensures var code := EncodedLocation(location, codeLength);
            var n := EffectiveLength(codeLength);
            && |code| == (if n >= SeparatorPosition then n + 1 else SeparatorPosition + 1)
            && code[SeparatorPosition] == Separator
            && (forall k | 0 <= k < |code| && k != SeparatorPosition :: code[k] != Separator)
            && (forall k | n <= k < SeparatorPosition :: code[k] == Padding)
            && (forall k | 0 <= k < |code| && code[k] != Separator && code[k] != Padding :: code[k] in Alphabet)
  {
    var n := EffectiveLength(codeLength);
    var ds := SignificantDigits(LatitudeValue(location, n), LongitudeValue(location));
    assert EncodedLocation(location, codeLength) == FormatCode(ds, n);
    assert forall k | 0 <= k < |ds| :: ds[k] in Alphabet;
    FormattedCodeShape(ds, n);
  }

  /** EncodedLocationShape for any digits of the alphabet. */
  lemma FormattedCodeShape(digits: string, n: nat)
    requires |digits| == MaximumDigitCount && LegalLength(n)
    requires forall k | 0 <= k < |digits| :: digits[k] in Alphabet
    ensures var code := FormatCode(digits, n);
            && code[SeparatorPosition] == Separator
            && (forall k | 0 <= k < |code| && k != SeparatorPosition :: code[k] != Separator)
            && (forall k | n <= k < SeparatorPosition :: code[k] == Padding)
            && (forall k | 0 <= k < |code| && code[k] != Separator && code[k] != Padding :: code[k] in Alphabet)
  {
    var code := FormatCode(digits, n);
    SeparatorAndPaddingAreNotSymbols();
    forall k | 0 <= k < |code| && k != SeparatorPosition
      ensures code[k] != Separator && (code[k] != Padding ==> code[k] in Alphabet)
    {
      if n >= SeparatorPosition {
        if k < SeparatorPosition {
          assert code[k] == digits[k];
        } else {
          assert code[k] == digits[k - 1];
        }
      } else if k < n {
        assert code[k] == digits[k];
      } else {
        assert code[k] == Padding;
      }
    }
  }

  /** Encode with a requested length. */
  method Encode(location: LatLng, codeLength: nat) returns (code: string)
    ensures code == EncodedLocation(location, codeLength)
  {
    var n := NatMax(NatMin(codeLength, MaximumDigitCount), MinimumDigitCount);
    if n < PairCodeLength && n % 2 == 1 {
      n := n + 1;
    }
    assert n == EffectiveLength(codeLength);
    var latitude := AdjustLatitude(location.latitude, n);
    var longitude := NormalizeLongitude(location.longitude);
    var latVal := LatitudeToFixed(latitude);
    var lngVal := LongitudeToFixed(longitude);
    assert latVal == LatitudeValue(location, n) && lngVal == LongitudeValue(location);
    code := EncodeFixedPoint(latVal, lngVal, n);
  }

  /** Encode with the default length of ten digits: a full code of five
      pairs. */
  method EncodePairs(location: LatLng) returns (code: string)
    ensures code == EncodedLocation(location, PairCodeLength)
    ensures IsFull(code) && CodeLength(code) == PairCodeLength && |code| == PairCodeLength + 1
  {
    code := Encode(location, PairCodeLength);
    EncodedLocationFull(location, PairCodeLength);
  }
}
