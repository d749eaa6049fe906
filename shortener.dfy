/** Shorten and RecoverNearest (openlocationcode.cpp): dropping the leading
    digits of a full code that a nearby reference location can restore, and
    restoring them from that reference. */
module Shortener {
  import opened Arithmetic
  import opened Text
  import opened Symbols
  import opened CodeAreas
  import opened Precision
  import opened Validator
  import opened Encoder
  import opened Decoder
  import opened RoundTrip

  /** Shorten keeps a margin: the reference must lie within 0.3 of a cell,
      not just within half of one. */
  const SafetyFactor: real := 0.3
  /** The numbers of leading characters Shorten tries to drop, in order. */
  const RemovalLengths: seq<nat> := [8, 6, 4]

  function Abs(x: real): (r: real)
    ensures r >= 0.0 && (r == x || r == -x)
  {
    if x < 0.0 then -x else x
  }

  /** The distance Shorten measures: the larger of the two axis distances
      between the code's centre and the reference location, once the
      reference is clamped and normalised for this code. */
  function ShortenRange(code: string, reference: LatLng): (range: real)
    requires ValidCode(code)
    ensures range >= 0.0
    ensures DecodedDigits(code) != [] &&
            var center := DecodedArea(code).GetCenter();
            var latitude := AdjustLatitude(reference.latitude, CodeLength(code));
            var longitude := NormalizedLongitude(reference.longitude);
            && Abs(center.latitude - latitude) <= range
            && Abs(center.longitude - longitude) <= range
            && (range == Abs(center.latitude - latitude) || range == Abs(center.longitude - longitude))
  {
    ValidCodeDecodable(code);
    var center := DecodedArea(code).GetCenter();
    var latitude := AdjustLatitude(reference.latitude, CodeLength(code));
    var longitude := NormalizedLongitude(reference.longitude);
    RealMax(Abs(center.latitude - latitude), Abs(center.longitude - longitude))
  }

  /** The distance below which k leading characters may be dropped. */
  function RemovalThreshold(k: nat): real
  {
    ComputePrecisionForLength(k) * SafetyFactor
  }

  /** The first of the lengths whose threshold the range is below, or 0. */
  function FirstRemoval(range: real, lengths: seq<nat>): (k: nat)
    ensures k == 0 || k in lengths
  {
    if lengths == [] then 0
    else if range < RemovalThreshold(lengths[0]) then lengths[0]
    else FirstRemoval(range, lengths[1..])
  }

  /** Trying 8, 6 and 4 in turn drops the most characters the range allows:
      the result is 8, 6, 4 or 0 according to the band the range falls in,
      it is the longest removal whose threshold is met, and 0 exactly when
      none is. */
  lemma RemovalBands(range: real)
    ensures var k := FirstRemoval(range, RemovalLengths);
            && k == (if range < 0.00075 then 8 else if range < 0.015 then 6 else if range < 0.3 then 4 else 0)
            && (k != 0 ==> range < RemovalThreshold(k))
            && (k == 0 <==> forall j | j in RemovalLengths :: range >= RemovalThreshold(j))
            && (forall j | j in RemovalLengths && j > k :: range >= RemovalThreshold(j))
  {
    assert Pow(EncodingBase, 2) == 400 && Pow(EncodingBase, 1) == 20;
    assert RemovalThreshold(8) == 0.00075;
    assert RemovalThreshold(6) == 0.015;
    assert RemovalThreshold(4) == 0.3;
    assert RemovalLengths[1..] == [6, 4] && [6, 4][1..] == [4] && [4][1..] == [];
    assert FirstRemoval(range, [4]) == if range < 0.3 then 4 else 0;
    assert FirstRemoval(range, [6, 4]) == if range < 0.015 then 6 else FirstRemoval(range, [4]);
  }

  /** Shorten, with the source's loop over the removal lengths. */
  method Shorten(code: string, reference: LatLng) returns (shortened: string)
    ensures !IsFull(code) || Padding in code ==> shortened == code
    ensures IsFull(code) && Padding !in code ==>
              var k := FirstRemoval(ShortenRange(code, reference), RemovalLengths);
              k < |code| && shortened == code[k..]
  {
    if !IsFull(code) {
      return code;
    }
    if IndexOf(code, Padding).Some? {
      return code;
    }
    ValidCodeDecodable(code);
    var codeArea := Decode(code);
    var center := codeArea.GetCenter();
    var latitude := AdjustLatitude(reference.latitude, CodeLength(code));
    var longitude := NormalizeLongitude(reference.longitude);
    var range := RealMax(Abs(center.latitude - latitude), Abs(center.longitude - longitude));
    assert range == ShortenRange(code, reference);
    FullCodeFacts(code);
    shortened := code;
    for i := 0 to |RemovalLengths|
      invariant shortened == code
      invariant FirstRemoval(range, RemovalLengths) == FirstRemoval(range, RemovalLengths[i..])
    {
      var removalLength := RemovalLengths[i];
      var areaEdge := ComputePrecisionForLength(removalLength) * SafetyFactor;
      assert RemovalLengths[i..][1..] == RemovalLengths[i + 1..];
      if range < areaEdge {
        shortened := code[removalLength..];
        break;
      }
    }
  }

  /** What a removal leaves of a full code without padding: the code is the
      dropped prefix followed by the rest, and the rest is a short code with
      k fewer digits, except that dropping 8 from a code with nothing after
      its separator leaves the separator alone, which is not valid. */
  lemma ShortenedForms(code: string, k: nat)
    requires IsFull(code) && Padding !in code && k in RemovalLengths
    ensures k < |code|
    ensures k < SeparatorPosition || |code| > SeparatorPosition + 1 ==>
              IsShort(code[k..]) && CodeLength(code[k..]) == CodeLength(code) - k
    ensures k == SeparatorPosition && |code| == SeparatorPosition + 1 ==>
              code[k..] == [Separator] && !ValidCode(code[k..])
  {
    assert ValidCode(code) && SeparatorIndex(code) == SeparatorPosition by {
      FullCodeFacts(code);
    }
    if k < SeparatorPosition || |code| > SeparatorPosition + 1 {
      SuffixValid(code, k);
      assert CodeLength(code[k..]) == |code| - k - 1 by {
        ShortCodeFacts(code[k..]);
      }
      assert CodeLength(code) == |code| - 1 by {
        ValidCodeCleansToSymbols(code);
      }
    } else {
      assert code[k..] == [Separator];
    }
  }

  /** What follows the first k digits of a valid code without padding is a
      valid code whose separator sits k places earlier. */
  lemma SuffixValid(code: string, k: nat)
    requires ValidCode(code) && Padding !in code && SeparatorIndex(code) == SeparatorPosition
    requires k % 2 == 0 && k <= SeparatorPosition
    requires k < SeparatorPosition || |code| > SeparatorPosition + 1
    ensures ValidCode(code[k..]) && FirstIndex(code[k..], Separator) == SeparatorPosition - k
    ensures Padding !in code[k..] && |code[k..]| == |code| - k
  {
    var rest := code[k..];
    var s := SeparatorPosition - k;
    assert rest[s] == Separator;
    FirstIndexAt(rest, Separator, s);
    forall i | s < i < |rest|
      ensures rest[i] != Separator
    {
      assert rest[i] == code[i + k];
    }
    forall i | 0 <= i < |rest|
      ensures LegalChar(rest[i]) && rest[i] != Padding
    {
      assert rest[i] == code[i + k];
    }
    assert |rest| - s - 1 == |code| - SeparatorPosition - 1;
  }

  /** The number of digits a short code lacks: eight less its separator
      index. */
  function PaddingLength(shortCode: string): (p: nat)
    requires IsShort(shortCode)
    ensures 2 <= p <= SeparatorPosition && p % 2 == 0
    ensures p + SeparatorIndex(shortCode) == SeparatorPosition
  {
    SeparatorPosition - SeparatorIndex(shortCode)
  }

  /** Height and width in degrees of the area the missing digits stand for.
      The source computes 2.0 - padding_length / 2.0 in doubles; the length
      is even, so the exponent is the whole number 2 - p / 2. */
  function Resolution(paddingLength: nat): (r: real)
    ensures r > 0.0
  {
    PowNeg(EncodingBase, 2 - paddingLength / 2)
  }

  /** A code whose first character is a symbol cleans to at least one
      digit. */
  lemma LeadingSymbolDecodable(code: string)
    requires code != [] && IsAlphabetChar(code[0])
    ensures DecodedDigits(code) != []
  {
    SeparatorAndPaddingAreNotSymbols();
    assert RemoveAll(code, Separator) == [code[0]] + RemoveAll(code[1..], Separator);
  }

  /** The short code with the reference's leading digits put in front. */
  function PaddedCode(shortCode: string, latitude: real, longitude: real): (padded: string)
    requires IsShort(shortCode)
    ensures |padded| == PaddingLength(shortCode) + |shortCode|
    ensures padded[PaddingLength(shortCode)..] == shortCode
    ensures DecodedDigits(padded) != []
  {
    var p := PaddingLength(shortCode);
    var paddingCode := EncodedLocation(LatLng(latitude, longitude), PairCodeLength);
    EncodedLocationFull(LatLng(latitude, longitude), PairCodeLength);
    FullCodeFacts(paddingCode);
    ValidCodeCleansToSymbols(paddingCode);
    var padded := paddingCode[..p] + shortCode;
    LeadingSymbolDecodable(padded);
    padded
  }

  /** The centre of the padded area moved by one cell towards the reference
      where it lies more than half a cell away; in latitude only if the
      moved centre stays strictly between the poles. */
  function NearestCenter(latitude: real, longitude: real, center: LatLng, resolution: real): (r: LatLng)
    requires resolution > 0.0
    ensures center.latitude - resolution <= r.latitude <= center.latitude + resolution
    ensures center.longitude - resolution <= r.longitude <= center.longitude + resolution
  {
    var halfRes := resolution / 2.0;
    var lat :=
      if latitude + halfRes < center.latitude && center.latitude - resolution > -(LatitudeMaxDegrees as real)
      then center.latitude - resolution
      else if latitude - halfRes > center.latitude && center.latitude + resolution < LatitudeMaxDegrees as real
      then center.latitude + resolution
      else center.latitude;
    var lng :=
      if longitude + halfRes < center.longitude then center.longitude - resolution
      else if longitude - halfRes > center.longitude then center.longitude + resolution
      else center.longitude;
    LatLng(lat, lng)
  }

  /** Each coordinate of the nearest centre moves by a whole cell or not at
      all, and only towards the reference. */
  lemma NearestCenterMoves(latitude: real, longitude: real, center: LatLng, resolution: real)
    requires resolution > 0.0
    ensures var r := NearestCenter(latitude, longitude, center, resolution);
            // each coordinate moves by a whole cell or not at all
            && r.latitude in {center.latitude - resolution, center.latitude, center.latitude + resolution}
            && r.longitude in {center.longitude - resolution, center.longitude, center.longitude + resolution}
            // a latitude move goes towards the reference and does not reach the pole it heads for
            && (r.latitude < center.latitude ==> r.latitude > -(LatitudeMaxDegrees as real))
            && (r.latitude > center.latitude ==> r.latitude < LatitudeMaxDegrees as real)
            && (r.latitude != center.latitude ==> Abs(r.latitude - latitude) < Abs(center.latitude - latitude))
            // so a centre between the poles stays strictly between them
            && (-(LatitudeMaxDegrees as real) <= center.latitude <= LatitudeMaxDegrees as real ==>
                  r.latitude == center.latitude || -(LatitudeMaxDegrees as real) < r.latitude < LatitudeMaxDegrees as real)
            // a latitude left alone is within half a cell, or moving it would cross a pole
            && (r.latitude == center.latitude ==>
                  || Abs(center.latitude - latitude) <= resolution / 2.0
                  || (center.latitude > latitude && center.latitude - resolution <= -(LatitudeMaxDegrees as real))
                  || (center.latitude < latitude && center.latitude + resolution >= LatitudeMaxDegrees as real))
            // a longitude moves exactly when it is more than half a cell away, and towards the reference
            && (r.longitude == center.longitude <==> Abs(center.longitude - longitude) <= resolution / 2.0)
            && (r.longitude != center.longitude ==> Abs(r.longitude - longitude) < Abs(center.longitude - longitude))
  {
  }

  /** The number of digits RecoverNearest asks Encode for: those of the
      short code and those it lacks. */
  function RecoveryLength(shortCode: string): nat
    requires IsShort(shortCode)
  {
    CodeLength(shortCode) + PaddingLength(shortCode)
  }

  /** The centre RecoverNearest encodes: that of the short code padded with
      the reference's leading digits, moved towards the reference. */
  function RecoveryCenter(shortCode: string, reference: LatLng): (center: LatLng)
    requires IsShort(shortCode)
  {
    var latitude := AdjustLatitude(reference.latitude, CodeLength(shortCode));
    var longitude := NormalizedLongitude(reference.longitude);
    var padded := PaddedCode(shortCode, latitude, longitude);
    NearestCenter(latitude, longitude, DecodedArea(padded).GetCenter(), Resolution(PaddingLength(shortCode)))
  }

  /** What RecoverNearest returns: a code that is not short upper-cased,
      a short code encoded at the recovery centre and length. */
  function RecoveredCode(shortCode: string, reference: LatLng): (code: string)
    ensures !IsShort(shortCode) ==> |code| == |shortCode|
  {
    if !IsShort(shortCode) then ToUpper(shortCode)
    else EncodedLocation(RecoveryCenter(shortCode, reference), RecoveryLength(shortCode))
  }

  /** RecoverNearest, step by step as the source takes them. */
  method RecoverNearest(shortCode: string, reference: LatLng) returns (code: string)
    ensures code == RecoveredCode(shortCode, reference)
  {
    if !IsShort(shortCode) {
      return ToUpper(shortCode);
    }
    var latitude := AdjustLatitude(reference.latitude, CodeLength(shortCode));
    var longitude := NormalizeLongitude(reference.longitude);
    var paddingLength := SeparatorPosition - FirstIndex(shortCode, Separator);
    assert paddingLength == PaddingLength(shortCode);
    var resolution := Resolution(paddingLength);
    var codeRect := DecodePadded(shortCode, latitude, longitude);
    var center := MoveTowardsReference(latitude, longitude, codeRect.GetCenter(), resolution);
    var codeLength := CodeLength(shortCode) + paddingLength;
    code := Encode(center, codeLength);
    RecoverySteps(shortCode, reference, latitude, longitude, codeRect, center, codeLength);
  }

  /** The values RecoverNearest computes on its way are those the recovery
      functions name. */
  lemma RecoverySteps(shortCode: string, reference: LatLng, latitude: real, longitude: real,
                      codeRect: CodeArea, center: LatLng, codeLength: nat)
    requires IsShort(shortCode)
    requires latitude == AdjustLatitude(reference.latitude, CodeLength(shortCode))
    requires longitude == NormalizedLongitude(reference.longitude)
    requires codeRect == DecodedArea(PaddedCode(shortCode, latitude, longitude))
    requires center == NearestCenter(latitude, longitude, codeRect.GetCenter(), Resolution(PaddingLength(shortCode)))
    requires codeLength == CodeLength(shortCode) + PaddingLength(shortCode)
    ensures RecoveredCode(shortCode, reference) == EncodedLocation(center, codeLength)
  {
    assert center == RecoveryCenter(shortCode, reference);
    assert codeLength == RecoveryLength(shortCode);
  }

  /** The first steps of RecoverNearest on a short code: the reference
      encoded at the default length, as many of its leading characters as
      the short code lacks put in front of it, and the result decoded. */
  method DecodePadded(shortCode: string, latitude: real, longitude: real) returns (codeRect: CodeArea)
    requires IsShort(shortCode)
    ensures codeRect == DecodedArea(PaddedCode(shortCode, latitude, longitude))
  {
    var paddingLength := SeparatorPosition - FirstIndex(shortCode, Separator);
    var paddingCode := EncodePairs(LatLng(latitude, longitude));
    PaddingPrefix(shortCode, latitude, longitude, paddingCode, paddingLength);
    var padded := paddingCode[..paddingLength] + shortCode;
    codeRect := Decode(padded);
  }

  /** The code DecodePadded builds is the padded code. */
  lemma PaddingPrefix(shortCode: string, latitude: real, longitude: real, paddingCode: string, paddingLength: int)
    requires IsShort(shortCode)
    requires paddingCode == EncodedLocation(LatLng(latitude, longitude), PairCodeLength)
    requires |paddingCode| == PairCodeLength + 1
    requires paddingLength == SeparatorPosition - FirstIndex(shortCode, Separator)
    ensures 0 <= paddingLength <= |paddingCode|
    ensures paddingCode[..paddingLength] + shortCode == PaddedCode(shortCode, latitude, longitude)
  {
    assert paddingLength == PaddingLength(shortCode);
  }

  /** The shifts of RecoverNearest: a cell south or north when the centre
      is more than half a cell from the reference and the move stays off
      the pole, a cell west or east when it is more than half a cell away. */
  method MoveTowardsReference(latitude: real, longitude: real, center: LatLng, resolution: real)
    returns (moved: LatLng)
    requires resolution > 0.0
    ensures moved == NearestCenter(latitude, longitude, center, resolution)
  {
    var halfRes := resolution / 2.0;
    var centerLat := center.latitude;
    var centerLng := center.longitude;
    if latitude + halfRes < centerLat && centerLat - resolution > -(LatitudeMaxDegrees as real) {
      centerLat := centerLat - resolution;
    } else if latitude - halfRes > centerLat && centerLat + resolution < LatitudeMaxDegrees as real {
      centerLat := centerLat + resolution;
    }
    if longitude + halfRes < centerLng {
      centerLng := centerLng - resolution;
    } else if longitude - halfRes > centerLng {
      centerLng := centerLng + resolution;
    }
    moved := LatLng(centerLat, centerLng);
  }

  /** A recovered code is a full code with the digits of the short code
      plus the missing ones, at most 15: eight, or ten or more. */
  lemma RecoveredCodeLength(shortCode: string, reference: LatLng)
    requires IsShort(shortCode)
    ensures var code := EncodedLocation(RecoveryCenter(shortCode, reference), RecoveryLength(shortCode));
            var n := |shortCode| - 1 - SeparatorIndex(shortCode) + SeparatorPosition;
            IsFull(code) && CodeLength(code) == if n > MaximumDigitCount then MaximumDigitCount else n
  {
    RecoveryLengthAnyCenter(shortCode, RecoveryCenter(shortCode, reference));
  }

  /** RecoveredCodeLength for whatever centre the recovery encodes. */
  lemma RecoveryLengthAnyCenter(shortCode: string, center: LatLng)
    requires IsShort(shortCode)
    ensures var code := EncodedLocation(center, RecoveryLength(shortCode));
            var n := |shortCode| - 1 - SeparatorIndex(shortCode) + SeparatorPosition;
            IsFull(code) && CodeLength(code) == if n > MaximumDigitCount then MaximumDigitCount else n
  {
    EncodedLocationFull(center, RecoveryLength(shortCode));
    ShortCodeFacts(shortCode);
    var n := |shortCode| - 1 - SeparatorIndex(shortCode) + SeparatorPosition;
    assert RecoveryLength(shortCode) == n;
    assert n == SeparatorPosition || n >= PairCodeLength;
  }

  /** Decoding the recovered code gives back an area around the centre that
      RecoverNearest chose, clamped and normalised as Encode does. */
  lemma RecoveredAreaContainsCenter(shortCode: string, reference: LatLng)
    requires IsShort(shortCode)
    ensures var center := RecoveryCenter(shortCode, reference);
            var n := EffectiveLength(RecoveryLength(shortCode));
            var code := EncodedLocation(center, RecoveryLength(shortCode));
            && DecodedDigits(code) != []
            && DecodedArea(code).latitudeLo <= AdjustLatitude(center.latitude, n) < DecodedArea(code).latitudeHi
            && DecodedArea(code).longitudeLo <= NormalizedLongitude(center.longitude) < DecodedArea(code).longitudeHi
  {
    EncodeDecodeRoundTrip(RecoveryCenter(shortCode, reference), RecoveryLength(shortCode));
  }
}
