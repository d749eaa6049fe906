/** The decoded area of a code: an immutable bounding box plus the number of
    significant digits that produced it (codearea.h, codearea.cpp). Being a
    datatype, a CodeArea cannot change after it is built, which is what the
    source's const accessors and absent setters promise. */
module CodeAreas {
  import Precision

  /** A coordinate pair in degrees. */
  datatype LatLng = LatLng(latitude: real, longitude: real)

  const LatitudeMax: real := 90.0
  const LongitudeMax: real := 180.0

  datatype CodeArea = CodeArea(
    latitudeLo: real,
    longitudeLo: real,
    latitudeHi: real,
    longitudeHi: real,
    codeLength: nat)
  {
    function GetLatitudeLo(): real { latitudeLo }
    function GetLongitudeLo(): real { longitudeLo }
    function GetLatitudeHi(): real { latitudeHi }
    function GetLongitudeHi(): real { longitudeHi }
    function GetCodeLength(): nat { codeLength }

    /** The midpoint of each axis, capped at the axis maximum in case the
        upper bound overshoots it. */
    function GetCenter(): (center: LatLng)
      // never beyond the pole or the antimeridian, whatever the bounds
      ensures center.latitude <= LatitudeMax && center.longitude <= LongitudeMax
      // the midpoint, unless that lies beyond the maximum, which is then taken
      ensures center.latitude <= latitudeLo + (latitudeHi - latitudeLo) / 2.0
      ensures center.latitude == latitudeLo + (latitudeHi - latitudeLo) / 2.0
              || center.latitude == LatitudeMax
      ensures center.longitude <= longitudeLo + (longitudeHi - longitudeLo) / 2.0
      ensures center.longitude == longitudeLo + (longitudeHi - longitudeLo) / 2.0
              || center.longitude == LongitudeMax
      // a box that respects the maximum has its exact midpoint as centre
      ensures latitudeLo <= latitudeHi <= LatitudeMax ==>
                center.latitude == (latitudeLo + latitudeHi) / 2.0
                && latitudeLo <= center.latitude <= latitudeHi
      ensures longitudeLo <= longitudeHi <= LongitudeMax ==>
                center.longitude == (longitudeLo + longitudeHi) / 2.0
                && longitudeLo <= center.longitude <= longitudeHi
    {
      LatLng(Precision.RealMin(latitudeLo + (latitudeHi - latitudeLo) / 2.0, LatitudeMax),
             Precision.RealMin(longitudeLo + (longitudeHi - longitudeLo) / 2.0, LongitudeMax))
    }
  }

  /** Each accessor hands back the constructor argument in its position. */
  lemma GettersReturnConstructorArguments(
    latitudeLo: real, longitudeLo: real, latitudeHi: real, longitudeHi: real, codeLength: nat)
    ensures var area := CodeArea(latitudeLo, longitudeLo, latitudeHi, longitudeHi, codeLength);
            && area.GetLatitudeLo() == latitudeLo
            && area.GetLongitudeLo() == longitudeLo
            && area.GetLatitudeHi() == latitudeHi
            && area.GetLongitudeHi() == longitudeHi
            && area.GetCodeLength() == codeLength
  {
  }
}
