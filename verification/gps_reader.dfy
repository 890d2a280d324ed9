/** `get_gps_from_image` of example.py: the GPS triple of one image, or
    nothing unless the image has EXIF data, a latitude and a longitude.
    Unlike index.py it applies no default reference: the tags are read
    directly, and a missing tag reads as absent. */
module GpsReader {
  import opened Wrappers
  import opened Coordinates
  import opened Exif
  import Metadata

  /** The returned `(lat, lon, alt)` tuple. */
  datatype GpsTriple = GpsTriple(latitude: Option<real>, longitude: Option<real>, altitude: Option<real>)

  function GetGpsFromImage(img: Image): (r: Option<GpsTriple>)
    ensures r.None? <==>
      !img.HasExif() || img.Attributes().gpsLatitude.None? || img.Attributes().gpsLongitude.None?
    ensures r.Some? ==> r.value.latitude.Some? && r.value.longitude.Some?
    // the signs come from the image's own reference tags
    ensures r.Some? ==>
      r.value.latitude.value == (if IsSouthOrWest(img.Attributes().gpsLatitudeRef)
        then -Unsigned(img.Attributes().gpsLatitude.value) else Unsigned(img.Attributes().gpsLatitude.value))
    ensures r.Some? ==>
      r.value.longitude.value == (if IsSouthOrWest(img.Attributes().gpsLongitudeRef)
        then -Unsigned(img.Attributes().gpsLongitude.value) else Unsigned(img.Attributes().gpsLongitude.value))
    ensures r.Some? ==> (r.value.altitude.Some? <==> img.Attributes().gpsAltitude.Some?)
    ensures r.Some? && r.value.altitude.Some? && img.Attributes().gpsAltitudeRef == Some(Metadata.BelowSeaLevel) ==>
      r.value.altitude.value == -img.Attributes().gpsAltitude.value
    ensures r.Some? && img.Attributes().gpsAltitudeRef != Some(Metadata.BelowSeaLevel) ==>
      r.value.altitude == img.Attributes().gpsAltitude
  {
    var tags := img.Attributes();
    if !img.HasExif() || tags.gpsLatitude.None? || tags.gpsLongitude.None? then None
    else
      var lat := ConvertToDecimalDegrees(tags.gpsLatitude, tags.gpsLatitudeRef);
      var lon := ConvertToDecimalDegrees(tags.gpsLongitude, tags.gpsLongitudeRef);
      // `alt` is absent unless the image has the tag (`hasattr`)
      var alt := tags.gpsAltitude;
      var alt := if alt.Some? && tags.gpsAltitudeRef.Some? && tags.gpsAltitudeRef.value == Metadata.BelowSeaLevel
        then Some(-alt.value) else alt;
      Some(GpsTriple(lat, lon, alt))
  }

  /** Whenever example.py finds a GPS triple, it is the position index.py
      records for the same image: the N/E defaults of index.py never change
      a sign, and both scripts negate the altitude on the same condition. */
  lemma AgreesWithIndexRecord(path: string, img: Image)
    requires GetGpsFromImage(img).Some?
    ensures var t, rec := GetGpsFromImage(img).value, Metadata.ExtractMetadata(path, img);
      t.latitude == rec.latitude && t.longitude == rec.longitude && t.altitude == rec.altitude
  {
  }

  /** An image with a latitude but no longitude gives no triple here,
      whereas index.py still records its latitude. */
  lemma HalfPositionDropped(path: string, img: Image)
    requires img.HasExif() && img.Attributes().gpsLatitude.Some? && img.Attributes().gpsLongitude.None?
    ensures GetGpsFromImage(img) == None
    ensures Metadata.ExtractMetadata(path, img).latitude.Some?
  {
  }
}
