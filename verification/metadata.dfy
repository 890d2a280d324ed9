/** `extract_metadata` of index.py: one image's tags normalised into the
    six-field photo record, with the defaults for missing tags. */
module Metadata {
  import opened Wrappers
  import opened Coordinates
  import opened Exif

  /** The defaults index.py applies to missing tags, in one place. */
  const Unknown := "Unknown"
  const DefaultLatitudeRef := "N"
  const DefaultLongitudeRef := "E"
  const DefaultAltitudeRef := 0
  /** The altitude reference meaning "below sea level". */
  const BelowSeaLevel := 1

  /** One row of the photo index. */
  datatype PhotoRecord = PhotoRecord(
    filename: string,
    timestamp: string,
    latitude: Option<real>,
    longitude: Option<real>,
    altitude: Option<real>,
    camera: string)

  /** `path` without its trailing separators. */
  function StripTrailingSeparators(path: string): (s: string)
    ensures s <= path
    ensures s == [] || s[|s| - 1] != '/'
    ensures forall k :: |s| <= k < |path| ==> path[k] == '/'
  {
    if path != [] && path[|path| - 1] == '/' then StripTrailingSeparators(path[..|path| - 1]) else path
  }

  /** The text after the last separator of `path`. */
  function LastComponent(path: string): (name: string)
    ensures |name| <= |path|
    ensures '/' !in name
    ensures path != [] && path[|path| - 1] == '/' ==> name == []
  {
    if path == [] || path[|path| - 1] == '/' then []
    else LastComponent(path[..|path| - 1]) + [path[|path| - 1]]
  }

  /** The last component is a suffix of the path, and unless it is the
      whole path a separator stands right before it. */
  lemma {:induction false} LastComponentIsLastSegment(path: string)
    ensures var name := LastComponent(path);
      path == path[..|path| - |name|] + name &&
      (|name| < |path| ==> path[|path| - |name| - 1] == '/')
  {
    if path != [] && path[|path| - 1] != '/' {
      var init := path[..|path| - 1];
      LastComponentIsLastSegment(init);
      var name0 := LastComponent(init);
      assert path == init + [path[|path| - 1]];
      assert path[..|path| - |name0| - 1] == init[..|init| - |name0|];
    }
  }

  /** `Path(path).name`: the final component, ignoring trailing separators.
      It is empty only when the path is empty or all separators. */
  function BaseName(path: string): (name: string)
    ensures '/' !in name
    ensures |name| <= |path|
    ensures name == [] <==> StripTrailingSeparators(path) == []
  {
    LastComponent(StripTrailingSeparators(path))
  }

  /** The base name is the last segment of the path once its trailing
      separators are dropped: a suffix of it, with a separator right
      before it unless it is the whole. */
  lemma {:induction false} BaseNameIsFinalComponent(path: string)
    ensures var stripped, name := StripTrailingSeparators(path), BaseName(path);
      |name| <= |stripped| && stripped == stripped[..|stripped| - |name|] + name &&
      (|name| < |stripped| ==> stripped[|stripped| - |name| - 1] == '/')
  {
    LastComponentIsLastSegment(StripTrailingSeparators(path));
  }

  /** `Path(...).name` ignores trailing separators, and a path of
      separators alone has an empty name. */
  lemma BaseNameDropsTrailingSeparators()
    ensures BaseName("a/b/") == "b"
    ensures BaseName("/") == ""
  {
  }

  /** `Path(...).name` of a nested path is its file name, and a bare file
      name is its own base name. */
  lemma BaseNameOfFileNames()
    ensures BaseName("photos/2024/IMG_0001.JPG") == "IMG_0001.JPG"
    ensures BaseName("scan.tiff") == "scan.tiff"
  {
    BaseNameOfSeparatedName("photos/2024/", "IMG_0001.JPG", "");
    assert "photos/2024/" + "IMG_0001.JPG" + "" == "photos/2024/IMG_0001.JPG";
    BaseNameOfSeparatedName("", "scan.tiff", "");
    assert "" + "scan.tiff" + "" == "scan.tiff";
  }

  /** A separator-free name after a separator (or at the start), followed
      by separators only, is the base name of the whole. */
  lemma {:induction false} BaseNameOfSeparatedName(prefix: string, name: string, trailing: string)
    requires prefix == [] || prefix[|prefix| - 1] == '/'
    requires name != [] && '/' !in name
    requires forall k :: 0 <= k < |trailing| ==> trailing[k] == '/'
    ensures BaseName(prefix + name + trailing) == name
  {
    StripSeparatorsAfter(prefix + name, trailing);
    LastComponentAfterSeparator(prefix, name);
  }

  /** Dropping trailing separators from a path that does not end in one
      followed by separators gives that path back. */
  lemma {:induction false} StripSeparatorsAfter(path: string, trailing: string)
    requires path != [] && path[|path| - 1] != '/'
    requires forall k :: 0 <= k < |trailing| ==> trailing[k] == '/'
    ensures StripTrailingSeparators(path + trailing) == path
  {
    if trailing == [] {
      assert path + trailing == path;
    } else {
      var init := trailing[..|trailing| - 1];
      assert (path + trailing)[..|path + trailing| - 1] == path + init;
      StripSeparatorsAfter(path, init);
    }
  }

  /** A name without separators placed after a separator (or at the start)
      is the last component of the whole. */
  lemma {:induction false} LastComponentAfterSeparator(prefix: string, name: string)
    requires prefix == [] || prefix[|prefix| - 1] == '/'
    requires '/' !in name
    ensures LastComponent(prefix + name) == name
  {
    if name == [] {
      assert prefix + name == prefix;
    } else {
      var init, last := name[..|name| - 1], name[|name| - 1];
      var whole := prefix + name;
      assert whole[..|whole| - 1] == prefix + init && whole[|whole| - 1] == last;
      assert last != '/' by { assert last in name; }
      LastComponentAfterSeparator(prefix, init);
      calc {
        LastComponent(whole);
        LastComponent(prefix + init) + [last];
        init + [last];
        { assert init + [last] == name; }
        name;
      }
    }
  }

  /** The altitude sign rule of index.py: the altitude reference defaults
      to 0 and only the value 1 negates. */
  function SignedAltitude(alt: Option<real>, altRef: Option<int>): (r: Option<real>)
    ensures r.Some? <==> alt.Some?
    ensures alt.Some? && altRef == Some(BelowSeaLevel) ==> r.value == -alt.value
    ensures altRef != Some(BelowSeaLevel) ==> r == alt
  {
    if alt.Some? && altRef.GetOr(DefaultAltitudeRef) == BelowSeaLevel then Some(-alt.value) else alt
  }

  /** A coordinate converted with its reference tag, or with `defaultRef`
      (N or E) when the tag is missing, so that a missing tag keeps the sign. */
  function CoordinateOrDefaultRef(coord: Option<Dms>, ref: Option<string>, defaultRef: string): (r: Option<real>)
    requires defaultRef == DefaultLatitudeRef || defaultRef == DefaultLongitudeRef
    ensures r.Some? <==> coord.Some?
    ensures coord.Some? && ref.None? ==> r.value == Unsigned(coord.value)
    ensures coord.Some? ==> r.value == (if IsSouthOrWest(ref) then -Unsigned(coord.value) else Unsigned(coord.value))
  {
    ConvertToDecimalDegrees(coord, Some(ref.GetOr(defaultRef)))
  }

  /** The metadata record for the image read from `imagePath`. */
  function ExtractMetadata(imagePath: string, img: Image): (r: PhotoRecord)
    ensures r.filename == BaseName(imagePath)
    ensures img.Attributes().datetimeOriginal.None? ==> r.timestamp == Unknown
    ensures img.Attributes().datetimeOriginal.Some? ==> r.timestamp == img.Attributes().datetimeOriginal.value
    ensures img.Attributes().model.None? ==> r.camera == Unknown
    ensures img.Attributes().model.Some? ==> r.camera == img.Attributes().model.value
    ensures r.latitude.Some? <==> img.Attributes().gpsLatitude.Some?
    ensures r.longitude.Some? <==> img.Attributes().gpsLongitude.Some?
    // a missing reference defaults to N / E and so keeps the sign
    ensures img.Attributes().gpsLatitudeRef.None? && r.latitude.Some? ==>
      r.latitude.value == Unsigned(img.Attributes().gpsLatitude.value)
    ensures img.Attributes().gpsLongitudeRef.None? && r.longitude.Some? ==>
      r.longitude.value == Unsigned(img.Attributes().gpsLongitude.value)
    // a present reference decides the sign
    ensures r.latitude.Some? ==>
      r.latitude.value == (if IsSouthOrWest(img.Attributes().gpsLatitudeRef)
        then -Unsigned(img.Attributes().gpsLatitude.value) else Unsigned(img.Attributes().gpsLatitude.value))
    ensures r.longitude.Some? ==>
      r.longitude.value == (if IsSouthOrWest(img.Attributes().gpsLongitudeRef)
        then -Unsigned(img.Attributes().gpsLongitude.value) else Unsigned(img.Attributes().gpsLongitude.value))
    ensures r.altitude.Some? <==> img.Attributes().gpsAltitude.Some?
    ensures r.altitude.Some? && img.Attributes().gpsAltitudeRef == Some(BelowSeaLevel) ==>
      r.altitude.value == -img.Attributes().gpsAltitude.value
    ensures img.Attributes().gpsAltitudeRef != Some(BelowSeaLevel) ==> r.altitude == img.Attributes().gpsAltitude
  {
    var tags := img.Attributes();
    var lat := CoordinateOrDefaultRef(tags.gpsLatitude, tags.gpsLatitudeRef, DefaultLatitudeRef);
    var lon := CoordinateOrDefaultRef(tags.gpsLongitude, tags.gpsLongitudeRef, DefaultLongitudeRef);
    PhotoRecord(
      BaseName(imagePath),
      tags.datetimeOriginal.GetOr(Unknown),
      lat,
      lon,
      SignedAltitude(tags.gpsAltitude, tags.gpsAltitudeRef),
      tags.model.GetOr(Unknown))
  }

  /** Latitude and longitude are converted independently: an image with a
      latitude but no longitude gives a record with only a latitude. */
  lemma CoordinatesIndependent(path: string, img: Image)
    requires img.HasExif() && img.Attributes().gpsLatitude.Some? && img.Attributes().gpsLongitude.None?
    ensures var tags, r := img.Attributes(), ExtractMetadata(path, img);
      r.latitude.Some? && r.longitude == None &&
      r.latitude.value == (if IsSouthOrWest(tags.gpsLatitudeRef) then -Unsigned(tags.gpsLatitude.value)
                           else Unsigned(tags.gpsLatitude.value))
  {
  }
}
