/** What the EXIF parser exposes for one opened image: a presence flag and
    the optional tags the core reads. Parsing itself is not modelled. */
module Exif {
  import opened Wrappers
  import opened Coordinates

  /** The tags read by the core; `None` means the tag is missing. */
  datatype Tags = Tags(
    datetimeOriginal: Option<string>,
    model: Option<string>,
    gpsLatitude: Option<Dms>,
    gpsLatitudeRef: Option<string>,
    gpsLongitude: Option<Dms>,
    gpsLongitudeRef: Option<string>,
    gpsAltitude: Option<real>,
    gpsAltitudeRef: Option<int>)

  const NoTags := Tags(None, None, None, None, None, None, None, None)

  /** A parsed image: without an EXIF block no tag can be read. */
  datatype Image = NoExif | WithExif(tags: Tags) {

    predicate HasExif() { WithExif? }

    /** The tags an attribute read can see. */
    function Attributes(): Tags {
      if WithExif? then tags else NoTags
    }
  }
}
