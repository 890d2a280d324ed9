# Photo library EXIF metadata: a Dafny model

This project models the core of a small photo-library tool. The tool reads the EXIF
metadata of image files, writes a CSV photo index, and searches that index by position.
The model covers four parts:

- **Coordinate normaliser** (`coordinates.dfy`, module `Coordinates`). This is
  `convert_to_decimal_degrees`. It turns a (degrees, minutes, seconds) triple and a
  hemisphere reference into signed decimal degrees, and absent input stays absent.
  example.py:3-15 is a verbatim copy of index.py:6-18, so the model defines the
  function once and both scripts use it.
- **Metadata extraction** (`metadata.dfy`, module `Metadata`). This is `extract_metadata`
  of index.py. It builds the six-field photo record and fills in the defaults: `"Unknown"`
  for a missing timestamp or camera, `N`/`E` for a missing reference, and `0` for a
  missing altitude reference.
- **GPS reader** (`gps_reader.dfy`, module `GpsReader`). This is `get_gps_from_image` of
  example.py. It returns no triple unless the image has EXIF data, a latitude and a
  longitude, and it applies no default references.
- **Index builder** (`catalog.dfy`, module `Catalog`). This is `build_index`, written as a
  method with the source's two nested loops. It tries only files whose lower-cased name
  ends in `.jpg`, `.jpeg` or `.tiff`. A failed extraction is skipped without stopping the
  walk. The index holds one header, then one row per success, in traversal order.
- **Exact search** (`search.dfy`, module `ExactSearch`). This is the row loop of
  simple_search.py, written as a method. It skips rows with an empty latitude or
  longitude. It emits a row's filename iff both coordinates equal the target exactly.

Supporting modules:

- `wrappers.dfy` (`Option`, `Result`).
- `exif.dfy` (module `Exif`): the parsed image is `NoExif` or `WithExif(tags)`, and every
  tag is optional. Without EXIF data no tag can be read.

Modelling choices:

- Floating-point numbers are exact `real`s. The normaliser uses only `+`, `/` and
  negation.
- Inputs the code reads from its surroundings become parameters. The directory walk is a
  sequence of `(root, files)` steps. Opening and parsing a file is a `Reader`: a function
  from a path to a parsed image or the cause of its failure. The search target is also a
  parameter.
- The CSV writer is modelled by the header it writes once and the rows it appends. A row
  the search reads back carries optional coordinates, and an empty field is an absent one.

The code does not promise that a record's latitude and longitude are both present or both
absent. `extract_metadata` converts the two independently, and the model follows the code
(`Metadata.CoordinatesIndependent`). The code also adds the degrees as they are, without
taking an absolute value, and the model does the same.

## Model

| member | source | states |
|---|---|---|
| `Coordinates.ConvertToDecimalDegrees` | index.py:6-18 | The result is absent iff the coordinate is absent. Otherwise it is `degrees + minutes/60 + seconds/3600`, negated exactly when the reference is `S` or `W`. Every other reference leaves it unsigned, unrecognised and missing ones included. |
| `Coordinates.AbsentStaysAbsent` | index.py:8-9 | A missing coordinate converts to missing, whatever the reference. |
| `Coordinates.HemispheresMirror` | index.py:14-16 | An `S`/`W` reading is exactly the negation of the same reading with `N`. Any reference other than `S`/`W` gives the same value as `E`. |
| `Coordinates.SignFromReference` | index.py:11-16 | For non-negative degrees, minutes and seconds, the absolute value of the result is the unsigned value. The result is negative iff the reference is `S`/`W` and the position is not zero. |
| `Metadata.BaseName` | index.py:26 | `Path(path).name`: the result contains no separator and is no longer than the path. It is empty iff the path is empty or made only of separators. |
| `Metadata.BaseNameIsFinalComponent` | index.py:26 | Once trailing separators are dropped, the base name is a suffix of the path. Unless it is the whole path, a separator stands right before it. |
| `Metadata.BaseNameDropsTrailingSeparators` | index.py:26 | Trailing separators are ignored, so `a/b/` gives `b`. A path of separators alone, `/`, gives the empty name. |
| `Metadata.BaseNameOfFileNames` | index.py:26 | `photos/2024/IMG_0001.JPG` gives `IMG_0001.JPG`, and a bare file name such as `scan.tiff` is its own base name. |
| `Metadata.BaseNameOfSeparatedName` | index.py:26 | A separator-free name placed after a separator or at the start, and followed only by separators, is the base name of the whole path. |
| `Metadata.LastComponent` | index.py:26 | Helper of `BaseName`: the text after the last separator has no separator and is no longer than the path. It is empty for a path ending in a separator, which `BaseName` handles by dropping trailing separators first. |
| `Metadata.LastComponentIsLastSegment` | index.py:26 | Helper of `BaseName`: the final component is a suffix of the path. Unless it is the whole path, a separator stands right before it. |
| `Metadata.SignedAltitude` | index.py:44-47 | The altitude stays present or absent as it was. It is negated iff present and the reference is 1. A missing reference counts as 0, as does any value other than 1, and keeps it unchanged. |
| `Metadata.CoordinateOrDefaultRef` | index.py:35-42 | A coordinate converted with its reference tag. When the tag is missing the `N`/`E` default applies, so the value stays unsigned. |
| `Metadata.ExtractMetadata` | index.py:20-56 | The filename is the path's final component. Timestamp and camera are the tag value, or `"Unknown"` when missing. Latitude and longitude are present iff their tags are, and a missing reference keeps the sign. Altitude follows the sign rule above. |
| `Metadata.CoordinatesIndependent` | index.py:34-42 | Any image with EXIF data, a latitude and no longitude gives a record with a longitude absent and a latitude present, signed by its own reference alone. |
| `GpsReader.GetGpsFromImage` | example.py:17-33 | No triple iff the image has no EXIF data, no latitude or no longitude. A returned triple has both coordinates present, signed by the image's own reference tags with no defaults. Its altitude is absent iff the image has none, and is negated iff the altitude reference is 1. |
| `GpsReader.AgreesWithIndexRecord` | example.py:21-33 | When example.py returns a triple, it equals the latitude, longitude and altitude that index.py records for the same image. |
| `GpsReader.HalfPositionDropped` | example.py:21-22 | Any image with EXIF data, a latitude and no longitude gives no triple here, while index.py still records its latitude. |
| `Catalog.Attempt` | index.py:67-73 | A file adds at most one record. It adds one iff its lower-cased name has an image extension and reading it succeeds. That record is the file's extracted metadata. |
| `Catalog.BuildIndex` | index.py:58-73 | The header is the six field names. The rows are exactly the records of the walked files that `Attempt` keeps, in traversal order. |
| `Catalog.IndexedAppend` | index.py:65-73 | The index of two consecutive runs of files is the first run's records followed by the second's. No file's outcome affects another's. |
| `Catalog.SkippedFileWritesNothing` | index.py:67-73 | A file without an image extension, or whose extraction fails, writes no row. The files after it are still indexed. |
| `Catalog.IndexedBounded` | index.py:65-73 | No more rows are written than files were visited. |
| `Catalog.IndexedSound` | index.py:67-71 | Every written record comes from a visited image file whose extraction succeeded. |
| `Catalog.IndexedComplete` | index.py:65-71 | Each file's record sits between the records of the files before it and those of the files after it. |
| `Catalog.JoinPath` | index.py:69 | `os.path.join(root, file)`: an absolute name replaces the root. Otherwise the result is the root followed by the name. Exactly one separator is inserted between them when the root is non-empty and does not already end in one, and nothing is inserted otherwise. |
| `Catalog.IsImageName` | index.py:67 | The extension test of `build_index`. An accepted name has at least four characters. |
| `Catalog.ImageNameMatchesExtensionList` | index.py:67 | A name is accepted iff its lower-cased form ends with one of `.jpg`, `.jpeg` and `.tiff`. |
| `Catalog.BaseNameOfJoin` | index.py:69 | Joining a separator-free file name to its directory and taking `Path(...).name` gives the file name back. |
| `Catalog.RecordsNameWalkedImages` | index.py:26 | The filename of every written record is the name of a walked file, and that name has an image extension. |
| `Catalog.ImageNameIgnoresCase` | index.py:67 | The extension test gives the same answer for a name and its lower-cased form. |
| `Catalog.ImageNameExamples` | index.py:67 | `IMG_0001.JPG`, `scan.Tiff` and `.jpeg` are tried. `scan.tif`, `photo.png` and `jpg` are not. |
| `ExactSearch.SearchExact` | simple_search.py:11-16 | The emitted filenames are exactly those of the exactly matching rows, in row order. |
| `ExactSearch.MatchPositionsSound` | simple_search.py:13-15 | Every emitted position is a row that has both coordinates and equals the target. |
| `ExactSearch.MatchPositionsIncreasing` | simple_search.py:11 | The emitted positions strictly increase, so output follows row order. |
| `ExactSearch.MatchPositionsComplete` | simple_search.py:13-16 | Every row that matches exactly is emitted. |
| `ExactSearch.MatchesFollowPositions` | simple_search.py:11-16 | Output entry k is the filename of the k-th matching row. The output is the subsequence of the rows' filenames at the match positions. |
| `ExactSearch.MatchesBounded` | simple_search.py:11-16 | The output is no longer than the table. |
| `ExactSearch.EmittedIffMatchingRow` | simple_search.py:13-16 | A name is emitted iff some row with that name has a latitude and longitude both equal to the target, with no tolerance. |
| `ExactSearch.MatchesAppend` | simple_search.py:11-16 | Scanning two blocks of rows gives the first block's output followed by the second's. |
| `ExactSearch.RowWithoutCoordinatesSkipped` | simple_search.py:13 | A row with an empty latitude or longitude emits nothing, whatever the target, and later rows are still scanned. |
| `ExactSearch.EmptyIndexFindsNothing` | simple_search.py:11-16 | A table with no data rows emits nothing. |
| `ExactSearch.PhotoWithoutPositionNeverFound` | simple_search.py:13 | A photo indexed from an image without a GPS latitude or longitude is never found, for any target. |

## Left out

- The radius search and `haversine` in advanced_search.py are not modelled. They need `sin`, `cos`, `atan2` and `sqrt` over floats.
- Decoding the image file (`exif.Image`) and opening it are not modelled. The parsed image is an input, and in `build_index` the `Reader` parameter gives either that image or a failure.
- A `Reader` failure stands for every exception that `extract_metadata` raises. That covers opening and parsing the file. It also covers reading a tag that fails to decode: the default in `getattr` catches only a missing attribute, so such an error reaches the `except` of `build_index`. `ExtractMetadata` is total, and it models only reads that succeed.
- Directory enumeration (`os.walk`) is not modelled. The walk is an input sequence of `(root, files)` steps, and the sub-directory lists it also yields are not used by the code.
- CSV writing and reading are not modelled. Neither is `str()`/`float()` conversion of coordinates, nor a malformed field making `float()` raise. A written record is read back with the same optional coordinates (`ExactSearch.RowOf`).
- The `print` output is not modelled: the per-file "Processed"/"Failed" messages and the search results. The script-level driver lines are not modelled either, and the search target is a parameter.
- IEEE-754 rounding, NaN and signed zero are not modelled: coordinates and altitudes are exact reals.
- No latitude or longitude range check is made, because the code makes none.
- `build_index` catches any exception in its `try` block. Only a failed read is modelled as failure; `writerow` failing is not.
- `GetGpsFromImage`: a tag that example.py reads directly (`img.gps_latitude_ref` and the others) counts as absent when missing. The `exif` library may raise `AttributeError` instead. The model takes the reading under which the guard at example.py:21 returns `None` for a missing coordinate.
- Paths follow POSIX rules: `/` is the only separator, in `JoinPath` and `BaseName` alike. The Windows rules of `os.path.join` and `pathlib`, which also accept `\\` and drive prefixes, are not modelled. Every record still gets the walked file's own name as its filename.
- `BaseName`: follows `Path(...).name` for separators and trailing separators, but not pathlib's dropping of `.` components.
- `Lower`: lower-cases only the ASCII letters `A`-`Z`. Python's Unicode case mapping of other characters is not modelled.
