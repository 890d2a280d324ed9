/** `build_index` of index.py: walk a directory tree, extract the metadata
    of every file with an image extension, write one CSV row per success
    after a single header, and skip (without stopping) every file whose
    extraction fails. The directory walk is given as the sequence of
    `(root, files)` steps it yields, and opening and parsing a file as a
    function from its path to a parsed image or the failure's cause. */
module Catalog {
  import opened Wrappers
  import opened Exif
  import opened Metadata

  /** The CSV columns, in order. */
  const FieldNames: seq<string> := ["filename", "timestamp", "latitude", "longitude", "altitude", "camera"]

  /** One step of the directory walk: a directory and the files in it. */
  datatype WalkStep = WalkStep(root: string, files: seq<string>)

  /** A file met by the walk, with the directory it was found in. */
  datatype FoundFile = FoundFile(root: string, name: string)

  /** Opening and parsing the image at a path: the image, or the cause of failure. */
  type Reader = string -> Result<Image, string>

  /** `os.path.join(root, name)`: an absolute name replaces the root;
      otherwise the name follows the root, with one separator between
      them unless the root is empty or already ends in one. */
  function JoinPath(root: string, name: string): (path: string)
    ensures |name| <= |path| && path[|path| - |name|..] == name
    ensures name != [] && name[0] == '/' ==> path == name
    ensures !(name != [] && name[0] == '/') ==>
      root <= path && |path| == |root| + |name| + (if root == [] || root[|root| - 1] == '/' then 0 else 1) &&
      (root != [] ==> path[|path| - |name| - 1] == '/')
  {
    if name != [] && name[0] == '/' then name
    else if root == [] || root[|root| - 1] == '/' then root + name
    else root + "/" + name
  }

  /** ASCII lower-casing of one character. */
  function LowerChar(c: char): char {
    if 'A' <= c <= 'Z' then (c as int - 'A' as int + 'a' as int) as char else c
  }

  /** `s.lower()`, restricted to ASCII letters. */
  function Lower(s: string): string {
    seq(|s|, k requires 0 <= k < |s| => LowerChar(s[k]))
  }

  predicate EndsWith(s: string, suffix: string) {
    |suffix| <= |s| && s[|s| - |suffix|..] == suffix
  }

  /** The extensions build_index accepts, in lower case. */
  const ImageExtensions: seq<string> := [".jpg", ".jpeg", ".tiff"]

  /** `name.lower().endswith((".jpg", ".jpeg", ".tiff"))`. An accepted name
      is at least as long as the shortest extension. */
  predicate IsImageName(name: string)
    ensures IsImageName(name) ==> 4 <= |name|
  {
    var lower := Lower(name);
    EndsWith(lower, ".jpg") || EndsWith(lower, ".jpeg") || EndsWith(lower, ".tiff")
  }

  /** A name is accepted iff its lower-cased form ends with one of the
      accepted extensions, as `endswith` does with a tuple. */
  lemma ImageNameMatchesExtensionList(name: string)
    ensures IsImageName(name) <==> exists e :: e in ImageExtensions && EndsWith(Lower(name), e)
  {
    assert ImageExtensions[0] == ".jpg" && ImageExtensions[1] == ".jpeg" && ImageExtensions[2] == ".tiff";
  }

  /** The files of one walk step, in order. */
  function StepFiles(step: WalkStep): seq<FoundFile> {
    seq(|step.files|, k requires 0 <= k < |step.files| => FoundFile(step.root, step.files[k]))
  }

  /** Every file of the walk, in traversal order. */
  function WalkFiles(walk: seq<WalkStep>): seq<FoundFile> {
    if walk == [] then [] else WalkFiles(walk[..|walk| - 1]) + StepFiles(walk[|walk| - 1])
  }

  /** The path handed to the extractor for a found file. */
  function PathOf(f: FoundFile): string {
    JoinPath(f.root, f.name)
  }

  /** What one file contributes to the index: its record when it has an
      image extension and reading it succeeds, nothing otherwise. */
  function Attempt(f: FoundFile, read: Reader): (recs: seq<PhotoRecord>)
    ensures |recs| <= 1
    ensures recs != [] <==> IsImageName(f.name) && read(PathOf(f)).Ok?
    ensures recs != [] ==> recs[0] == ExtractMetadata(PathOf(f), read(PathOf(f)).value)
  {
    if !IsImageName(f.name) then []
    else match read(PathOf(f))
      case Ok(img) => [ExtractMetadata(PathOf(f), img)]
      case Err(_) => []
  }

  /** The records of the successfully extracted files, in traversal order. */
  function Indexed(files: seq<FoundFile>, read: Reader): seq<PhotoRecord> {
    if files == [] then [] else Indexed(files[..|files| - 1], read) + Attempt(files[|files| - 1], read)
  }

  /** Visiting one more file appends exactly that file's contribution. */
  lemma {:induction false} IndexedStep(visited: seq<FoundFile>, f: FoundFile, read: Reader)
    ensures Indexed(visited + [f], read) == Indexed(visited, read) + Attempt(f, read)
  {
    assert (visited + [f])[..|visited|] == visited;
  }

  /** The files visited after the `j`-th file of a step, in order. */
  lemma StepFilesPrefix(before: seq<FoundFile>, step: WalkStep, j: nat)
    requires j < |step.files|
    ensures before + StepFiles(step)[..j + 1] == (before + StepFiles(step)[..j]) + [FoundFile(step.root, step.files[j])]
  {
    assert StepFiles(step)[..j + 1] == StepFiles(step)[..j] + [FoundFile(step.root, step.files[j])];
  }

  /** The nested loops of `build_index`. The CSV writer is modelled by the
      header it writes first and the rows it appends after it. */
  method BuildIndex(walk: seq<WalkStep>, read: Reader) returns (header: seq<string>, rows: seq<PhotoRecord>)
    ensures header == FieldNames
    ensures rows == Indexed(WalkFiles(walk), read)
  {
    header := FieldNames;
    rows := [];
    ghost var visited: seq<FoundFile> := [];
    for i := 0 to |walk|
      invariant visited == WalkFiles(walk[..i])
      invariant rows == Indexed(visited, read)
    {
      var step := walk[i];
      ghost var before := visited;
      for j := 0 to |step.files|
        invariant visited == before + StepFiles(step)[..j]
        invariant rows == Indexed(visited, read)
      {
        var file := step.files[j];
        ghost var f := FoundFile(step.root, file);
        ghost var written := rows;
        if IsImageName(file) {
          var path := JoinPath(step.root, file);
          match read(path)
          case Ok(img) =>
            rows := rows + [ExtractMetadata(path, img)];
          case Err(_) =>
        }
        assert rows == written + Attempt(f, read);
        IndexedStep(visited, f, read);
        StepFilesPrefix(before, step, j);
        visited := visited + [f];
      }
      assert walk[..i + 1][..i] == walk[..i];
      assert StepFiles(step)[..|step.files|] == StepFiles(step);
    }
    assert walk[..|walk|] == walk;
  }

  /** Indexing distributes over concatenation: what a file contributes does
      not depend on the files before or after it, so the records stay in
      traversal order. */
  lemma {:induction false} IndexedAppend(a: seq<FoundFile>, b: seq<FoundFile>, read: Reader)
    ensures Indexed(a + b, read) == Indexed(a, read) + Indexed(b, read)
  {
    if b == [] {
      assert a + b == a;
    } else {
      var init, last := b[..|b| - 1], b[|b| - 1];
      assert (a + b)[..|a + b| - 1] == a + init && (a + b)[|a + b| - 1] == last;
      IndexedAppend(a, init, read);
    }
  }

  /** A file without an image extension, or one whose extraction fails,
      writes no row, and the files after it are still indexed. */
  lemma {:induction false} SkippedFileWritesNothing(a: seq<FoundFile>, f: FoundFile, b: seq<FoundFile>, read: Reader)
    requires !IsImageName(f.name) || read(PathOf(f)).Err?
    ensures Indexed(a + [f] + b, read) == Indexed(a, read) + Indexed(b, read)
  {
    IndexedAppend(a + [f], b, read);
    IndexedStep(a, f, read);
  }

  /** No more records than files were visited. */
  lemma {:induction false} IndexedBounded(files: seq<FoundFile>, read: Reader)
    ensures |Indexed(files, read)| <= |files|
  {
    if files != [] {
      IndexedBounded(files[..|files| - 1], read);
    }
  }

  /** Every record in the index comes from one visited file that `Attempt`
      keeps: an image file whose extraction succeeded. */
  lemma {:induction false} IndexedSound(files: seq<FoundFile>, read: Reader, rec: PhotoRecord)
    requires rec in Indexed(files, read)
    ensures exists i :: 0 <= i < |files| && rec in Attempt(files[i], read)
  {
    var init, last := files[..|files| - 1], files[|files| - 1];
    if rec in Indexed(init, read) {
      IndexedSound(init, read, rec);
      var i :| 0 <= i < |init| && rec in Attempt(init[i], read);
      assert files[i] == init[i];
    } else {
      assert rec in Attempt(files[|files| - 1], read);
    }
  }

  /** Every successfully extracted image file has its record in the index,
      in its traversal position: after the records of the files before it
      and before those of the files after it. */
  lemma {:induction false} IndexedComplete(files: seq<FoundFile>, read: Reader, i: nat)
    requires i < |files|
    ensures Indexed(files, read) == Indexed(files[..i], read) + Attempt(files[i], read) + Indexed(files[i + 1..], read)
  {
    var before, after := files[..i] + [files[i]], files[i + 1..];
    assert files == before + after;
    IndexedAppend(before, after, read);
    IndexedStep(files[..i], files[i], read);
  }

  /** A walked file name has no separator, so joining it to its directory
      and taking `Path(...).name` gives the name back. */
  lemma {:induction false} BaseNameOfJoin(root: string, name: string)
    requires name != [] && '/' !in name
    ensures BaseName(JoinPath(root, name)) == name
  {
    var prefix := if root == [] || root[|root| - 1] == '/' then root else root + "/";
    assert JoinPath(root, name) == prefix + name;
    var path := prefix + name;
    assert path[|path| - 1] == name[|name| - 1];
    assert StripTrailingSeparators(path) == path by {
      assert name[|name| - 1] in name;
    }
    LastComponentAfterSeparator(prefix, name);
  }

  /** Every record written names one of the walked image files: its
      filename is the file's own name, which has an image extension. */
  lemma {:induction false} RecordsNameWalkedImages(files: seq<FoundFile>, read: Reader)
    requires forall i :: 0 <= i < |files| ==> files[i].name != [] && '/' !in files[i].name
    ensures forall rec :: rec in Indexed(files, read) ==>
      IsImageName(rec.filename) && exists i :: 0 <= i < |files| && files[i].name == rec.filename
  {
    forall rec | rec in Indexed(files, read)
      ensures IsImageName(rec.filename) && exists i :: 0 <= i < |files| && files[i].name == rec.filename
    {
      IndexedSound(files, read, rec);
      var i :| 0 <= i < |files| && rec in Attempt(files[i], read);
      BaseNameOfJoin(files[i].root, files[i].name);
    }
  }

  /** Lower-casing twice is lower-casing once. */
  lemma LowerIdempotent(s: string)
    ensures Lower(Lower(s)) == Lower(s)
  {
  }

  /** The extension test ignores letter case. */
  lemma ImageNameIgnoresCase(name: string)
    ensures IsImageName(Lower(name)) == IsImageName(name)
  {
    LowerIdempotent(name);
  }

  /** Which names are attempted: `.jpg`, `.jpeg` and `.tiff` in any case;
      not `.tif`, not `.png`, not an extension without its dot. */
  lemma ImageNameExamples()
    ensures IsImageName("IMG_0001.JPG") && IsImageName("scan.Tiff") && IsImageName(".jpeg")
    ensures !IsImageName("scan.tif") && !IsImageName("photo.png") && !IsImageName("jpg")
  {
    assert Lower("IMG_0001.JPG")[8..] == ".jpg";
    assert Lower("scan.Tiff")[4..] == ".tiff";
    assert Lower(".jpeg") == ".jpeg";
    assert Lower("scan.tif") == "scan.tif";
    assert Lower("photo.png") == "photo.png";
  }
}
