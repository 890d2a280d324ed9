/** simple_search.py: scan the photo index row by row and emit the
    filename of every row whose latitude and longitude both equal the
    target exactly. CSV reading and `float()` parsing are not modelled:
    a row arrives with its coordinates already parsed, and an empty field
    is an absent coordinate. */
module ExactSearch {
  import opened Wrappers
  import Metadata
  import Exif

  /** One data row of the index as the search reads it. */
  datatype IndexRow = IndexRow(filename: string, latitude: Option<real>, longitude: Option<real>)

  /** `row["latitude"] and row["longitude"]`: both fields non-empty. */
  predicate HasCoordinates(row: IndexRow) {
    row.latitude.Some? && row.longitude.Some?
  }

  /** The row lies exactly at the target, with no tolerance. */
  predicate IsExactMatch(row: IndexRow, lat: real, lon: real) {
    HasCoordinates(row) && row.latitude.value == lat && row.longitude.value == lon
  }

  /** The filenames of the matching rows, in row order. */
  function Matches(rows: seq<IndexRow>, lat: real, lon: real): seq<string> {
    if rows == [] then []
    else
      var last := rows[|rows| - 1];
      Matches(rows[..|rows| - 1], lat, lon) + (if IsExactMatch(last, lat, lon) then [last.filename] else [])
  }

  /** The positions of the matching rows. */
  function MatchPositions(rows: seq<IndexRow>, lat: real, lon: real): seq<nat> {
    if rows == [] then []
    else
      MatchPositions(rows[..|rows| - 1], lat, lon) + (if IsExactMatch(rows[|rows| - 1], lat, lon) then [|rows| - 1] else [])
  }

  /** The `for row in reader` loop, emitting to a list instead of printing. */
  method SearchExact(rows: seq<IndexRow>, targetLat: real, targetLon: real) returns (found: seq<string>)
    ensures found == Matches(rows, targetLat, targetLon)
  {
    found := [];
    for i := 0 to |rows|
      invariant found == Matches(rows[..i], targetLat, targetLon)
    {
      var row := rows[i];
      if row.latitude.Some? && row.longitude.Some? {
        if row.latitude.value == targetLat && row.longitude.value == targetLon {
          found := found + [row.filename];
        }
      }
      assert rows[..i + 1][..i] == rows[..i];
    }
    assert rows[..|rows|] == rows;
  }

  /** One row more adds its position when, and only when, it matches. */
  lemma MatchPositionsStep(rows: seq<IndexRow>, lat: real, lon: real)
    requires rows != []
    ensures MatchPositions(rows, lat, lon) == MatchPositions(rows[..|rows| - 1], lat, lon) +
      (if IsExactMatch(rows[|rows| - 1], lat, lon) then [|rows| - 1] else [])
  {
  }

  /** Every match position points at a matching row. */
  lemma {:induction false} MatchPositionsSound(rows: seq<IndexRow>, lat: real, lon: real)
    ensures forall k :: 0 <= k < |MatchPositions(rows, lat, lon)| ==>
      MatchPositions(rows, lat, lon)[k] < |rows| && IsExactMatch(rows[MatchPositions(rows, lat, lon)[k]], lat, lon)
  {
    if rows != [] {
      var init := rows[..|rows| - 1];
      MatchPositionsSound(init, lat, lon);
      MatchPositionsStep(rows, lat, lon);
      var ps0 := MatchPositions(init, lat, lon);
      forall k | 0 <= k < |ps0| ensures rows[ps0[k]] == init[ps0[k]] {
      }
    }
  }

  /** The match positions increase strictly, so they follow row order. */
  lemma {:induction false} MatchPositionsIncreasing(rows: seq<IndexRow>, lat: real, lon: real)
    ensures forall k, l :: 0 <= k < l < |MatchPositions(rows, lat, lon)| ==>
      MatchPositions(rows, lat, lon)[k] < MatchPositions(rows, lat, lon)[l]
  {
    if rows != [] {
      var init := rows[..|rows| - 1];
      MatchPositionsIncreasing(init, lat, lon);
      MatchPositionsSound(init, lat, lon);
      MatchPositionsStep(rows, lat, lon);
    }
  }

  /** Every matching row has its position listed. */
  lemma {:induction false} MatchPositionsComplete(rows: seq<IndexRow>, lat: real, lon: real)
    ensures forall i :: 0 <= i < |rows| && IsExactMatch(rows[i], lat, lon) ==> i in MatchPositions(rows, lat, lon)
  {
    if rows != [] {
      var init := rows[..|rows| - 1];
      MatchPositionsComplete(init, lat, lon);
      MatchPositionsStep(rows, lat, lon);
      forall i | 0 <= i < |rows| && IsExactMatch(rows[i], lat, lon)
        ensures i in MatchPositions(rows, lat, lon)
      {
        if i < |init| {
          assert init[i] == rows[i];
        }
      }
    }
  }

  /** The emitted filenames are those of the matching rows, position by
      position: the output is the subsequence of the rows' filenames
      picked out by the match positions. */
  lemma {:induction false} MatchesFollowPositions(rows: seq<IndexRow>, lat: real, lon: real)
    ensures var ms, ps := Matches(rows, lat, lon), MatchPositions(rows, lat, lon);
      |ms| == |ps| && forall k :: 0 <= k < |ms| ==> ps[k] < |rows| && ms[k] == rows[ps[k]].filename
  {
    if rows != [] {
      var init := rows[..|rows| - 1];
      MatchesFollowPositions(init, lat, lon);
      MatchPositionsSound(init, lat, lon);
      MatchPositionsStep(rows, lat, lon);
      var ps0 := MatchPositions(init, lat, lon);
      forall k | 0 <= k < |ps0| ensures rows[ps0[k]] == init[ps0[k]] {
      }
    }
  }

  /** At most one filename per row. */
  lemma {:induction false} MatchesBounded(rows: seq<IndexRow>, lat: real, lon: real)
    ensures |Matches(rows, lat, lon)| <= |rows|
  {
    if rows != [] {
      MatchesBounded(rows[..|rows| - 1], lat, lon);
    }
  }

  /** A filename is emitted iff some row with that filename matches. */
  lemma {:induction false} EmittedIffMatchingRow(rows: seq<IndexRow>, lat: real, lon: real, name: string)
    ensures name in Matches(rows, lat, lon) <==>
      exists i :: 0 <= i < |rows| && rows[i].filename == name && IsExactMatch(rows[i], lat, lon)
  {
    MatchPositionsSound(rows, lat, lon);
    MatchPositionsComplete(rows, lat, lon);
    MatchesFollowPositions(rows, lat, lon);
    var ms, ps := Matches(rows, lat, lon), MatchPositions(rows, lat, lon);
    if name in ms {
      var k :| 0 <= k < |ms| && ms[k] == name;
      var i := ps[k];
      assert 0 <= i < |rows| && rows[i].filename == name && IsExactMatch(rows[i], lat, lon);
    }
    if i :| 0 <= i < |rows| && rows[i].filename == name && IsExactMatch(rows[i], lat, lon) {
      var k :| 0 <= k < |ps| && ps[k] == i;
      assert ms[k] == name;
    }
  }

  /** Scanning distributes over concatenation of row blocks. */
  lemma {:induction false} MatchesAppend(a: seq<IndexRow>, b: seq<IndexRow>, lat: real, lon: real)
    ensures Matches(a + b, lat, lon) == Matches(a, lat, lon) + Matches(b, lat, lon)
  {
    if b == [] {
      assert a + b == a;
    } else {
      var init := b[..|b| - 1];
      assert (a + b)[..|a + b| - 1] == a + init && (a + b)[|a + b| - 1] == b[|b| - 1];
      MatchesAppend(a, init, lat, lon);
    }
  }

  /** A row with an empty latitude or longitude emits nothing, whatever the
      target, and the rows after it are still scanned. */
  lemma {:induction false} RowWithoutCoordinatesSkipped(a: seq<IndexRow>, row: IndexRow, b: seq<IndexRow>, lat: real, lon: real)
    requires !HasCoordinates(row)
    ensures Matches(a + [row] + b, lat, lon) == Matches(a, lat, lon) + Matches(b, lat, lon)
  {
    MatchesAppend(a + [row], b, lat, lon);
    MatchesAppend(a, [row], lat, lon);
    assert [row][..0] == [];
  }

  /** An index with no data rows yields no result. */
  lemma EmptyIndexFindsNothing(lat: real, lon: real)
    ensures Matches([], lat, lon) == []
  {
  }

  /** The search row read back for a record written by the index builder;
      an absent coordinate is written as an empty field and read back as
      absent. */
  function RowOf(rec: Metadata.PhotoRecord): IndexRow {
    IndexRow(rec.filename, rec.latitude, rec.longitude)
  }

  /** A photo whose image lacks a GPS latitude or longitude is never found,
      whatever the target. */
  lemma PhotoWithoutPositionNeverFound(path: string, img: Exif.Image, lat: real, lon: real)
    requires img.Attributes().gpsLatitude.None? || img.Attributes().gpsLongitude.None?
    ensures !IsExactMatch(RowOf(Metadata.ExtractMetadata(path, img)), lat, lon)
  {
  }
}
