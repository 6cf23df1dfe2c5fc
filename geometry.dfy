/**
 * The geometry builder of app.py (lines 120-151): coerce the two chosen
 * coordinate columns to numbers, drop the rows where either did not parse,
 * stop when none is left, count the rows outside WGS84 degree ranges, and
 * build one point per remaining row, x from longitude and y from latitude.
 *
 * `parse` stands for the numeric grammar of `pd.to_numeric`: `Some(v)` when
 * a text cell reads as the number `v`, `None` when coercion makes it NaN.
 */
module Geometry {
  import opened Options
  import opened Table

  /** The CRS the points are tagged with, and the one the range check applies to. */
  const Wgs84 := "EPSG:4326"

  datatype Point = Point(x: real, y: real)

  /** A point layer: the attribute table, one point per row, and a CRS tag. */
  datatype GeoFrame = GeoFrame(attrs: Frame, geometry: seq<Point>, crs: string)

  /**
   * What a successful conversion reports: the layer, the row counts before
   * and after the invalid rows were dropped, the number dropped, and the
   * out-of-range count when the output CRS is WGS84.
   */
  datatype Conversion = Conversion(gdf: GeoFrame, before: nat, after: nat, dropped: nat, outOfRange: Option<nat>)

  /** A conversion stops with no layer when no row has both coordinates. */
  datatype Outcome = NoValidRows(before: nat) | Converted(conversion: Conversion)

  /** `pd.to_numeric(..., errors="coerce")` on one cell. */
  function ToNumeric(parse: string -> Option<real>, c: Cell): (r: Cell)
    ensures r.Number? || r.Missing?
    ensures c.Number? ==> r == c
    ensures c.Missing? ==> r == Missing
    ensures c.Text? ==> (r.Number? <==> parse(c.s).Some?) && (r.Number? ==> r.v == parse(c.s).value)
  {
    match c
    case Text(s) => (match parse(s) case Some(v) => Number(v) case None => Missing)
    case Number(_) => c
    case Missing => Missing
  }

  /** Every row has a cell at position `col`. */
  predicate HasColumn(rows: seq<Row>, col: nat)
  {
    forall i :: 0 <= i < |rows| ==> col < |rows[i]|
  }

  /** `work[col] = pd.to_numeric(work[col], errors="coerce")`: only that column changes. */
  function CoerceColumn(parse: string -> Option<real>, rows: seq<Row>, col: nat): (r: seq<Row>)
    requires HasColumn(rows, col)
    ensures |r| == |rows|
    ensures forall i :: 0 <= i < |rows| ==>
              && |r[i]| == |rows[i]|
              && r[i][col] == ToNumeric(parse, rows[i][col])
              && forall k :: 0 <= k < |rows[i]| && k != col ==> r[i][k] == rows[i][k]
  {
    seq(|rows|, i requires 0 <= i < |rows| => rows[i][col := ToNumeric(parse, rows[i][col])])
  }

  /** The working copy after both coordinate columns are coerced (lines 123-124). */
  function Work(parse: string -> Option<real>, rows: seq<Row>, latCol: nat, lonCol: nat): (r: seq<Row>)
    requires HasColumn(rows, latCol) && HasColumn(rows, lonCol)
    ensures |r| == |rows| && HasColumn(r, latCol) && HasColumn(r, lonCol)
  {
    CoerceColumn(parse, CoerceColumn(parse, rows, latCol), lonCol)
  }

  /** Both coordinates of the original row read as numbers. */
  predicate HasCoordinates(parse: string -> Option<real>, row: Row, latCol: nat, lonCol: nat)
    requires latCol < |row| && lonCol < |row|
  {
    ToNumeric(parse, row[latCol]).Number? && ToNumeric(parse, row[lonCol]).Number?
  }

  /** A cell pandas does not treat as NaN. */
  predicate Present(c: Cell) { !c.Missing? }

  predicate BothPresent(row: Row, latCol: nat, lonCol: nat)
    requires latCol < |row| && lonCol < |row|
  {
    Present(row[latCol]) && Present(row[lonCol])
  }

  /** `work.dropna(subset=[lat_col, lon_col])`. */
  function DropMissing(rows: seq<Row>, latCol: nat, lonCol: nat): (r: seq<Row>)
    requires HasColumn(rows, latCol) && HasColumn(rows, lonCol)
    ensures |r| <= |rows|
    ensures HasColumn(r, latCol) && HasColumn(r, lonCol)
    ensures forall j :: 0 <= j < |r| ==> BothPresent(r[j], latCol, lonCol)
  {
    if rows == [] then []
    else
      var init := DropMissing(rows[..|rows| - 1], latCol, lonCol);
      var last := rows[|rows| - 1];
      if BothPresent(last, latCol, lonCol) then init + [last] else init
  }

  /** The positions of the rows `DropMissing` keeps. */
  function PresentIndices(rows: seq<Row>, latCol: nat, lonCol: nat): (idx: seq<nat>)
    requires HasColumn(rows, latCol) && HasColumn(rows, lonCol)
  {
    if rows == [] then []
    else
      var init := PresentIndices(rows[..|rows| - 1], latCol, lonCol);
      if BothPresent(rows[|rows| - 1], latCol, lonCol) then init + [|rows| - 1] else init
  }

  /**
   * `dropna` keeps exactly the rows with both coordinates present, in their
   * original order: its result is the input at a strictly increasing list
   * of positions, and a position is on that list exactly when its row has
   * both coordinates.
   */
  lemma {:induction false} DropMissingKeepsExactlyPresent(rows: seq<Row>, latCol: nat, lonCol: nat)
    requires HasColumn(rows, latCol) && HasColumn(rows, lonCol)
    ensures var kept, idx := DropMissing(rows, latCol, lonCol), PresentIndices(rows, latCol, lonCol);
            && |idx| == |kept|
            && (forall j, k :: 0 <= j < k < |idx| ==> idx[j] < idx[k])
            && (forall j :: 0 <= j < |idx| ==> idx[j] < |rows| && kept[j] == rows[idx[j]])
            && (forall i: nat :: i in idx <==> i < |rows| && BothPresent(rows[i], latCol, lonCol))
    decreases |rows|
  {
    if rows != [] {
      var init := rows[..|rows| - 1];
      DropMissingKeepsExactlyPresent(init, latCol, lonCol);
      var idx0 := PresentIndices(init, latCol, lonCol);
      forall i: nat | i < |init| ensures init[i] == rows[i] { }
    }
  }

  function Abs(v: real): real { if v < 0.0 then -v else v }

  /** Outside WGS84 degrees: |lat| > 90 or |lon| > 180. */
  predicate OutOfRange(row: Row, latCol: nat, lonCol: nat)
    requires latCol < |row| && lonCol < |row|
    requires row[latCol].Number? && row[lonCol].Number?
  {
    Abs(row[latCol].v) > 90.0 || Abs(row[lonCol].v) > 180.0
  }

  /** Both coordinate cells of every row are numbers. */
  predicate NumericCoordinates(rows: seq<Row>, latCol: nat, lonCol: nat)
  {
    forall j :: 0 <= j < |rows| ==>
      latCol < |rows[j]| && lonCol < |rows[j]| && rows[j][latCol].Number? && rows[j][lonCol].Number?
  }

  /** `len(work[(work[lat_col].abs() > 90) | (work[lon_col].abs() > 180)])`. */
  function CountOutOfRange(rows: seq<Row>, latCol: nat, lonCol: nat): (n: nat)
    requires NumericCoordinates(rows, latCol, lonCol)
    ensures n <= |rows|
  {
    if rows == [] then 0
    else CountOutOfRange(rows[..|rows| - 1], latCol, lonCol)
         + (if OutOfRange(rows[|rows| - 1], latCol, lonCol) then 1 else 0)
  }

  /** The count is the number of distinct rows out of range. */
  lemma {:induction false} CountOutOfRangeIsCardinality(rows: seq<Row>, latCol: nat, lonCol: nat)
    requires NumericCoordinates(rows, latCol, lonCol)
    ensures CountOutOfRange(rows, latCol, lonCol)
            == |set j | 0 <= j < |rows| && OutOfRange(rows[j], latCol, lonCol)|
    decreases |rows|
  {
    var all := set j | 0 <= j < |rows| && OutOfRange(rows[j], latCol, lonCol);
    if rows != [] {
      var init := rows[..|rows| - 1];
      CountOutOfRangeIsCardinality(init, latCol, lonCol);
      var prev := set j | 0 <= j < |init| && OutOfRange(init[j], latCol, lonCol);
      if OutOfRange(rows[|rows| - 1], latCol, lonCol) {
        assert all == prev + {|rows| - 1};
      } else {
        assert all == prev;
      }
    } else {
      assert all == {};
    }
  }

  /** `[Point(xy) for xy in zip(work[lon_col], work[lat_col])]`. */
  function PointsOf(rows: seq<Row>, latCol: nat, lonCol: nat): (pts: seq<Point>)
    requires NumericCoordinates(rows, latCol, lonCol)
    ensures |pts| == |rows|
    ensures forall j :: 0 <= j < |rows| ==> pts[j] == Point(rows[j][lonCol].v, rows[j][latCol].v)
  {
    seq(|rows|, j requires 0 <= j < |rows| => Point(rows[j][lonCol].v, rows[j][latCol].v))
  }

  /** After coercion a coordinate cell is present exactly when the original parses. */
  lemma WorkPresent(parse: string -> Option<real>, rows: seq<Row>, latCol: nat, lonCol: nat, i: nat)
    requires HasColumn(rows, latCol) && HasColumn(rows, lonCol) && i < |rows|
    ensures var w := Work(parse, rows, latCol, lonCol)[i];
            && (BothPresent(w, latCol, lonCol) <==> HasCoordinates(parse, rows[i], latCol, lonCol))
            && (BothPresent(w, latCol, lonCol) ==> w[latCol].Number? && w[lonCol].Number?)
  {
  }

  /**
   * Lines 120-151: coerce, drop, stop on zero rows, range-check when the
   * output CRS is WGS84, and build the points tagged with WGS84.
   */
  function Convert(df: Frame, latCol: nat, lonCol: nat, outCrs: string, parse: string -> Option<real>): (r: Outcome)
    requires WellFormed(df) && latCol < |df.columns| && lonCol < |df.columns|
    ensures r.NoValidRows? <==>
              forall i :: 0 <= i < |df.rows| ==> !HasCoordinates(parse, df.rows[i], latCol, lonCol)
    ensures r.NoValidRows? ==> r.before == |df.rows|
    ensures r.Converted? ==>
              var c := r.conversion;
              && c.before == |df.rows|
              && c.before == c.after + c.dropped
              && 0 < c.after
              && c.gdf.attrs.columns == df.columns
              && |c.gdf.attrs.rows| == c.after
              && |c.gdf.geometry| == c.after
              && c.gdf.crs == Wgs84
              && (c.outOfRange.Some? <==> outCrs == Wgs84)
              && (c.outOfRange.Some? ==> c.outOfRange.value <= c.after)
    ensures r.Converted? ==>
              var c := r.conversion;
              forall j :: 0 <= j < |c.gdf.geometry| ==>
                var row := c.gdf.attrs.rows[j];
                && latCol < |row| && lonCol < |row|
                && row[latCol].Number? && row[lonCol].Number?
                && c.gdf.geometry[j] == Point(row[lonCol].v, row[latCol].v)
    ensures r.Converted? && r.conversion.outOfRange.Some? ==>
              var c := r.conversion;
              c.outOfRange.value
              == |set j | 0 <= j < c.after && OutOfRange(c.gdf.attrs.rows[j], latCol, lonCol)|
  {
    assert HasColumn(df.rows, latCol) && HasColumn(df.rows, lonCol);
    var work := Work(parse, df.rows, latCol, lonCol);
    var before := |work|;
    var kept := DropMissing(work, latCol, lonCol);
    var after := |kept|;
    ConvertStopsExactlyWhenNothingParses(df, latCol, lonCol, parse);
    if after == 0 then NoValidRows(before)
    else
      assert NumericCoordinates(kept, latCol, lonCol) by {
        forall j | 0 <= j < |kept|
          ensures kept[j][latCol].Number? && kept[j][lonCol].Number?
        {
          KeptAreCoerced(df, latCol, lonCol, parse, j);
        }
      }
      CountOutOfRangeIsCardinality(kept, latCol, lonCol);
      var outOfRange := if outCrs == Wgs84 then Some(CountOutOfRange(kept, latCol, lonCol)) else None;
      var gdf := GeoFrame(Frame(df.columns, kept), PointsOf(kept, latCol, lonCol), Wgs84);
      Converted(Conversion(gdf, before, after, before - after, outOfRange))
  }

  /** A kept row is a coerced row with both coordinates numeric. */
  lemma KeptAreCoerced(df: Frame, latCol: nat, lonCol: nat, parse: string -> Option<real>, j: nat)
    requires WellFormed(df) && latCol < |df.columns| && lonCol < |df.columns|
    requires HasColumn(df.rows, latCol) && HasColumn(df.rows, lonCol)
    requires j < |DropMissing(Work(parse, df.rows, latCol, lonCol), latCol, lonCol)|
    ensures var row := DropMissing(Work(parse, df.rows, latCol, lonCol), latCol, lonCol)[j];
            latCol < |row| && lonCol < |row| && row[latCol].Number? && row[lonCol].Number?
  {
    var work := Work(parse, df.rows, latCol, lonCol);
    DropMissingKeepsExactlyPresent(work, latCol, lonCol);
    var idx := PresentIndices(work, latCol, lonCol);
    WorkPresent(parse, df.rows, latCol, lonCol, idx[j]);
  }

  /** No row survives exactly when no row has both coordinates parsing. */
  lemma ConvertStopsExactlyWhenNothingParses(df: Frame, latCol: nat, lonCol: nat, parse: string -> Option<real>)
    requires HasColumn(df.rows, latCol) && HasColumn(df.rows, lonCol)
    ensures |DropMissing(Work(parse, df.rows, latCol, lonCol), latCol, lonCol)| == 0 <==>
            forall i :: 0 <= i < |df.rows| ==> !HasCoordinates(parse, df.rows[i], latCol, lonCol)
  {
    var work := Work(parse, df.rows, latCol, lonCol);
    DropMissingKeepsExactlyPresent(work, latCol, lonCol);
    var idx := PresentIndices(work, latCol, lonCol);
    forall i: nat | i < |df.rows| ensures BothPresent(work[i], latCol, lonCol) <==> HasCoordinates(parse, df.rows[i], latCol, lonCol) {
      WorkPresent(parse, df.rows, latCol, lonCol, i);
    }
    if |idx| > 0 {
      assert idx[0] in idx;
    }
  }

  /**
   * The attribute rows of a conversion are exactly the coerced rows whose
   * two coordinates parse, in their original order.
   */
  lemma ConvertKeepsParsedRowsInOrder(df: Frame, latCol: nat, lonCol: nat, outCrs: string, parse: string -> Option<real>)
    requires WellFormed(df) && latCol < |df.columns| && lonCol < |df.columns|
    ensures HasColumn(df.rows, latCol) && HasColumn(df.rows, lonCol)
    ensures var r, work := Convert(df, latCol, lonCol, outCrs, parse), Work(parse, df.rows, latCol, lonCol);
            var idx := PresentIndices(work, latCol, lonCol);
            r.Converted? ==>
              && |idx| == |r.conversion.gdf.attrs.rows|
              && (forall j, k :: 0 <= j < k < |idx| ==> idx[j] < idx[k])
              && (forall j :: 0 <= j < |idx| ==> idx[j] < |work| && r.conversion.gdf.attrs.rows[j] == work[idx[j]])
              && (forall i: nat :: i in idx <==> i < |df.rows| && HasCoordinates(parse, df.rows[i], latCol, lonCol))
  {
    assert HasColumn(df.rows, latCol) && HasColumn(df.rows, lonCol);
    var work := Work(parse, df.rows, latCol, lonCol);
    DropMissingKeepsExactlyPresent(work, latCol, lonCol);
    forall i: nat | i < |df.rows|
      ensures BothPresent(work[i], latCol, lonCol) <==> HasCoordinates(parse, df.rows[i], latCol, lonCol)
    {
      WorkPresent(parse, df.rows, latCol, lonCol, i);
    }
  }
}

/** A worked example table and what `Convert` gives for it. */
module GeometryExamples {
  import opened Options
  import opened Table
  import opened Geometry

  const Columns := ["Station Name (ID)", "Lat", "Lon"]

  lemma OneStationWork(parse: string -> Option<real>, rows: seq<Row>)
    requires parse("30.284") == Some(30.284) && parse("77.985") == Some(77.985)
    requires rows == [[Text("A-1"), Text("30.284"), Text("77.985")]]
    ensures Work(parse, rows, 1, 2) == [[Text("A-1"), Number(30.284), Number(77.985)]]
  {
    var work := Work(parse, rows, 1, 2);
    var row := [Text("A-1"), Number(30.284), Number(77.985)];
    assert |work| == 1 && |work[0]| == 3;
    assert work[0][0] == row[0] && work[0][1] == row[1] && work[0][2] == row[2];
    assert work[0] == row;
  }

  /** One station row converts to one point at (77.985, 30.284), nothing dropped. */
  lemma OneStation(parse: string -> Option<real>, df: Frame)
    requires parse("30.284") == Some(30.284) && parse("77.985") == Some(77.985)
    requires df == Frame(Columns, [[Text("A-1"), Text("30.284"), Text("77.985")]])
    ensures Convert(df, 1, 2, Wgs84, parse)
            == Converted(Conversion(
                 GeoFrame(Frame(Columns, [[Text("A-1"), Number(30.284), Number(77.985)]]), [Point(77.985, 30.284)], Wgs84),
                 1, 1, 0, Some(0)))
  {
    OneStationWork(parse, df.rows);
    var work := Work(parse, df.rows, 1, 2);
    assert DropMissing(work, 1, 2) == work;
  }

  /** A latitude that does not parse drops its row and only its row. */
  lemma UnparsableLatitude(parse: string -> Option<real>)
    requires parse("abc") == None
    requires parse("30.284") == Some(30.284) && parse("77.985") == Some(77.985)
    ensures var r := Convert(Frame(Columns, [[Text("A-1"), Text("30.284"), Text("77.985")],
                                             [Text("B-2"), Text("abc"), Text("77.985")]]), 1, 2, Wgs84, parse);
            && r.Converted? && r.conversion.dropped == 1 && r.conversion.after == 1
            && r.conversion.gdf.attrs.rows[0][0] == Text("A-1")
            && r.conversion.gdf.geometry == [Point(77.985, 30.284)]
  {
    var df := Frame(Columns, [[Text("A-1"), Text("30.284"), Text("77.985")],
                              [Text("B-2"), Text("abc"), Text("77.985")]]);
    var work := Work(parse, df.rows, 1, 2);
    assert work[0][0] == Text("A-1");
    assert work[0][1] == Number(30.284) && work[0][2] == Number(77.985);
    assert work[1][1] == Missing;
    assert work[..1] == [work[0]];
    assert DropMissing(work, 1, 2) == [work[0]];
  }
}
