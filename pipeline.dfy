/**
 * The step of app.py that joins the geometry builder to the field
 * sanitizer (lines 163-165): the attribute table without its geometry is
 * renamed, then the same points and CRS are put back.
 */
module Pipeline {
  import opened Table
  import opened Geometry
  import opened Sanitizer

  method SafeLayer(gdf: GeoFrame) returns (safe: GeoFrame)
    requires |gdf.attrs.columns| <= MaxColumns
    ensures safe.geometry == gdf.geometry && safe.crs == gdf.crs
    ensures safe.attrs.rows == gdf.attrs.rows
    ensures IsSanitization(gdf.attrs.columns, safe.attrs.columns)
    ensures forall k, m :: 0 <= k < m < |safe.attrs.columns| ==>
              !SameIgnoringCase(safe.attrs.columns[k], safe.attrs.columns[m])
  {
    var attrsSafe := SafeShapefileColumns(gdf.attrs);
    safe := GeoFrame(attrsSafe, gdf.geometry, gdf.crs);
  }
}
