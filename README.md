# csvtoshape core, modelled in Dafny

csvtoshape is a CSV-to-shapefile converter. It reads a table with
latitude and longitude columns and builds a point layer from it. It then
renames the attribute columns to legal shapefile field names and offers
the result as a zipped shapefile. This project models the logic under
that user interface, all of it from `app.py`:

- **Column resolver** (`resolver.dfy`, module `Resolver`). `normalize_col`
  lower-cases a column label and keeps only `[a-z0-9]`. There are two
  alias sets, one for latitude and one for longitude.
  `guess_lat_lon_columns` builds the dict `{label: normal form}` and
  filters its keys against each alias set. For each set it takes the first
  candidate, or `None` when there is none.
- **Geometry builder** (`geometry.dfy`, module `Geometry`). This is
  app.py:120-151. Both coordinate columns are coerced to numbers. A row is
  dropped when either coordinate is NaN. The counts before and after are
  reported, and processing stops when no row is left. When the output CRS
  is `EPSG:4326`, an advisory count of rows with |lat| > 90 or |lon| > 180
  is taken. Then one point is built per row, x from longitude and y from
  latitude, and the layer is tagged `EPSG:4326`. `pd.to_numeric`'s number
  grammar is a parameter, `parse: string -> Option<real>`. A numeric cell
  stays as it is, and a missing cell stays missing.
- **Field sanitizer** (`sanitizer.dfy`, module `Sanitizer`).
  `safe_shapefile_columns` is one left-to-right pass over the column labels
  that keeps a case-insensitive `used` set:
  - Each character outside `[A-Za-z0-9_]` is replaced by `_`.
  - The result is cut to 10 characters, or becomes `"field"` if it is
    empty. This is the base name.
  - The base is emitted if it is free in `used`. Otherwise the emitted name
    is `base[:10-len(str(i))] + str(i)` for the smallest free `i >= 1`.

  `IsSanitization` states this rule column by column. The method
  `SafeShapefileColumns` keeps the source's loops and is proved to meet it.
  `SanitizationUnique` shows that the rule allows exactly one output. The
  names it gives are legal field names and pairwise distinct up to letter
  case. With fewer than 9·10^9 names in `used`, the inner `while` loop
  ends. Among suffixes 10^9 to 10^10 - 1, every candidate is the
  ten-digit numeral itself, so a pigeonhole argument finds a free one.
- `pipeline.dfy` (module `Pipeline`) renames the layer's attribute table
  and keeps its points and CRS (app.py:163-165).
- `text.dfy` holds the Python string operations used above:
  - ASCII `lower()`;
  - the slice `[:n]`;
  - `str(i)`, with its inverse and injectivity.

  `table.dfy` holds the table: labels, and rows of text, number or missing
  cells. `options.dfy` holds `Option`.

app.py:48 replaces each character outside `[A-Za-z0-9_]` with `_`. So
`"Station Name (ID)"` has base `"Station_Na"`
(`SanitizerExamples.StationNameBase`), and `"Temp-C"`, `"Temp_C"` become
`"Temp_C"`, `"Temp_C1"` (`SanitizerExamples.TempColumns`).

## Model

| member | source | states |
|---|---|---|
| `Resolver.NormalizeCol` | app.py:24-25 | the normal form holds only `[a-z0-9]` and is no longer than the label |
| `Resolver.KeepLowerAlnum` | app.py:25 | the `re.sub` filter leaves only `[a-z0-9]` characters and never lengthens the string |
| `Resolver.KeepLowerAlnumMembers` | app.py:25 | a character occurs in the filtered string exactly when it occurs in the input and is in `[a-z0-9]` |
| `Resolver.NormalizeChar` | app.py:25 | a single character normalises to its lower-case form when that is in `[a-z0-9]`, and to nothing otherwise |
| `Resolver.NormalizeIdempotent` | app.py:24-25 | normalising a normal form changes nothing |
| `Resolver.NormalizeFixesClean` | app.py:24-25 | a label already made of `[a-z0-9]` is its own normal form |
| `Resolver.NormalizeIgnoresCase` | app.py:25 | lower-casing the label first gives the same normal form |
| `Resolver.NormalizeHead` | app.py:25 | a first character that lower-cases into `[a-z0-9]` stays first in the normal form |
| `Resolver.NormalizeCleanName` | app.py:25 | a label of letters and digits normalises to its lower-case form |
| `Resolver.NormalizeConcat` | app.py:25 | the normal form of a concatenation is the concatenation of the normal forms, so punctuation inside a label drops out without disturbing the rest |
| `Resolver.NormalizeDropsChar` | app.py:25 | deleting one character whose lower-case form is outside `[a-z0-9]` from anywhere in a label leaves the normal form unchanged |
| `Resolver.AliasSetsDisjoint` | app.py:27-28 | no string is both a latitude alias and a longitude alias |
| `Resolver.DictKeys` | app.py:31 | the dict's keys are exactly the labels not seen before, each once, ordered by the position of each label's first occurrence among the columns |
| `Resolver.FirstIndexIsFirst` | app.py:31 | the position `FirstIndex` gives a label is its first occurrence: no earlier column holds it |
| `Resolver.Candidates` | app.py:32-33 | a key is a candidate exactly when its normal form is in the alias set |
| `Resolver.FirstCandidateIsFirstMatch` | app.py:31-35 | the head of the candidate list is the first label in column order whose normal form is an alias, and the list is empty exactly when no label matches |
| `Resolver.GuessLatLonColumns` | app.py:30-36 | each guess is the first column whose normal form is in its alias set, or `None` exactly when no column matches |
| `Resolver.FirstInOrderUnique` | app.py:34-35 | at most one guess satisfies the first-match contract |
| `Resolver.GuessedColumnsDiffer` | app.py:27-36 | when both guesses succeed they are different columns |
| `ResolverExamples.StationHeaderNormalForms` | app.py:24-28 | "Station Name (ID)" is no alias; "Lat" normalises to a latitude alias only; "Lon" normalises to a longitude alias |
| `ResolverExamples.StationHeader` | app.py:30-36 | the header `["Station Name (ID)", "Lat", "Lon"]` gives `("Lat", "Lon")` |
| `ResolverExamples.CsvExampleHeaderNormalForms` | app.py:24-28 | on the start page's example header (app.py:199-203), "Station" is no alias, "Latitude" only a latitude alias, "Longitude" a longitude alias |
| `ResolverExamples.CsvExampleHeader` | app.py:30-36 | the start page's example header `Station,Latitude,Longitude,Type,Value` (app.py:199-203) gives `("Latitude", "Longitude")` |
| `ResolverExamples.PunctuatedAlias` | app.py:24-28 | "X_Coordinate" normalises to "xcoordinate", a longitude alias |
| `Text.Decimal` | app.py:54 | `str(i)` is a non-empty string of digits with no leading zero |
| `Text.DecimalRoundTrip` | app.py:54 | reading back `str(i)` gives `i` |
| `Text.DecimalInjective` | app.py:54 | different suffix numbers give different suffix strings |
| `Text.DecimalLength` | app.py:54-55 | a k-digit number has a k-character `str(i)` |
| `Sanitizer.Base` | app.py:48-50 | the base is a legal field name; for a non-empty label it has the label's length up to 10, with each illegal character replaced by `_` in place; for an empty label it is `"field"` |
| `Sanitizer.ReplaceIllegal` | app.py:48 | same length as the label; each character is kept when in `[A-Za-z0-9_]` and becomes `_` otherwise |
| `Sanitizer.Candidate` | app.py:54-55 | every suffixed candidate is a legal field name |
| `Sanitizer.CandidateKeepsSuffix` | app.py:54-55 | while `str(i)` fits, the candidate is a prefix of the base followed by the whole of `str(i)`, at most 10 characters |
| `Sanitizer.FreeSuffixExists` | app.py:53-56 | with fewer than 9·10^9 used names some suffix `i >= 1` is free, so the `while` loop terminates |
| `Sanitizer.FreeTenDigitNumeral` | app.py:53-56 | fewer used names than numbers in a range leave some number's numeral unused |
| `Sanitizer.ResolveName` | app.py:51-56 | the emitted name is the base when it is free in `used`, otherwise the candidate with the smallest free suffix |
| `Sanitizer.ResolvesIsFree` | app.py:53-57 | the emitted name is a legal field name whose lower-case form is not yet used |
| `Sanitizer.LowerSet` | app.py:46-57 | `used` has at most one entry per name emitted |
| `Sanitizer.LowerSetMembers` | app.py:46-57 | a string is in `used` exactly when it is the lower-case form of some name emitted so far |
| `Sanitizer.ResolvesUnique` | app.py:51-56 | the rule for one column picks exactly one name |
| `Sanitizer.SanitizationExtend` | app.py:57-58 | appending a correctly resolved column to a correct prefix gives a correct longer output |
| `Sanitizer.SanitizationUnique` | app.py:45-58 | the per-column rule determines the whole output list |
| `Sanitizer.SanitizedNamesLegal` | app.py:48-55 | every emitted name is 1-10 characters of `[A-Za-z0-9_]` |
| `Sanitizer.SanitizedNamesDistinct` | app.py:53-57 | the emitted names are pairwise distinct ignoring case |
| `Sanitizer.SafeShapefileColumns` | app.py:38-61 | one name per column, in order, following the rule; names are legal and case-insensitively distinct; rows are unchanged |
| `SanitizerExamples.StationNameBase` | app.py:48 | "Station Name (ID)" has base "Station_Na" |
| `SanitizerExamples.TempColumns` | app.py:45-58 | the only output for `["Temp-C", "Temp_C"]` is `["Temp_C", "Temp_C1"]` |
| `Geometry.ToNumeric` | app.py:123-124 | a coerced cell is a number or missing; a number is kept; text becomes the parsed number, or missing when it does not parse |
| `Geometry.CoerceColumn` | app.py:123-124 | only the coerced column changes, in every row |
| `Geometry.Work` | app.py:120-124 | the working copy has as many rows as the input, each with both coordinate cells |
| `Geometry.DropMissing` | app.py:128 | no more rows than before, each with both coordinates present |
| `Geometry.DropMissingKeepsExactlyPresent` | app.py:127-129 | `dropna` keeps exactly the rows with both coordinates present, in their original order |
| `Geometry.WorkPresent` | app.py:123-128 | after coercion a row has both coordinates exactly when both original cells parse |
| `Geometry.CountOutOfRange` | app.py:139-140 | the advisory count is at most the number of rows |
| `Geometry.CountOutOfRangeIsCardinality` | app.py:138-140 | the count equals the number of rows with abs(lat) > 90 or abs(lon) > 180 |
| `Geometry.KeptAreCoerced` | app.py:128-129 | every surviving row has numeric latitude and longitude |
| `Geometry.ConvertStopsExactlyWhenNothingParses` | app.py:127-133 | zero rows survive exactly when no row has both coordinates parsing |
| `Geometry.Convert` | app.py:120-151 | stops with no layer exactly when no row parses; otherwise before = row count = after + dropped and after > 0; range count only for EPSG:4326, and then the number of kept rows with abs(lat) > 90 or abs(lon) > 180; one point per kept row with x = longitude, y = latitude; CRS tag EPSG:4326 |
| `Geometry.PointsOf` | app.py:147-151 | one point per row, in row order; point `j` has x = row `j`'s longitude and y = its latitude |
| `Geometry.ConvertKeepsParsedRowsInOrder` | app.py:122-129 | the layer's rows are exactly the coerced rows whose coordinates parse, in their original order |
| `GeometryExamples.OneStationWork` | app.py:123-124 | coercing the example row turns its two coordinate cells into numbers |
| `GeometryExamples.OneStation` | app.py:120-151 | the one-row station table gives one point at (77.985, 30.284), nothing dropped, no row out of range |
| `GeometryExamples.UnparsableLatitude` | app.py:123-151 | of two rows, the one whose latitude is "abc" is dropped; the survivor is station A-1, with the single point (77.985, 30.284) |
| `Pipeline.SafeLayer` | app.py:163-165 | renamed attribute table with the same rows, points and CRS |

## Left out

- User interface (app.py:15-21, 78-117, 185-206). This covers the Streamlit
  widgets and the `st.stop()` control flow. It also covers the
  empty-table check, the default index of the column pickers and the
  choice of output CRS string. The model takes the chosen coordinate
  columns as positions and the output CRS as a string.
- Reading the CSV (app.py:84). Separator, encoding and type inference
  belong to pandas. The model starts from a table of text, number and
  missing cells.
- The number grammar of `pd.to_numeric` is the `parse` parameter.
  Floats are modelled as reals. So the model has no infinities, no
  rounding and no NaN other than a missing cell.
- Reprojection with `gdf.to_crs` (app.py:153-159) is foreign geodesy code.
  `Convert` returns the layer tagged `EPSG:4326` before any reprojection.
- Writing the shapefile, the temporary directory and the zip
  (app.py:63-75, 167-183) are file-system I/O.
- `str.lower()` is modelled as ASCII lower-casing. Non-ASCII characters
  that Python lower-cases into `[a-z0-9]`, such as the Kelvin sign, are not
  covered. `str(c)` on non-string column labels is not covered either:
  labels are strings.
- A CSV column that is itself named `geometry` is not modelled. Neither is
  a repeated label picked as a coordinate column, where pandas would
  select several columns.
- SafeShapefileColumns: requires at most 9,000,000,000 columns, which the
  source does not state. Beyond that many columns, labels can be chosen so
  that every suffix collides and the source's `while` loop never ends.
  The same bound is on `ResolveName` and `Pipeline.SafeLayer`.
