# Shark-track data preparation, modelled in Dafny

This project models the data preparation of the NASA Space Apps 2025 shark
project (ClubMecatronica-ESPOL/NASAChallenge2025) and proves properties about it.
The Python scripts are modelled as follows.

- **Training script** (`modelo.py`). It reads one satellite-tag table per shark.
  For each shark it:
  - sorts the fixes by date;
  - parses the `lc` location-class code as a depth class;
  - projects the positions to Web-Mercator;
  - measures elapsed seconds from the first fix and drops duplicate times;
  - forward-fills and then back-fills the depth;
  - interpolates x/y linearly and the depth by nearest neighbour onto a 6-hour grid;
  - rounds and clamps the depth into 0..3;
  - stamps every row with the shark's id `TIBURON_<n>` and the year of the first fix.

  A table that fails is skipped. The run is fatal when no table succeeds.
  The trajectories are then joined with the combined environmental table. The key is
  the latitude and longitude rounded to two decimals, plus the year.
  If that table cannot be loaded, every row gets missing values.
  Each row is then labelled with the next position of the same shark, and the
  last row of each shark is dropped.
- **Viewer** (`visualizacion.py`). It repeats the resampling for a single track.
  It also picks the colour range of a map layer from the layer's variable name.
- **Combination script** (`creacion_archivos.py`). It renames the chlorophyll
  column. It then builds a full outer join of the chlorophyll and temperature
  tables on (latitude, longitude, year).
- **Converters** (`chloro_convertir_nc_a_csv.py`, `temp_convertir_nc_a_csv.py`).
  For every `.nc` file of a folder, a converter:
  - reads the year from the file name;
  - chooses the variable;
  - masks the `_FillValue` cells, drops the missing cells and selects the output columns.

  It then concatenates the per-file tables.

The Dafny modules mirror these steps:

- **`Tracks`**: per-track resampling, shared by both scripts that resample.
- **`Batch`**: the loop over the shark tables, written as a method.
- **`Fusion`**: the environmental load and the left join.
- **`Labels`**: the per-shark shift and drop.
- **`Training`**: the whole training-data run, written as a method.
- **`Viewer`**: the viewer script.
- **`Merge`**: the combination script.
- **`Converters`**: both converters.
- **`Pipeline`**: how the column names pass between the scripts.
- **Helpers**:
  - `Numerals`: Python's `int()` on text.
  - `Columns`: headers and `rename`.
  - `Seqs`: row masks and concatenation.
  - `Wrappers`: `Option` and `Result`.

Some choices stand in for things the model does not compute:

- **Times**: whole seconds.
- **Coordinates**: `real`.
- **Projection**: the pyproj transformer is a pair of functions passed in as a parameter. The model relies on no property of it.
- **Calendar year of a timestamp**: a parameter `yearOf`.
- **Two-decimal rounding**: a parameter `round2`, applied in the same way to both sides of the join.
- **File access**:
  - Reading a CSV file becomes an `Option` value; `None` is a missing file.
  - Opening a NetCDF file becomes a function parameter, and the directory listing a sequence.
- **Failures**: Python raising an exception becomes a `Result` or `Option` failure.

Two behaviours of the code worth noting:

- **Converters**: the check before writing is `if datos_combinados:`, which tests the list of per-file tables. So a run whose `.nc` files have no valid cell still writes a table that has a header and no rows. `Converters.ConvertFolder` writes in that case too.
- **Column names**:
  - The converters write `chlorophyll` and `temperature`.
  - The combination script renames only `clorofila`.
  - The training script selects `concentracion_clorofila` and `temperatura`.

  So converter output that is fed through the combination script reaches the training script without those columns. There the training script falls back to missing values (`Pipeline.ConverterOutputFallsBack`). Tables with the Spanish names go through (`Pipeline.SpanishHeadersLoad`).

## Model

| member | source | states |
|---|---|---|
| Numerals.LeadingSpaces | modelo.py:61 | the count of leading whitespace characters: all of them are whitespace, and the character after them is not |
| Numerals.TrailingSpaces | modelo.py:61 | the same count at the end of the text |
| Numerals.TrimLeft | modelo.py:61 | `int()` ignores leading whitespace: the result is a suffix of the input; every removed character is whitespace; what remains does not start with whitespace |
| Numerals.TrimRight | modelo.py:61 | the same at the end of the text |
| Numerals.ParseUnsignedDigits | modelo.py:59-64 | a code made of decimal digits parses to the number it denotes |
| Numerals.ParseNegativeDigits | modelo.py:59-64 | `-` followed by digits parses to the negated number |
| Numerals.ParseShow | modelo.py:59-64 | every integer written in decimal is read back as itself by `int()` |
| Numerals.ShowInjective | modelo.py:51 | different integers have different decimal texts |
| Numerals.ParseRejectsForeign | modelo.py:59-64 | a code containing a character that is not whitespace, a digit, `_` or a sign (such as the location classes `A`, `B`, `Z`) gives a missing depth |
| Numerals.SeparatorNotSpace | modelo.py:59-63 | `int()` does not skip the separator control 0x1C, so the code `"\x1c5"` gives a missing depth |
| Numerals.ParseInt | modelo.py:59-64 | `parse_depth`'s `int()`; characterised by Numerals.ParseShow, Numerals.ParseUnsignedDigits, Numerals.ParseNegativeDigits and Numerals.ParseRejectsForeign |
| Numerals.NatDigitsIsNumeral | modelo.py:51 | the decimal text of a natural number is a well-formed numeral that denotes the number |
| Tracks.InsertByDate | modelo.py:57 | inserting a fix into a date-sorted table keeps it sorted, makes it one fix longer and adds exactly that fix |
| Tracks.InsertPermutes | modelo.py:57 | the insertion adds the fix to the multiset of fixes and changes nothing else |
| Tracks.SortByDate | modelo.py:57 | `sort_values("date")` returns as many fixes, the same fixes, in nondecreasing date order |
| Tracks.SortPermutes | modelo.py:57 | the sorted table is a permutation of the table: the same multiset of fixes |
| Tracks.EarliestDate | modelo.py:69 | the earliest date is a date of the table and no fix is earlier |
| Tracks.LatestDate | modelo.py:77 | the latest date is a date of the table and no fix is later |
| Tracks.SortedEnds | modelo.py:57 | after the sort the first fix has the earliest date and the last fix the latest |
| Tracks.TwoDatesIffSpread | modelo.py:73-77 | the table has two different dates exactly when its earliest date is before its latest |
| Tracks.ToKnots | modelo.py:59-69 | one knot per fix: the elapsed time measured from the first fix's date, the forward projection of the fix's longitude and latitude, and the depth that `parse_depth` reads from its location code |
| Tracks.DropDuplicateTimes | modelo.py:70 | `drop_duplicates(subset="t_s")`; characterised by Tracks.DedupTimes, Tracks.DedupKeepsFirst, Tracks.DedupOfSortedIncreases and Tracks.DedupEnds |
| Tracks.DedupFromFacts | modelo.py:70 | the forward scan of `drop_duplicates(subset="t_s")`, given the times already kept: every kept knot comes from the input with a time not yet kept, every such time is kept, and no time twice |
| Tracks.DedupTimes | modelo.py:70 | `drop_duplicates(subset="t_s")` keeps every elapsed time once and no time twice |
| Tracks.DedupFromKeepsFirst | modelo.py:70 | in the scan, each kept knot is the first knot of the input with its time |
| Tracks.DedupKeepsFirst | modelo.py:70 | each kept knot is the first knot with its time |
| Tracks.DedupOfSortedIncreases | modelo.py:69-71 | after the sort and the duplicate removal the elapsed times are strictly increasing |
| Tracks.DedupEnds | modelo.py:70-71 | on sorted knots the duplicate removal keeps the first and the last time |
| Tracks.Knots | modelo.py:57-71 | sort, elapsed times, projection and duplicate removal; characterised by Tracks.KnotsSpan, Tracks.KnotsOfSorted and Tracks.EnoughKnots |
| Tracks.KnotsOfSorted | modelo.py:64-71 | knots of date-sorted fixes have strictly increasing times, from 0 to the span between the first and last date |
| Tracks.KnotsSpan | modelo.py:57-71 | the knots of a track have strictly increasing times, from 0 (the first fix) to the track's duration |
| Tracks.FFillPresent | modelo.py:72 | `ffill` keeps present depths |
| Tracks.FFillLeading | modelo.py:72 | before the first present depth `ffill` yields the value carried in, which is missing at the start of a track |
| Tracks.FFillGap | modelo.py:72 | `ffill` fills a gap with the last present depth before it |
| Tracks.BFillPresent | modelo.py:72 | `bfill` keeps present depths |
| Tracks.BFillGap | modelo.py:72 | `bfill` fills a gap with the next present depth |
| Tracks.BFillTrailing | modelo.py:72 | `bfill` leaves trailing gaps missing |
| Tracks.FillDepths | modelo.py:72 | `ffill().bfill()` keeps the length; characterised by Tracks.FillKeepsPresent, Tracks.FillFromEarlier, Tracks.FillLeadingFromFirst and Tracks.FillMissingIffNoDepth |
| Tracks.FillKeepsPresent | modelo.py:72 | after `ffill().bfill()` present depths are unchanged |
| Tracks.FillFromEarlier | modelo.py:72 | a gap after a present depth takes the nearest earlier present depth |
| Tracks.FillLeadingFromFirst | modelo.py:72 | leading gaps take the first present depth |
| Tracks.FillAllMissing | modelo.py:72 | a track without any depth stays missing everywhere |
| Tracks.FillMissingIffNoDepth | modelo.py:72 | after `ffill().bfill()` a depth is missing exactly when the track has no depth at all |
| Tracks.Grid | modelo.py:76-77 | `np.arange(lo, hi, step)`: its elements are `lo + k*step`, all below `hi`, and they reach `hi` within one step; it is empty when `lo >= hi` |
| Tracks.GridIncreases | modelo.py:77 | the grid is strictly increasing |
| Tracks.GridComplete | modelo.py:77 | every `lo + k*step` below `hi` is on the grid |
| Tracks.SearchLeft | modelo.py:73-74 | `searchsorted(side="left")`: every time before the result is below the query, and the time at the result is not |
| Tracks.LinearAt | modelo.py:73-74 | `interp1d(kind="linear", fill_value="extrapolate")`: on each segment the value is the straight line through its two knots; before the first knot and after the last, the line of the first or last segment |
| Tracks.LinearAtKnot | modelo.py:78 | the interpolation reproduces the observed value at every observed time |
| Tracks.BlendBetween | modelo.py:73-74 | inside a segment the straight line lies between the two knot values |
| Tracks.LinearWithinSegment | modelo.py:78 | the interpolated value at a time between two adjacent knots lies between their values |
| Tracks.NearestIndex | modelo.py:75 | the knot `interp1d(kind="nearest")` picks; characterised by Tracks.NearestFrom and Tracks.NearestIsClosest |
| Tracks.NearestFrom | modelo.py:75 | `interp1d(kind="nearest")`: the chosen knot is the first one whose midpoint with its successor is not below the query |
| Tracks.NearestIsClosest | modelo.py:75 | the chosen knot is at least as close as every knot and strictly closer than every earlier one, so ties go to the earlier knot |
| Tracks.DepthClass | modelo.py:85 | `clip(round(z).astype(int), 0, 3)`: always in 0..3; a present depth in range is kept; larger depths give 3; negative or missing depths give 0 |
| Tracks.ResampleKnots | modelo.py:73-85 | the samples lie on the 6-hour grid from the first knot, below the last knot, and cover it; each depth class is in 0..3 |
| Tracks.ResampledValues | modelo.py:78-85 | each sample is the linear interpolation of x and y at its time, and its depth class comes from a closest knot's filled depth |
| Tracks.Unproject | modelo.py:79 | each sample's longitude and latitude are the inverse projection of its x and y; its time and depth class are kept |
| Tracks.SampleTimes | modelo.py:76-79 | samples of knots from 0 to the duration lie at `k * 21600` below the duration and cover it |
| Tracks.EnoughKnots | modelo.py:70-77 | a track has at least two knots exactly when it has two different dates |
| Tracks.Resample | modelo.py:70-85 | the resampling of one table; characterised by Tracks.ResampleShape, Tracks.ResampleKnots and Tracks.ResampledValues |
| Tracks.ResampleShape | modelo.py:70-79 | a track resamples exactly when it has two distinct dates, and otherwise fails with too few samples; the samples are non-empty, at `k * 21600` s below the duration, cover it, and have depth classes in 0..3 |
| Tracks.ResampleTrack | modelo.py:81-89 | a shark's table succeeds or fails with the resampling; each of its rows is a resampled point with the shark's id and the year of its earliest fix |
| Tracks.ScenarioCodes | modelo.py:59-64 | the codes `"2"` and `"A"` parse to 2 and to missing |
| Tracks.LetterCode | modelo.py:62-63 | the code `"A"` is not an integer |
| Tracks.ScenarioGrid | modelo.py:76-77 | a 12-hour track is sampled at 0 s and 21600 s |
| Tracks.ScenarioKnots | modelo.py:64-72 | the two-fix scenario has knot times 0 s and 43200 s and filled depths 2 and 2 |
| Tracks.ScenarioSample | modelo.py:73-85 | each of the two samples of the scenario is the expected one |
| Tracks.TwoKnotScenario | modelo.py:73-85 | knots at 0 s (x 0, depth 2) and 43200 s (x 100, no depth) give samples (0, 0, depth 2) and (21600, 50, depth 2) |
| Batch.TrackIdInjective | modelo.py:51 | different tables get different ids |
| Batch.TrackIdsInjective | modelo.py:51 | the id assignment is injective |
| Batch.Outcome | modelo.py:51-97 | one table's outcome: its resampled rows, or the reason it is skipped; characterised by Batch.OutcomesTagged and Batch.EntityAllOrNothing |
| Batch.Collected | modelo.py:91-103 | the successful tables' rows concatenated in order; characterised by Batch.ResampleBatch, Batch.TaggedAllOrNothing and Batch.CollectedLacksLaterIds |
| Batch.ResampleBatch | modelo.py:50-101 | the loop returns the rows of the successful tables concatenated in order, and each failed or missing table with its cause; it fails exactly when no table succeeded |
| Batch.OutcomesTagged | modelo.py:86 | every row of a successful table carries that table's id |
| Batch.CollectedLacksLaterIds | modelo.py:91 | the rows collected before a table contain none with its id |
| Batch.TaggedAllOrNothing | modelo.py:91-103 | in the concatenation, the rows with a table's id are exactly that table's rows, or none |
| Batch.EntityAllOrNothing | modelo.py:86-103 | every shark contributes its whole trajectory or nothing, and a skipped shark does not affect the others |
| Seqs.Concat | modelo.py:103 | `pd.concat`: a row is in the result exactly when it is in one of the tables |
| Seqs.ConcatLength | chloro_convertir_nc_a_csv.py:58 | the concatenation has as many rows as the tables together |
| Columns.RenameOne | creacion_archivos.py:25 | a one-column rename changes exactly that column's name |
| Merge.OuterMerge | creacion_archivos.py:35-40 | the rows of `merge(how="outer")`; characterised by Merge.OuterMergeMembers, Merge.MergeKeys, Merge.ChlOnlyKey, Merge.TempOnlyKey and Merge.SharedKey |
| Merge.OuterMergeMembers | creacion_archivos.py:35-40 | the merged rows are exactly the rows of a full outer join: pairs of rows with equal keys with both values, and rows whose key the other table lacks, with the other value missing |
| Merge.MergeKeys | creacion_archivos.py:30-40 | the merged keys are the union of the two tables' keys |
| Merge.ChlOnlyKey | creacion_archivos.py:32-33 | a key only the chlorophyll table has carries one of its chlorophyll values and a missing temperature |
| Merge.TempOnlyKey | creacion_archivos.py:32-33 | a key only the temperature table has carries one of its temperatures and a missing chlorophyll |
| Merge.SharedKey | creacion_archivos.py:35-40 | every row of a key both tables have carries a chlorophyll and a temperature of that key, unchanged |
| Merge.SharedKeyUnique | creacion_archivos.py:35-40 | with unique keys on both sides, a shared key gives exactly one row, holding both values |
| Merge.PartnersEmpty | creacion_archivos.py:35-40 | a chlorophyll row has no temperature partner exactly when its key is absent from the temperature table |
| Merge.MergeRowMembers | creacion_archivos.py:35-40 | the rows for one chlorophyll row are its pairings with each partner, or the row alone when it has none |
| Merge.ChlorophyllRenamed | creacion_archivos.py:25 | `clorofila` becomes `concentracion_clorofila` and every other column keeps its name |
| Merge.TemperatureRenameIsIdentity | creacion_archivos.py:26 | the temperature rename changes no column |
| Merge.MergeColumns | creacion_archivos.py:35-40 | the header of the merge: the left columns, then the right non-key columns, with `_x`/`_y` on non-key names found on both sides; characterised by Merge.MergeColumnsKeys and Merge.MergeColumnsDistinct |
| Merge.MergeColumnsKeys | creacion_archivos.py:35-40 | when both headers have the key columns, every key column is in the merged header under its own name |
| Merge.MergeColumnsDistinct | creacion_archivos.py:35-40 | when neither header repeats a name or has a name ending in `_x` or `_y`, the merged header repeats no name: the suffixes keep the two sides' shared non-key columns apart |
| Merge.NonKeysSingle | creacion_archivos.py:38 | a table whose only non-key column is one column contributes just that column |
| Merge.Combine | creacion_archivos.py:11-40 | a missing input file ends the script; a key column missing on either side is an error; otherwise the rows are the outer merge |
| Fusion.LoadEnvironment | modelo.py:111-158 | the environmental rows load exactly when the file exists and, after the rename, has lat, lon, year, Temp_Media and Cloro_Media |
| Fusion.Missing | modelo.py:148-158 | the fallback keeps each trajectory row with both environmental values missing |
| Fusion.AttachFallback | modelo.py:148-158 | when the environmental table does not load, every row has both values missing |
| Fusion.LeftJoin | modelo.py:124-140 | `merge(how="left")` on the rounded keys; characterised by Fusion.LeftJoinMembers and Fusion.LeftJoinIsLookup |
| Fusion.Attach | modelo.py:111-158 | the join, or the all-missing fallback when the table does not load; characterised by Fusion.AttachFallback and Training.AttachKeepsPoints |
| Fusion.JoinPointMembers | modelo.py:133-140 | a trajectory row is joined with the values of each environmental row with its rounded key, or kept with missing values when there is none |
| Fusion.LeftJoinMembers | modelo.py:124-140 | a joined row has values exactly when an environmental row has the same rounded latitude, rounded longitude and year; otherwise both are missing |
| Fusion.IndexDomain | modelo.py:133-140 | a rounded key is in the map built from the table exactly when a row has it |
| Fusion.IndexAt | modelo.py:133-140 | with unique keys the map holds each row under its rounded key |
| Fusion.JoinPointUnique | modelo.py:133-140 | with unique keys each trajectory row joins to exactly one row: the map lookup |
| Fusion.LeftJoinIsLookup | modelo.py:133-144 | with unique keys the left join is an in-order map lookup, one row per trajectory row |
| Labels.FirstOf | modelo.py:162-163 | the search finds the first row of the given shark from a position on, or reports that there is none |
| Labels.NextExists | modelo.py:162-163 | a row has a next row of its shark exactly when a later row belongs to that shark |
| Labels.BuildExamples | modelo.py:162-167 | `groupby("id").shift(-1)` and `dropna`; characterised by Labels.BuildExamplesIff and Labels.ExamplesPerEntity |
| Labels.ExamplesFromMembers | modelo.py:162-167 | every example from a position on labels a row with the next row of its own shark |
| Labels.NextOfIsNext | modelo.py:162-163 | the search for the next row of a shark finds exactly that next row |
| Labels.ExamplesFromHas | modelo.py:162-167 | every row from a position on that has a next row of its shark yields the example labelled with that next row |
| Labels.BuildExamplesIff | modelo.py:162-167 | an example is in the labelled table exactly when it is a row labelled with the next row of its own shark |
| Labels.LabelsFromNextOfEntity | modelo.py:162-167 | every target is the position of the next row of the same shark; no label comes from another shark |
| Labels.ExamplesFromCount | modelo.py:162-167 | from any position on, each shark with n rows yields n - 1 examples |
| Labels.ExamplesPerEntity | modelo.py:162-167 | each shark with n rows contributes n - 1 examples; with Labels.BuildExamplesIff and Labels.NextExists, the row without an example is the one with no later row of its shark, its last row |
| Training.PrepareTrainingTable | modelo.py:50-167 | the run fails exactly when no table succeeds; otherwise it returns the labelled join of the concatenated trajectories, and it reports the skipped tables |
| Training.AttachKeepsPoints | modelo.py:133-158 | with the fallback or unique environmental keys the join keeps the trajectory rows one to one, in order |
| Training.SameIdCount | modelo.py:162 | a shark has as many joined rows as trajectory rows |
| Training.ExamplesPerShark | modelo.py:50-167 | a shark resampled into n points yields n - 1 training examples, and a skipped shark yields none |
| Viewer.ShowTrack | visualizacion.py:16-49 | the viewer shows a track exactly when it has two distinct dates: non-empty samples at `k * 21600` s with depth classes in 0..3 |
| Viewer.ViewerMatchesBatch | visualizacion.py:16-49 | the viewer and the training script compute the same samples for a track |
| Viewer.LowerChar | visualizacion.py:115 | `str.lower` on ASCII: capitals become small letters and every other ASCII character is kept |
| Viewer.ChlorContainsChl | visualizacion.py:115 | a name that contains `chlor` contains `chl` |
| Viewer.ColorLimits | visualizacion.py:114-116 | the colour range is (0, 1) exactly when the lower-cased name contains `chl`, and None otherwise |
| Viewer.ColorLimitsOfLayers | visualizacion.py:114-116 | `chlor_a` and `CHL` get (0, 1) and `sst` gets None |
| Converters.FirstYearAt | chloro_convertir_nc_a_csv.py:13 | `re.search(r"20\d{2}")` finds the leftmost match, or reports that there is none |
| Converters.ExtractYear | chloro_convertir_nc_a_csv.py:11-14 | the year is the value of the leftmost `20dd`, None when there is none, and always within 2000..2099; the temperature converter's copy (temp_convertir_nc_a_csv.py:10-12) works the same way |
| Converters.FourDigitValue | chloro_convertir_nc_a_csv.py:14 | four decimal digits denote `1000a + 100b + 10c + d` |
| Converters.YearIsPythonInt | chloro_convertir_nc_a_csv.py:14 | Python's `int()` of the matched text gives the same year |
| Converters.Find | chloro_convertir_nc_a_csv.py:31 | `ds[name]` finds a variable of that name, or none exists |
| Converters.ChooseVariable | chloro_convertir_nc_a_csv.py:25-29 | the chlorophyll converter uses `chlor_a` when it is present, otherwise the first data variable (none when there is none); the temperature converter (temp_convertir_nc_a_csv.py:23) uses `sst`, and fails without it |
| Converters.ConvertFile | chloro_convertir_nc_a_csv.py:40-51 | a converted file has exactly the columns latitude, longitude, chlorophyll and year; in the temperature converter (temp_convertir_nc_a_csv.py:35-43) latitude, longitude, temperature and year |
| Converters.ValidRows | chloro_convertir_nc_a_csv.py:34-36 | the rows are exactly the cells that are present and differ from `_FillValue`, each stamped with the file's year; the temperature converter (temp_convertir_nc_a_csv.py:26-28) masks and drops the same way |
| Converters.ConvertedRows | chloro_convertir_nc_a_csv.py:34-51 | a row is written exactly when a cell of the chosen variable holds its value, that value is not `_FillValue`, and the row carries the cell's coordinates and the year of the file name; the same holds for the temperature converter (temp_convertir_nc_a_csv.py:26-43) |
| Converters.Frames | chloro_convertir_nc_a_csv.py:17-58 | the tables gathered by the loop, or the file that stopped it; characterised by Converters.FramesFollowListing, Converters.FailureStops and Converters.NoFramesIffNoNetCdf |
| Converters.ConvertFolder | chloro_convertir_nc_a_csv.py:17-62 | the run writes the per-file tables concatenated in listing order, writes nothing when no table was produced, and stops at the first file that fails; the temperature converter (temp_convertir_nc_a_csv.py:15-54) runs the same loop |
| Converters.FailureStops | chloro_convertir_nc_a_csv.py:19-23 | an error in one file ends the run, and later files change nothing |
| Converters.NoFramesIffNoNetCdf | chloro_convertir_nc_a_csv.py:20 | nothing is gathered exactly when the listing has no `.nc` file |
| Converters.FramesAreFiles | chloro_convertir_nc_a_csv.py:54 | each gathered table is the converted rows of one `.nc` file of the listing |
| Converters.FramesFollowListing | chloro_convertir_nc_a_csv.py:17-58 | on success there is exactly one gathered table per `.nc` entry of the listing, in listing order, and the j-th table is the converted rows of the j-th `.nc` file; the temperature converter (temp_convertir_nc_a_csv.py:15-50) gathers the same way |
| Converters.WrittenRowCount | chloro_convertir_nc_a_csv.py:57-60 | the written row count is the sum of the per-file counts |
| Pipeline.MergeOfConverterHeaders | creacion_archivos.py:25-40 | the combination of the converters' headers is latitude, longitude, chlorophyll, year, temperature |
| Pipeline.ConverterOutputFallsBack | modelo.py:115-158 | that header fails the training script's selection, so every trajectory row gets missing environmental values |
| Pipeline.SpanishHeadersMerge | creacion_archivos.py:25-40 | tables with `clorofila` and `temperatura` columns merge into latitude, longitude, concentracion_clorofila, year and temperatura |
| Pipeline.SpanishHeadersLoad | creacion_archivos.py:25-40 | tables with `clorofila` and `temperatura` columns combine into a header that the training script loads |

## Left out

- Viewer.LowerChar: only ASCII capitals are lowered. Python's `str.lower` also lowers non-ASCII capitals such as `É` or `Σ`. No non-ASCII character lowers to `c`, `h` or `l`, so `Viewer.ColorLimits` is the same either way.
- The pyproj WGS84↔Web-Mercator transformer (modelo.py:67-68,79; visualizacion.py:30-31,49) is foreign floating-point code. It is a pair of function parameters, with no round-trip property.
- The floating-point behaviour of the numerical steps is not modelled. The depth rounding is exact on integer depth codes below 2^53. The steps are:
  - the interpolation;
  - `np.round`, including its tie-breaking;
  - `.round(2)`, which is the `round2` parameter.
- Tracks.SortByDate: a stable insertion sort. The order pandas' default quicksort gives to fixes with equal dates is not modelled. That order changes which of two equal-time fixes `drop_duplicates` keeps.
- Numerals.ParseInt: only ASCII digits, and only the whitespace `int()` skips around an all-ASCII text: tab, line feed, vertical tab, form feed, carriage return and the blank. The Unicode digits and spaces that Python's `int()` also accepts are not modelled. Neither is the case of a text that holds a non-ASCII character, where `int()` also treats the separator controls 0x1C-0x1F as spaces. Python's unbounded integers need no width.
- Converters.ExtractYear: `\d` is read as an ASCII digit. Python's `re` also matches other Unicode decimal digits, which `int()` would then read.
- Tracks.DepthClass: a depth code so large that its float64 value reaches 2^63 overflows `astype(int)` in the source, which then gives class 0; the model gives class 3. The model also has no float rounding of codes above 2^53, which changes no class.
- DepthClass of a missing depth is 0. This follows what `astype(int)` gives for NaN on 64-bit platforms (the smallest integer), which `clip` raises to 0.
- Tracks.ResampleShape: fewer than two distinct times is a failure, on the assumption that `interp1d` rejects a single point (this depends on the SciPy version; a release that accepts it would instead give an empty trajectory); a depth code such as `"1.0"` that `int()` rejects is missing. The `lc` codes are taken as text, as pandas reads a column that holds a letter code. A column that pandas infers as numeric (only numbers and blanks) would hand `int()` a float, and `int(1.0)` is 1. That type inference is not modelled.
- Merge.OuterMerge: pandas returns the rows of an outer merge sorted by key. The model keeps the chlorophyll-side rows first and then the temperature-only rows. Its lemmas are about which rows occur, not their order.
- Merge.MergeColumns: the `_x`/`_y` suffixes for non-key columns found on both sides are modelled. A `year` column that the converters would write as float and the merge would match as a number is not.
- Fusion.LeftJoinIsLookup and Training.ExamplesPerShark require unique rounded keys on the environmental side, or the fallback. Without that precondition, Fusion.LeftJoinMembers states only which joined rows occur, not how many copies of each there are or their order; Fusion.LeftJoin itself builds one row per matching environmental row, in trajectory order.
- NaN keys (a missing latitude, longitude or year) are not modelled. Every key is a number.
- Reading a CSV file is modelled only as present or missing. The file's cells are given as typed rows, so a malformed file is not modelled.
- Each shark table is reduced to `date`, `lon`, `lat` and `lc`, and the parsed date becomes whole seconds. A date that fails to parse, or a table without those columns, is a failure of the source (`Batch.Outcome` with `None`: skipped).
- The converters' NetCDF variables are modelled as a list of cells with latitude and longitude. Any other dimension (such as time) adds cells but no column. Only `lat`/`lon` and `latitude`/`longitude` coordinate names pass the column selection.
- Model training, evaluation and saving (modelo.py:171-248), prediccion.py, the dashboards (visualizacion.py:51-112,118-176) and visualizador_de_grupos.py are not part of this model: they are sklearn, plotting and UI code.
- The following are not modelled; only their results are:
  - `print`;
  - `exit`;
  - `to_csv`;
  - the order that `os.listdir` returns, which is an input sequence in the model.
