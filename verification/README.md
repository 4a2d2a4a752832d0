# Jeddah school-map analyser: a verified model of its engine

The application reads a table of schools, each with coordinates and an education office.
It computes an "optimal" office location for every office and draws schools and offices on
a map. It can also build pairwise distance matrices between selected schools, with summary
statistics. This project models the computing parts of that application in Dafny and
proves properties about them:

- **`Geo`** (`geo_utils.py`) covers the two distance methods and the dispatcher between
  them. It also covers the centre rule: the median centre for "manhattan", the mean
  centre otherwise. Then comes the scan for the closest and the farthest school, and the
  total and average distance.
- **`Analysis`** (`analysis.py`) covers the distance matrix over a selection of index
  labels. It also covers the statistics over the matrix's strict upper triangle, and the
  per-school "distance to office" column.
- **`DataProcessing`** (`data_processing.py`) covers the office-name standardiser, which
  removes the gender suffixes and rewrites the `ب` prefixes. It also covers coordinate
  column detection, coordinate text cleaning, the drop of missing and zero coordinates,
  and the office column.
- **`MapUtils`** (`map_utils.py`) covers `create_map` without its drawing:
  - the guards;
  - the office colour table;
  - the marker colour decision table;
  - grouping schools by office;
  - the office entry stored per office;
  - the capped percentile display radius.
- **`Legacy`** (`main.py`) covers the older copies kept in the application file. They
  differ from the current ones in four ways:
  - They use Haversine only.
  - They use the mean centre only.
  - They do not echo the distance method.
  - Their `calculate_optimal_location` reads index locals that only a positive distance
    ever binds.

  The older `standardize_office_name` (`main.py:65-85`) and `load_and_process_data`
  (`main.py:178-228`) are the same code as the ones in `data_processing.py`. They are
  modelled once, by `DataProcessing.StandardizeOfficeName` and
  `DataProcessing.LoadAndProcessData`.

Supporting modules:

| module | contents |
|---|---|
| `Wrappers` | `Option` and `Result` |
| `Records` | schools, cleaned frames and result labels |
| `Numbers` | Python's and pandas' `sum`, `min`, `max`, `sort`, `median` and `mean` over reals |
| `Sequences` | first-appearance de-duplication (pandas `unique()`, and dict key order) and the positions of a value |
| `Text` | `strip`, `replace`, `in` and `lower` on strings |
| `Offices` | the insertion-ordered `office_locations` dictionary, as a class |

Several inputs are parameters of the model rather than parts of it:

- Trigonometry is the `Trig` parameter: the Haversine central angle and the cosine of a
  latitude in degrees. Properties that need a law of it (symmetry, zero self-distance,
  non-negativity) require `Lawful(t)`.
- `pd.to_numeric(errors='coerce')` is the `parse` parameter of the loader.
- `pd.read_csv` is replaced by a `Table` value.
- The two `st.selectbox` fallbacks are the `manualLat` and `manualLng` parameters.

## Model

| member | source | states |
|---|---|---|
| Geo.MethodSelection | geo_utils.py:3-18 | only the exact string "manhattan" selects the city-block metric; every other string, "Manhattan" included, gives Haversine |
| Geo.Haversine | geo_utils.py:20-40 | for lawful trigonometry the great-circle distance is never negative, and a point is at distance 0 from itself |
| Geo.Manhattan | geo_utils.py:42-57 | a point is at city-block distance 0 from itself whatever the cosine returns; with a non-negative cosine of the mean latitude the distance is at least 111 km per degree of latitude difference |
| Geo.ManhattanSymmetric | geo_utils.py:42-57 | the city-block distance is symmetric: the mean latitude does not depend on argument order |
| Geo.Distance | geo_utils.py:3-57 | under either method a point is at distance 0 from itself, and points with valid latitudes are never at a negative distance |
| Geo.DistanceSymmetric | geo_utils.py:3-57 | under either method the distance is symmetric |
| Geo.CenterOf | geo_utils.py:66-73 | there is a centre exactly when the frame has rows (an empty frame gives NaN) |
| Geo.CenterInBoundingBox | geo_utils.py:66-73 | both the median and the mean centre lie in the bounding box of the schools |
| Geo.OutlierMedian | geo_utils.py:63-64 | the median of three clustered values and an outlier is 1.5 |
| Geo.OutlierMean | geo_utils.py:63-64 | the mean of the same values is 25.75 |
| Geo.CenterOfClusterAndOutlier | geo_utils.py:63-73 | with three clustered schools and one far outlier, the "manhattan" median centre stays in the cluster while the mean centre is pulled away |
| Geo.ConstantCosineTotal | geo_utils.py:42-57 | when the cosine is one value w at every latitude, the city-block total from a point is 111 km times the sum of the latitude deviations plus w times that of the longitude deviations |
| Geo.FixedWeightOptimal | geo_utils.py:63-69 | with one non-negative longitude weight the coordinate-wise median centre has the smallest weighted deviation total of all points |
| Geo.MedianCenterOptimal | geo_utils.py:63-69 | the docstring's claim in the case it holds for: with a constant non-negative cosine, no point has a smaller city-block total than the median centre |
| Geo.MedianCenterNotOptimal | geo_utils.py:63-69 | the claim fails for the cosine of the mean latitude: schools at (20, 30) and (80, 130) have median centre (50, 80), and (80, 80) has a smaller total whenever cos 50 + cos 80 < cos 35 + cos 65 |
| Geo.DistancesFrom | geo_utils.py:85-90 | one distance per school, in row order, each from the centre to that school |
| Geo.OptimalSpec | geo_utils.py:59-130 | the result holds the centre rule's centre and the method; there is no closest school exactly for an empty frame, and the minimum is finite exactly for a non-empty one; the maximum is non-negative, and a farthest school is named exactly when it is positive |
| Geo.OptimalBounds | geo_utils.py:76-114 | the minimum is finite; the minimum and maximum bracket every school's distance and the average; the total is the sum of the distances, and the average is the total divided by the number of schools |
| Geo.ClosestIsFirstNearest | geo_utils.py:92-96 | the closest school is the first one in row order at the minimum distance (strict `<`) |
| Geo.FarthestIsFirstFarthest | geo_utils.py:98-102 | the farthest school is the first one in row order at a positive maximum distance (strict `>` from 0) |
| Geo.FarthestAbsentIffNoPositive | geo_utils.py:77-102 | there is no farthest school exactly when no school is at a positive distance |
| Geo.SingleSchoolResult | geo_utils.py:59-130 | a one-school office: the school is the centre, at distance 0, the closest school, and there is no farthest school |
| Geo.EmptyFrameResult | geo_utils.py:76-130 | an empty frame: no centre, no picks, total and average 0, minimum infinite, maximum 0 |
| Geo.ScanExtremes | geo_utils.py:75-102 | the closest school is the first one at minimum distance, the farthest the first one at maximum distance, and there is no farthest (maximum 0) when no distance is positive |
| Geo.TotalDistance | geo_utils.py:104-112 | the total is the sum of every school's distance from the centre |
| Geo.OptimalLocation | geo_utils.py:59-130 | the two scans, with their running extremes and running total, compute the loop-free specification |
| Analysis.FindId | analysis.py:21 | the first position with the index label, or none exactly when no row has it |
| Analysis.Select | analysis.py:21 | `df.loc[ids]` gives the rows with those labels in selection order; a KeyError names a label that no row has |
| Analysis.EntryIsDistance | analysis.py:30-37 | the diagonal shortcut `distance = 0` agrees with the distance function for lawful trigonometry |
| Analysis.EntrySymmetric | analysis.py:28-38 | the matrix is symmetric |
| Analysis.EntryNonNegative | analysis.py:28-38 | every cell is non-negative for valid coordinates |
| Analysis.FillMatrix | analysis.py:24-38 | the nested loops fill the n x n array with the pairwise distances, with 0 on the diagonal |
| Analysis.Labels | analysis.py:41 | one label per selected school: its name, or "School #idx" when the name column is missing |
| Records.LabelOf | analysis.py:41 | a school is labelled by its name cell exactly when its row has the name column, otherwise by its index label |
| Analysis.GenerateDistanceMatrix | analysis.py:5-47 | no matrix without a selection of at least two labels; a KeyError for an unknown label; otherwise the matrix of the selected schools with their labels and the method attribute |
| Analysis.RowSpan | analysis.py:83-84 | row i contributes exactly the cells (i, i+1) .. (i, n-1) |
| Analysis.UpperTriangleSize | analysis.py:81-87 | the triangle has n(n-1)/2 cells, so it is empty exactly when n < 2 |
| Analysis.UpperRowsPosition | analysis.py:81-84 | every cell (i, j) with i < j is collected, at its row-major position |
| Analysis.UpperRowsSound | analysis.py:81-84 | every collected value is a cell strictly above the diagonal |
| Analysis.CollectUpperTriangle | analysis.py:81-84 | the nested loops collect the strict upper triangle in row-major order |
| Analysis.StatsConsistent | analysis.py:86-99 | no statistics exactly for no pairs; the minimum and maximum bracket every pairwise distance and the average; the list is returned unchanged; a missing method tag reads "Unknown" |
| Analysis.ExtractDistanceStatistics | analysis.py:78-99 | the statistics of the strict upper triangle, tagged with the matrix's method; none exactly when there are fewer than two schools |
| Analysis.OfficeColumn | analysis.py:58-74 | one cell per school; a school has a distance exactly when its office has an entry, and it is the distance to that entry's location |
| Analysis.FillOfficeColumn | analysis.py:65-74 | the loop over the rows writes exactly the office-distance column |
| Analysis.SchoolsToOfficeDistances | analysis.py:49-76 | the frame comes back unchanged exactly when there are no office locations or no office column; otherwise the column is computed with the method of the first office entry ("manhattan" when it has none) |
| Offices.OfficeTable.constructor | map_utils.py:109 | the dictionary starts empty |
| Offices.OfficeTable.Put | map_utils.py:234-244 | assignment to one key: the other keys keep their entries; a new key is appended to the iteration order, an existing key keeps its place |
| Offices.OfficeTable.First | analysis.py:61-62 | `next(iter(values()))` is the entry of the first key inserted, and there is none exactly for an empty dictionary |
| DataProcessing.MatchEnd | data_processing.py:14-15 | `$` matches at the very end or just before a final newline |
| DataProcessing.SpaceRunStart | data_processing.py:14-15 | the `\s*` run ending at a position is maximal and all whitespace |
| DataProcessing.DropGenderSuffix | data_processing.py:14-15 | whenever the name changes, the text removed is a match of the dash, a whitespace run and the suffix, ending where `$` matches, and everything around it is kept |
| DataProcessing.MatchIsRemoved | data_processing.py:14-15 | whenever `-\s*<suffix>$` matches, `re.sub` cuts out exactly that match |
| DataProcessing.NoMatchUnchanged | data_processing.py:14-15 | when the pattern does not match, the name is unchanged |
| DataProcessing.SuffixRemoved | data_processing.py:13-15 | "<b>-<spaces>بنين" becomes "<b>", also before a final newline |
| DataProcessing.TrailingSpaceBlocksRemoval | data_processing.py:14-15 | a space after the suffix other than a newline blocks the removal |
| DataProcessing.ApplyRewrites | data_processing.py:16-20 | rewrites whose replacements are never longer than their patterns never lengthen the name |
| DataProcessing.RewritesOfAbsentPatterns | data_processing.py:16-20 | a name containing none of the five patterns passes the rewrites unchanged |
| DataProcessing.StandardizeOfficeName | data_processing.py:5-25 | a missing name becomes "Unknown"; a result never starts or ends with whitespace |
| DataProcessing.GenderVariantsAgree | data_processing.py:13-25 | the boys' and the girls' variant of an office name standardise to the same name |
| DataProcessing.BothSuffixesRemoved | data_processing.py:14-15 | a girls' suffix followed by a boys' suffix: both are removed, boys' first |
| DataProcessing.DetectCoordinateColumns | data_processing.py:33-41 | the last latitude column wins; the last column that is a longitude column and not a latitude column wins (the `elif`) |
| DataProcessing.ChosenColumns | data_processing.py:33-47 | when the columns include a latitude column and a longitude-only column, detected columns of those kinds are used; otherwise both manual picks |
| DataProcessing.UnquotedStripped | data_processing.py:55 | after removing quotes and stripping, no quote is left and no character is added |
| DataProcessing.CommasToDots | data_processing.py:58 | every comma becomes a dot and nothing else changes |
| DataProcessing.CleanCoordinate | data_processing.py:52-58 | the cleaned text has no quote and no comma, has no outer whitespace, and every character other than a dot comes from the cell |
| DataProcessing.CleanColumn | data_processing.py:50-61 | one parsed value per row; a missing cell or an unparsable text is NaN |
| DataProcessing.RowAt | data_processing.py:64-71 | a row survives exactly when both coordinates are present and non-zero; it keeps its cells, gets the parsed coordinates and the standardised office |
| DataProcessing.Survivors | data_processing.py:64-67 | the kept rows are surviving rows with their own row numbers, in table order |
| DataProcessing.SurvivorsValid | data_processing.py:64-67 | every kept school has both coordinates non-zero |
| DataProcessing.SurvivorsComplete | data_processing.py:64-67 | no row with both coordinates present and non-zero is dropped |
| DataProcessing.SurvivorLabel | analysis.py:41 | a kept school's label is its row's name cell (NaN for a short row) when the table has the name column, otherwise its row number |
| DataProcessing.LoadAndProcessData | data_processing.py:27-77 | the columns used are the detected ones, or both manual picks when detection misses one; None (the exception path) exactly when a column is not chosen or not in the table; otherwise the rows of those columns cleaned and filtered, with the office column exactly when the source column exists, and distinct index labels |
| Numbers.Min | analysis.py:93 | `min` is an element no larger than any other |
| Numbers.Max | analysis.py:94 | `max` is an element no smaller than any other |
| Numbers.SortAsc | map_utils.py:278 | `sort()` gives an ascending permutation |
| Numbers.SortedPick | map_utils.py:278-283 | the element read at position k of the sorted list is one of the distances, after all smaller positions and before all larger ones |
| Numbers.Median | geo_utils.py:68-69 | the median lies between the minimum and the maximum |
| Numbers.MedianMinimisesDeviation | geo_utils.py:63-69 | no value c has a smaller sum of absolute deviations than the median |
| Numbers.Mean | geo_utils.py:72-73 | the mean lies between the minimum and the maximum |
| Numbers.FirstMin | geo_utils.py:92-96 | the running minimum under `<` ends at the first position holding the minimum |
| Numbers.FirstMax | geo_utils.py:98-102 | the running maximum under `>` ends at the first position holding the maximum |
| Sequences.Unique | map_utils.py:141 | `unique()` lists every value exactly once, in order of first appearance |
| Sequences.UniqueInFirstAppearanceOrder | map_utils.py:139-142 | of two values listed by `unique()`, the one listed first appears first in the input |
| Sequences.IndicesOfExact | map_utils.py:93-96 | the positions holding a value are listed exactly once each, in increasing order |
| MapUtils.IdsWithAtIndices | map_utils.py:93-96 | an office's list holds the labels of the rows at exactly the positions IndicesOf gives for that office, in the same order |
| Sequences.LastIndexWhere | data_processing.py:35-41 | the last matching position, or none exactly when nothing matches |
| Text.TrimStart | data_processing.py:23 | `lstrip` removes exactly a whitespace prefix |
| Text.TrimEnd | data_processing.py:23 | `rstrip` removes exactly a whitespace suffix |
| Text.Strip | data_processing.py:23 | a stripped name neither starts nor ends with whitespace |
| Text.StripIsSlice | data_processing.py:23 | strip keeps a contiguous slice whose surroundings are all whitespace |
| Text.StripKeeps | data_processing.py:55 | strip adds no character |
| Text.ReplaceAbsent | data_processing.py:16-20 | replacing an absent pattern changes nothing |
| Text.ReplaceAll | data_processing.py:16-20 | a replacement no longer than the pattern never lengthens the text, and one as long keeps its length |
| Text.ReplaceLeftmost | data_processing.py:16-20 | the scan is leftmost-first: the text before the first occurrence is kept, that occurrence becomes the replacement, and the scan resumes after it |
| Text.ReplaceCharPointwise | data_processing.py:58 | replacing one character by another rewrites exactly the positions holding it |
| Text.Without | data_processing.py:55 | deleting a character removes every occurrence and keeps every other character |
| Text.ReplaceCharByNothing | data_processing.py:55 | replacing '"' by '' deletes every quote |
| Text.ReplaceIsSinglePass | data_processing.py:16 | replace is one left-to-right pass: "ببال" becomes "بال", still holding the pattern |
| Text.Lower | data_processing.py:36 | `lower()` keeps the length and maps exactly the ASCII capitals to small letters |
| Records.Points | analysis.py:33-35 | one point per school, in row order |
| Records.Lats | geo_utils.py:68-72 | the latitude column in row order |
| Records.Lngs | geo_utils.py:69-73 | the longitude column in row order |
| Records.OfficeNames | map_utils.py:141 | the office column in row order |
| MapUtils.PercentileIndex | map_utils.py:279-283 | an index is read only when there are at least two distances, and it is in bounds |
| MapUtils.PreCapRadius | map_utils.py:278-283 | max_dist with at most one distance, otherwise one of the distances |
| MapUtils.DisplayRadiusOf | map_utils.py:279-286 | the radius never exceeds 150 km, and is either the pre-cap radius or the cap |
| MapUtils.PreCapIsPercentile | map_utils.py:278-283 | with two or more distances the pre-cap radius is one of the distances, at the 95th (from 20 on) or 80th percentile position of the sorted list |
| MapUtils.FewDistancesUseMax | map_utils.py:283-286 | with at most one distance the radius is max_dist, capped at 150 |
| MapUtils.RadiusWithin | map_utils.py:266-286 | the radius never exceeds a bound that max_dist and every distance respect |
| MapUtils.DisplayRadius | map_utils.py:266-286 | the loop, the sort, the indexed read and the cap compute DisplayRadiusOf the distances from the centre |
| MapUtils.ColorTable | map_utils.py:136-143 | there is a colour exactly for each office in the frame |
| MapUtils.ColorsRoundRobin | map_utils.py:139-142 | the i-th distinct office in order of appearance gets palette colour i mod 13 |
| MapUtils.ColorsRepeatAfterPalette | map_utils.py:139-142 | the first 13 offices get 13 different colours, and the 14th shares the first office's colour |
| MapUtils.OfficeColors | map_utils.py:136-143 | the loop over `unique()` builds exactly the colour table |
| MapUtils.MarkerColor | map_utils.py:185-196 | the marker is blue or has a colour of the chosen mode's table |
| MapUtils.MarkerColorFallback | map_utils.py:185-196 | blue for an unknown mode, for a mode whose column the row lacks, and for an office without a colour |
| MapUtils.OfficeColoringFollowsTable | map_utils.py:187-188 | colouring by office gives each school its office's table colour |
| MapUtils.OfficeEntry | map_utils.py:219-244 | the entry records the school count and the method, with a radius of at most 150 km |
| MapUtils.EntryRadiusWithinFarthest | map_utils.py:222-244 | the stored radius and average never exceed the stored maximum distance, which is non-negative |
| MapUtils.ProcessOfficeLocation | map_utils.py:219-264 | stores the office's entry under its key and leaves every other key and the key order alone |
| MapUtils.GroupExact | map_utils.py:93-96 | an office's list holds the labels of exactly its rows, in row order |
| MapUtils.GroupComplete | map_utils.py:93-96 | every row of an office is in that office's group |
| MapUtils.GroupsPartition | map_utils.py:93-96 | a label is in an office's list exactly when its row belongs to that office |
| MapUtils.SelectGroup | map_utils.py:116 | `df_filtered.loc[office_schools[office]]` succeeds and gives exactly the office's rows |
| MapUtils.OfficeFilter | map_utils.py:25-26 | `isin` keeps exactly the rows of the selected offices and keeps labels distinct |
| MapUtils.MarkerColors | map_utils.py:100 | one marker colour per row, by the decision table |
| MapUtils.AddToGroup | map_utils.py:90-96 | appending row k's label under its office keeps the dictionary equal to the grouping of the first k + 1 rows, a new office added at the end of the key order |
| MapUtils.GroupAndColor | map_utils.py:89-106 | the loop's dictionary has one key per office in order of first appearance, each with its labels in row order, and the marker colour of every row |
| MapUtils.ShownOfficesSelected | map_utils.py:25-26 | after filtering, every office shown is a selected one |
| MapUtils.ListedOfficeHasRows | map_utils.py:116-118 | every grouped office has at least one school, so `len(office_df) > 0` always holds |
| MapUtils.Kept | map_utils.py:111-113 | the offices the loop does not skip |
| MapUtils.KeptAll | map_utils.py:111-113 | on filtered rows the skip never fires |
| MapUtils.OfficeLocations | map_utils.py:108-122 | one entry per office in key order, each computed from exactly that office's rows |
| MapUtils.CreateMap | map_utils.py:7-134 | `(None, None)` for an empty frame or an empty filter; a KeyError without the office column; otherwise the colour table, the marker colours, and one entry per shown office (none unless optimal offices are shown) |
| Legacy.LegacyFailsIffNoPositive | main.py:94-136 | on a non-empty frame the older routine fails exactly when no school is at a positive distance from the mean centre |
| Legacy.LegacyOptimalSpec | main.py:88-136 | an empty frame fails on `closest_school_idx`, a non-empty one can fail only on `farthest_school_idx`; a success names both schools, has a positive maximum and no method |
| Legacy.SingleSchoolFails | main.py:94-136 | a one-school office makes the older routine raise on `farthest_school_idx` |
| Legacy.CoincidentSchoolsFail | main.py:91-136 | over exact reals, so does an office whose schools all share one spot |
| Legacy.LegacyOptimalLocation | main.py:88-136 | the mean centre, the scans and the total; an error naming the first unbound index local, otherwise the current result under Haversine without the method |
| Legacy.LegacyDistanceMatrix | main.py:147-175 | as the current matrix with Haversine and no method attribute |
| Legacy.LegacySchoolsToOfficeDistances | main.py:573-595 | the same guard; Haversine to the school's own office for each school, without rounding |
| Legacy.LegacyProcessOffice | main.py:414-456 | a failing optimal location propagates and nothing is stored; otherwise the entry is the current one under Haversine without the method, and only that key changes |
| Legacy.LegacyDistanceStatistics | main.py:786-803 | nothing is shown for fewer than two schools; otherwise min, max, average and total of the strict upper triangle, as `extract_distance_statistics` computes them |

## Left out

- Floating point. Reals stand for doubles, so rounding and NaN and infinity propagation
  are not modelled. The only infinity modelled is the running minimum's `float('inf')`.
- Trigonometry (`sin`, `cos`, `atan2`, `sqrt`, `radians`) is a parameter. Its laws are
  assumed only through the `Lawful` precondition.
- `pd.read_csv`, `pd.to_numeric`, and the manual column choice through `st.selectbox`
  are parameters. So is the exception path's message (`st.error`).
- Drawing: tile layers, markers, popups, coverage circles, office markers and the layer
  control.
- The distance lines between selected schools, and to a selected school's office
  (map_utils.py:124-129): they only draw.
- The user interface in main.py and main-app.py: tabs, widgets, downloads and the
  histogram. app_config.py and ui_utils.py are not part of this model.
- Analysis.SchoolsToOfficeDistances: it does not model `round(distance, 2)`, because
  rounding is a floating-point operation. The column holds the unrounded distance.
- MapUtils.PercentileIndex: it computes `int(n * 0.95)` and `int(n * 0.8)` exactly, as
  `(95 * n) / 100` and `(8 * n) / 10`. The double rounding of the product is not modelled.
- MapUtils.DisplayRadius: `distances.sort()` is modelled by the `SortAsc` function on a
  sequence, not by an in-place sort.
- MapUtils.MarkerColor: colours are a datatype, not strings.
- MapUtils.CreateMap: it requires distinct index labels. LoadAndProcessData guarantees
  them, because it labels each row with its position. Frames with duplicate labels, where
  `.loc` would return several rows per label, are not modelled.
- DataProcessing.LoadAndProcessData: a pre-existing `standardized_office` column is not
  modelled; without the source column the office is "". The `latitude` and `longitude`
  columns the loader adds to each row's cells are not modelled either; the cleaned values
  are kept in the school's point instead.
- Text.Lower: only ASCII letters are lower-cased. Python's full Unicode case mapping is not
  modelled; the Arabic column names it is applied to have no case.
- Analysis.StatsConsistent: it does not state that the average times the count equals the
  total, which would be trivial over exact reals.
- Legacy.CoincidentSchoolsFail: it holds over exact reals only. In doubles the mean of
  equal values can differ from them in the last bit (the mean of three 0.1 is not 0.1), so
  schools sharing a spot can then be at a tiny positive distance from the centre. A single
  school fails in doubles too, which is why the finding cites Legacy.SingleSchoolFails.
- Analysis.Select: with duplicate index labels `.loc` returns every row carrying a label,
  while the model takes the first. LoadAndProcessData labels rows by position, so the frames
  it builds have distinct labels.
- Analysis.GenerateDistanceMatrix: for the same reason it is stated for one row per label.
- Legacy.LegacyProcessOffice: it models one iteration of main.py's office loop. The loop
  itself has the same skip and grouping as MapUtils.OfficeLocations.

## Findings

| source | as written | input that shows it | evidently intended | confidence | as-written member | corrected member |
|---|---|---|---|---|---|---|
| main.py:94-136 | `closest_school_idx`, `closest_school_coords`, `farthest_school_idx` and `farthest_school_coords` are never initialised, yet the return reads all of them; when no school is at a positive distance from the centre, `farthest_school_idx` is unbound and the call raises UnboundLocalError | an office with a single school | initialise the index and coordinate locals to None, as geo_utils.py:80-83 does, and report no farthest school | not executed | Legacy.SingleSchoolFails | Geo.SingleSchoolResult |
| geo_utils.py:63-67 | the docstring and comment say the median centre minimises the sum of Manhattan distances, but the longitude leg is weighted by the cosine of the mean latitude of the pair, which depends on the centre, so the coordinate-wise median need not minimise the total | schools at (20, 30) and (80, 130): the median centre (50, 80) is beaten by (80, 80), since cos 50 + cos 80 (about 0.82) is less than cos 35 + cos 65 (about 1.24) | the median is optimal for a fixed longitude weight, i.e. when the cosine does not vary with latitude; the claim should be stated as an approximation | not executed | Geo.MedianCenterNotOptimal | Geo.MedianCenterOptimal |
