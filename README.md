# VIIRS bow-tie resampling, modelled in Dafny

In a VIIRS M-band granule, neighbouring 16-detector scans overlap at the
edges of the swath (the bow-tie effect), so along a column the latitudes
are not in order. viirsresam reorders each column so that its rows follow
latitude. Pixels that the reordering moved are then re-estimated from
their new neighbours, and the result is written back in the original row
order.

This project models the core of that program:

- **`sort.h`**: the fixed reordering tables SORT_BREAK_POINTS, SORT_FIRST,
  SORT_MID and SORT_LAST.
  - Modules: `SortTables` (constants, their shape and inverse tables),
    `SortSources` (the inverse tables checked segment by segment),
    `Permutation` (permutation facts).
- **`resample.cc`**: the table-driven resampler.
  - `getsortingind` is `SortIndex`.
  - `resample_sort` / `resample_unsort` are `Permute`.
  - `geoapprox` is `GeoApprox`.
  - `linearinterp` / `interplon` are `InterpLon`.
  - `resample1d` / `resample2d` are `ResampleColumn`.
  - The entry point `resample_viirs` is `Resample`.
- **`resample_viirs.cc`**: the latitude-driven resampler.
  - `argsortlat` is `ArgSort`.
  - `avg3`, `avgfilter3`, `resample_interp` and `resample_viirs` are
    `LatitudeResample`.
- **`resample_geo.cc`**: the geodesic-distance variant (`GeoResample`).
  - Its `resample_viirs` resamples into a scratch image and then exits with
    status 3. It never writes the image back.
- **`main.cc`**: the driver (`Driver`, with the file-name helpers in
  `FileNames`).
  - Flag parsing and dispatch on file types.
  - The band check.
  - Fill values become missing values.
  - Results are merged back into 16-bit samples with clamping.
- **`viirsresam.cc`**: the destriping-parameter front end (`ViirsResam`).
  - The `-g` option and the derived GMODO geolocation file name.
  - The parameter table.
  - Band checks with their return codes.
  - Scaling and quantising of the band.

Shared modules:

- `Viirs` holds the constants and the validity test `isinvalid`.
- `Wrappers` holds `Option`.
- `RealArith` holds small lemmas about real arithmetic.

How the source's values are represented:

- Images and index grids are `array2`; the methods change them in place
  the way the C++ loops do.
- Each method is proved against a ghost function on `seq<seq<_>>`. The
  specification functions are `Permute.Gather`/`Scatter`,
  `ResampleColumn.Resampled2d`, `LatitudeResample.LatResampled`,
  `Resample.ResampledImage` and so on.
- Floating point is modelled as `real`. In the driver, a fill sample that
  the source turns into NaN is a missing value, `None`. The resamplers take
  plain `real` values with no NaN. For them an invalid sample is one outside
  [0, 350] K, as `isinvalid` defines it.
- The great-circle distance `geodist` and the weight `exp(-d²/res²)` are
  parameters: `dist: Distance` and `kernel: Kernel`. The only thing assumed
  about the kernel is that it is positive.

## Model

| member | source | states |
|---|---|---|
| SortTables.TablesAreWellFormed | sort.h:2-64 | the break-point table has 11 entries and each offset table has 16 detector rows of 11 segments |
| SortTables.BreakPointsPartitionHalfScan | sort.h:2-4 | the break points strictly increase from 5 to 1600 (half the scan width), so they cut the half scan into 11 segments |
| SortTables.CentralSegmentKeepsOrder | sort.h:7-64 | the last segment (the centre of the swath) has offset 0 for every detector in all three tables |
| SortTables.GranuleEdgesKeepOrder | sort.h:7-64 | detectors 0-7 of the first scan and detectors 8-15 of the last scan are never moved |
| SortTables.EdgeScansStayInside | sort.h:7-64 | a first-scan row plus its offset lands in rows 0..20; a last-scan row plus its offset lands in -5..15 (the negative case is the single-scan finding) |
| SortTables.MidOffsetsBounded | sort.h:27-44 | every SORT_MID offset lies in -11..11, so a middle-scan row reads only from the scans next to it |
| SortTables.MidResidues | sort.h:27-44 | for a segment, the 16 detector positions (d + SORT_MID[d][i]) mod 16 that the middle scans read from |
| SortTables.MidResiduesArePermutations | sort.h:27-44 | in every segment those positions are a permutation of 0..15, so each detector is read exactly once |
| SortTables.MidResiduesDistinct | sort.h:27-44 | the same for one segment, as a permutation |
| SortTables.MidSourceInverts | sort.h:27-44 | the explicit inverse table MID_SOURCE undoes the residue map of each segment |
| SortTables.MidSegment0Inverts | sort.h:27-44 | MID_SOURCE inverts the residues of segment 0 |
| SortTables.MidSegment1Inverts | sort.h:27-44 | MID_SOURCE inverts the residues of segment 1 |
| SortTables.MidSegment2Inverts | sort.h:27-44 | MID_SOURCE inverts the residues of segment 2 |
| SortTables.MidSegment3Inverts | sort.h:27-44 | MID_SOURCE inverts the residues of segment 3 |
| SortTables.MidSegment4Inverts | sort.h:27-44 | MID_SOURCE inverts the residues of segment 4 |
| SortTables.MidSegment5Inverts | sort.h:27-44 | MID_SOURCE inverts the residues of segment 5 |
| SortTables.MidSegment6Inverts | sort.h:27-44 | MID_SOURCE inverts the residues of segment 6 |
| SortTables.MidSegment7Inverts | sort.h:27-44 | MID_SOURCE inverts the residues of segment 7 |
| SortTables.MidSegment8Inverts | sort.h:27-44 | MID_SOURCE inverts the residues of segment 8 |
| SortTables.MidSegment9Inverts | sort.h:27-44 | MID_SOURCE inverts the residues of segment 9 |
| SortTables.MidSegment10Inverts | sort.h:27-44 | MID_SOURCE inverts the residues of segment 10 |
| SortTables.MidSource | sort.h:27-44 | the detector whose middle-scan entry in segment i lands on position r of a scan, one of the 16 detectors |
| SortTables.MidSourceOfEntry | sort.h:27-44 | MidSource of the position detector d reads in segment i is d again |
| SortSources.EdgeSources | sort.h:7-64 | in every segment the first-scan and last-scan offsets stay inside their scans and the inverse tables FIRST_SOURCE and LAST_SOURCE give back the detector; a last-scan target inside the first scan of a two-scan granule is no first-scan target |
| SortSources.MidAvoidsEdges | sort.h:7-64 | in every segment a middle-scan offset lies in -5..20, and one that reaches into the first or last scan lands on a row no edge-scan entry of that segment targets |
| SortSources.Segment0FirstSources | sort.h:7-24 | in segment 0 every first-scan row d + SORT_FIRST[d][0] lies in 0..20 and FIRST_SOURCE gives back d |
| SortSources.Segment0LastSources | sort.h:7-64 | in segment 0 every last-scan offset d + SORT_LAST[d][0] lies in -5..15 and LAST_SOURCE gives back d; one that lands in the first scan of a two-scan granule is no first-scan target |
| SortSources.Segment0MidAvoidsEdges | sort.h:7-64 | in segment 0 a middle-scan offset d + SORT_MID[d][0] lies in -5..20, and one that reaches into the first or last scan lands on a row no edge-scan entry targets |
| SortSources.Segment1FirstSources | sort.h:7-24 | in segment 1 every first-scan row d + SORT_FIRST[d][1] lies in 0..20 and FIRST_SOURCE gives back d |
| SortSources.Segment1LastSources | sort.h:7-64 | in segment 1 every last-scan offset d + SORT_LAST[d][1] lies in -5..15 and LAST_SOURCE gives back d; one that lands in the first scan of a two-scan granule is no first-scan target |
| SortSources.Segment1MidAvoidsEdges | sort.h:7-64 | in segment 1 a middle-scan offset d + SORT_MID[d][1] lies in -5..20, and one that reaches into the first or last scan lands on a row no edge-scan entry targets |
| SortSources.Segment2FirstSources | sort.h:7-24 | in segment 2 every first-scan row d + SORT_FIRST[d][2] lies in 0..20 and FIRST_SOURCE gives back d |
| SortSources.Segment2LastSources | sort.h:7-64 | in segment 2 every last-scan offset d + SORT_LAST[d][2] lies in -5..15 and LAST_SOURCE gives back d; one that lands in the first scan of a two-scan granule is no first-scan target |
| SortSources.Segment2MidAvoidsEdges | sort.h:7-64 | in segment 2 a middle-scan offset d + SORT_MID[d][2] lies in -5..20, and one that reaches into the first or last scan lands on a row no edge-scan entry targets |
| SortSources.Segment3FirstSources | sort.h:7-24 | in segment 3 every first-scan row d + SORT_FIRST[d][3] lies in 0..20 and FIRST_SOURCE gives back d |
| SortSources.Segment3LastSources | sort.h:7-64 | in segment 3 every last-scan offset d + SORT_LAST[d][3] lies in -5..15 and LAST_SOURCE gives back d; one that lands in the first scan of a two-scan granule is no first-scan target |
| SortSources.Segment3MidAvoidsEdges | sort.h:7-64 | in segment 3 a middle-scan offset d + SORT_MID[d][3] lies in -5..20, and one that reaches into the first or last scan lands on a row no edge-scan entry targets |
| SortSources.Segment4FirstSources | sort.h:7-24 | in segment 4 every first-scan row d + SORT_FIRST[d][4] lies in 0..20 and FIRST_SOURCE gives back d |
| SortSources.Segment4LastSources | sort.h:7-64 | in segment 4 every last-scan offset d + SORT_LAST[d][4] lies in -5..15 and LAST_SOURCE gives back d; one that lands in the first scan of a two-scan granule is no first-scan target |
| SortSources.Segment4MidAvoidsEdges | sort.h:7-64 | in segment 4 a middle-scan offset d + SORT_MID[d][4] lies in -5..20, and one that reaches into the first or last scan lands on a row no edge-scan entry targets |
| SortSources.Segment5FirstSources | sort.h:7-24 | in segment 5 every first-scan row d + SORT_FIRST[d][5] lies in 0..20 and FIRST_SOURCE gives back d |
| SortSources.Segment5LastSources | sort.h:7-64 | in segment 5 every last-scan offset d + SORT_LAST[d][5] lies in -5..15 and LAST_SOURCE gives back d; one that lands in the first scan of a two-scan granule is no first-scan target |
| SortSources.Segment5MidAvoidsEdges | sort.h:7-64 | in segment 5 a middle-scan offset d + SORT_MID[d][5] lies in -5..20, and one that reaches into the first or last scan lands on a row no edge-scan entry targets |
| SortSources.Segment6FirstSources | sort.h:7-24 | in segment 6 every first-scan row d + SORT_FIRST[d][6] lies in 0..20 and FIRST_SOURCE gives back d |
| SortSources.Segment6LastSources | sort.h:7-64 | in segment 6 every last-scan offset d + SORT_LAST[d][6] lies in -5..15 and LAST_SOURCE gives back d; one that lands in the first scan of a two-scan granule is no first-scan target |
| SortSources.Segment6MidAvoidsEdges | sort.h:7-64 | in segment 6 a middle-scan offset d + SORT_MID[d][6] lies in -5..20, and one that reaches into the first or last scan lands on a row no edge-scan entry targets |
| SortSources.Segment7FirstSources | sort.h:7-24 | in segment 7 every first-scan row d + SORT_FIRST[d][7] lies in 0..20 and FIRST_SOURCE gives back d |
| SortSources.Segment7LastSources | sort.h:7-64 | in segment 7 every last-scan offset d + SORT_LAST[d][7] lies in -5..15 and LAST_SOURCE gives back d; one that lands in the first scan of a two-scan granule is no first-scan target |
| SortSources.Segment7MidAvoidsEdges | sort.h:7-64 | in segment 7 a middle-scan offset d + SORT_MID[d][7] lies in -5..20, and one that reaches into the first or last scan lands on a row no edge-scan entry targets |
| SortSources.Segment8FirstSources | sort.h:7-24 | in segment 8 every first-scan row d + SORT_FIRST[d][8] lies in 0..20 and FIRST_SOURCE gives back d |
| SortSources.Segment8LastSources | sort.h:7-64 | in segment 8 every last-scan offset d + SORT_LAST[d][8] lies in -5..15 and LAST_SOURCE gives back d; one that lands in the first scan of a two-scan granule is no first-scan target |
| SortSources.Segment8MidAvoidsEdges | sort.h:7-64 | in segment 8 a middle-scan offset d + SORT_MID[d][8] lies in -5..20, and one that reaches into the first or last scan lands on a row no edge-scan entry targets |
| SortSources.Segment9FirstSources | sort.h:7-24 | in segment 9 every first-scan row d + SORT_FIRST[d][9] lies in 0..20 and FIRST_SOURCE gives back d |
| SortSources.Segment9LastSources | sort.h:7-64 | in segment 9 every last-scan offset d + SORT_LAST[d][9] lies in -5..15 and LAST_SOURCE gives back d; one that lands in the first scan of a two-scan granule is no first-scan target |
| SortSources.Segment9MidAvoidsEdges | sort.h:7-64 | in segment 9 a middle-scan offset d + SORT_MID[d][9] lies in -5..20, and one that reaches into the first or last scan lands on a row no edge-scan entry targets |
| SortSources.Segment10FirstSources | sort.h:7-24 | in segment 10 every first-scan row d + SORT_FIRST[d][10] lies in 0..20 and FIRST_SOURCE gives back d |
| SortSources.Segment10LastSources | sort.h:7-64 | in segment 10 every last-scan offset d + SORT_LAST[d][10] lies in -5..15 and LAST_SOURCE gives back d; one that lands in the first scan of a two-scan granule is no first-scan target |
| SortSources.Segment10MidAvoidsEdges | sort.h:7-64 | in segment 10 a middle-scan offset d + SORT_MID[d][10] lies in -5..20, and one that reaches into the first or last scan lands on a row no edge-scan entry targets |
| Permutation.DistinctBound | sort.h:27-44 | a sequence of distinct values below m has at most m elements (pigeonhole) |
| Permutation.PermutationCovers | resample.cc:149-172 | a permutation of 0..n-1 contains every index, so unsorting reaches every row |
| SortIndex.SegmentFrom | resample.cc:118-119 | the segment search started at i stops at the unique segment whose break points bracket x |
| SortIndex.Segment | resample.cc:116-119 | every column of the half scan lies in exactly the segment bracketed by its break points |
| SortIndex.SegmentUnique | resample.cc:116-119 | the bracketing segment is unique |
| SortIndex.Mirror | resample.cc:132-146 | a column of the right half is treated as its mirror image 3199 - x of the left half |
| SortIndex.FillColumn | resample.cc:120-128 | fills one column with row + offset from the table for that row's scan, and leaves the other columns unchanged |
| SortIndex.FillFirstScan | resample.cc:120-122 | rows 0..15 of the column become r + SORT_FIRST[r][i]; nothing else changes |
| SortIndex.FillMidScans | resample.cc:123-125 | each middle-scan row r becomes r + SORT_MID[r mod 16][i]; nothing else changes |
| SortIndex.FillLastScan | resample.cc:126-128 | the last 16 rows become r + SORT_LAST[r mod 16][i]; nothing else changes |
| SortIndex.FillLeftHalf | resample.cc:116-130 | every cell of columns 0..1599 holds SortIndexAt(height, y, x) |
| SortIndex.FillLeftSegment | resample.cc:117-129 | extends the filled prefix of the left half up to break point i |
| SortIndex.FillRightHalf | resample.cc:132-146 | every cell of columns 1600..3199 holds SortIndexAt, and the left half is untouched |
| SortIndex.FillRightSegment | resample.cc:133-145 | extends the filled suffix of the right half down to the mirror of break point i, leaving the left half alone |
| SortIndex.RightColumnSegment | resample.cc:132-146 | a right-half column filled by segment i has exactly the entries of its mirrored left column |
| SortIndex.GetSortingInd | resample.cc:111-147 | returns a height x 3200 grid whose every cell is SortIndexAt(height, y, x) |
| SortIndex.SortIndexMirrored | resample.cc:132-146 | the grid is symmetric about the centre of the scan |
| SortIndex.SortIndexInRange | resample.cc:111-147 | with at least two whole scans, every index names a row of the image |
| SortIndex.SortIndexIdentity | resample.cc:111-147 | rows 0-7, the last 8 rows and the central columns map to themselves |
| SortIndex.EdgeRowsKeepOrder | resample.cc:120-128 | the first 8 and the last 8 rows of a granule keep their order |
| SortIndex.CentralColumnsKeepOrder | resample.cc:116-146 | the columns of the central segment keep their order for any height |
| SortIndex.FillMirroredColumn | resample.cc:132-146 | a right-half column of segment i gets, row for row, SortIndexAt of that column; the other columns are unchanged |
| SortIndex.ColumnSourceInverts | resample.cc:116-130 | with at least two whole scans, the index of every row y of a segment-i column is a row of the image from which ColumnSource gives back y |
| SortIndex.LastScanInverts | resample.cc:126-128 | the same for a row of the last scan |
| SortIndex.MidScanInverts | resample.cc:123-125 | the same for a row of a middle scan |
| SortIndex.LastScanEntry | resample.cc:126-128 | a last-scan row y gets the start of the last scan plus the SORT_LAST offset of detector y mod 16 |
| SortIndex.MidScanEntry | resample.cc:123-125 | a middle-scan row y lies in scans 1..n-2 and gets the start of its scan plus the SORT_MID offset of detector y mod 16 |
| SortIndex.SourceInLastScan | resample.cc:126-128 | the target of a last-scan row lies in the image and ColumnSource sends it back to the row |
| SortIndex.SourceInMidScan | resample.cc:123-125 | the target of a middle-scan row lies in the image and ColumnSource sends it back to the row |
| SortIndex.ColumnEntriesDistinct | resample.cc:116-130 | two rows of a column get the same index exactly when they are the same row |
| Permute.GridsEqual | resample.cc:149-220 | two grids of the same shape with the same cells are equal |
| Permute.Cells | resample.cc:149-220 | the contents of an image as rows of cells, cell for cell |
| Permute.Column | resample.cc:149-220 | column c of a grid, row by row |
| Permute.ArrayColumn | resample.cc:156-169 | column j of an image is the column of its contents |
| Permute.Gather | resample.cc:197-220 | sorting: cell (y, x) of the result is cell (sind[y][x], x) of the image |
| Permute.LastWriter | resample.cc:156-169 | the last row y whose index sind[y][c] is r, or none |
| Permute.Scatter | resample.cc:149-172 | unsorting: row r of a column takes the source cell of the last row indexed r, or zero when no row is |
| Permute.OnlyWriter | resample.cc:149-172 | when every column is a permutation, no two rows write the same target |
| Permute.UnsortAfterSort | resample.cc:149-220 | for permutation columns, unsorting a sorted image gives back the image |
| Permute.SortAfterUnsort | resample.cc:149-220 | for permutation columns, sorting an unsorted image gives back the image |
| Permute.ResampleSort | resample.cc:197-220 | the new image has the image's shape, and dst[y, x] == img[sind[y, x], x] |
| Permute.ResampleUnsort | resample.cc:149-172 | the new image is Scatter of the image by the index grid (zeros where no row is sent) |
| Permute.ResampleSortTyped | resample.cc:222-243 | only the 8-bit, 32-bit float and 64-bit float types are sorted; any other type gives nothing |
| Permute.ResampleUnsortTyped | resample.cc:174-195 | only the 8-bit, 32-bit float and 64-bit float types are unsorted; any other type gives nothing |
| GeoApprox.ValidCount | resample.cc:274-302 | counts the valid samples; it is 0 exactly when all are invalid |
| GeoApprox.ValidCountOfThree | resample.cc:278-287 | the count over three samples is the number of valid ones among them |
| GeoApprox.WeightTotalPositive | resample.cc:289-301 | with positive weights the weight total is positive as soon as one sample is valid, so the division is defined |
| GeoApprox.WeightedSumAbove | resample.cc:289-301 | the weighted sum is at least lo times the weight total when every valid sample is at least lo |
| GeoApprox.WeightedSumBelow | resample.cc:289-301 | the weighted sum is at most hi times the weight total when every valid sample is at most hi |
| GeoApprox.MinValid | resample.cc:289-301 | the smallest valid sample: one of the valid samples, and no larger than any of them |
| GeoApprox.MaxValid | resample.cc:289-301 | the largest valid sample: one of the valid samples, and no smaller than any of them |
| GeoApprox.WeightedMeanBetween | resample.cc:289-301 | the weighted mean of the valid samples lies between their minimum and maximum |
| GeoApprox.EqualWeightsSum | resample.cc:289-301 | with equal weights c, the weighted sum is c times the sum of the valid samples |
| GeoApprox.ValidMassCount | resample.cc:289-301 | the valid indicator mass equals the valid count |
| GeoApprox.EqualWeightsTotal | resample.cc:289-301 | with equal weights c, the weight total is c times the valid count |
| GeoApprox.EqualWeightsMean | resample.cc:289-301 | with equal weights the result is the plain mean of the valid samples, whatever the weight |
| GeoApprox.InvalidSamplesIgnored | resample.cc:289-301 | changing invalid samples or their weights changes neither the weighted sum nor the weight total |
| GeoApprox.Weights | resample.cc:293-295 | weight i is the kernel of the distance from the target to sample i |
| GeoApprox.WeightsPositive | resample.cc:293-295 | with a positive kernel all three weights are positive |
| GeoApprox.ApproximationBetween | resample.cc:274-302 | no valid sample gives the deletion value; otherwise the result is valid and lies between the smallest and the largest valid sample |
| GeoApprox.ValidRange | resample.cc:13-17 | the valid minimum and maximum lie in [0, 350] K |
| GeoApprox.GeoApprox | resample.cc:274-302 | none valid gives delval; one valid gives that sample; two or more give the kernel-weighted mean of the valid ones, which lies between the valid minimum and maximum |
| InterpLon.LinearInterp | resample.cc:305-310 | passes through (x0, y0) and (x1, y1), and lies between y0 and y1 for x between x0 and x1 |
| InterpLon.LerpBetween | resample.cc:305-310 | the weighted form of the interpolation meets the end points and stays between them |
| InterpLon.FractionInUnit | resample.cc:305-310 | for x between x0 and x1, the fraction (x - x0)/(x1 - x0) lies in [0, 1] |
| InterpLon.ScaledWithin | resample.cc:305-310 | a fraction in [0, 1] of d lies between 0 and d |
| InterpLon.MidScanRef | resample.cc:343-357 | at a scan boundary the reference point sits half a row before the row |
| InterpLon.FirstAnchorFrom | resample.cc:327-339 | the first kept-order row at or after i: it is kept, and no row before it from i on is |
| InterpLon.FirstAnchor | resample.cc:327-339 | the first kept-order row of the column: it is kept, and no earlier row is |
| InterpLon.LastRef | resample.cc:341-373 | the last reference point at or before a row lies between the first kept row (less half a row) and that row |
| InterpLon.NextRef | resample.cc:341-373 | the next reference point from row i on lies no earlier than half a row before i |
| InterpLon.InterpColumn | resample.cc:321-379 | the interpolated longitude column has one value per row, each given by the row's rule |
| InterpLon.InterpBetweenReferences | resample.cc:359-372 | a reordered row lies strictly between its two reference points, and its longitude lies between theirs |
| InterpLon.LastRefSkips | resample.cc:341-373 | across rows that are neither kept nor scan boundaries the last reference does not change |
| InterpLon.NextRefSkips | resample.cc:341-373 | across such rows the next reference does not change |
| InterpLon.FillInterp | resample.cc:359-372 | each buffered row gets the line through the two references at its row number; other rows are unchanged |
| InterpLon.FillFlat | resample.cc:375-378 | each buffered row gets the given value; other rows are unchanged |
| InterpLon.Range | resample.cc:327-339 | the list of rows lo..hi-1 in order |
| InterpLon.InterpLon | resample.cc:321-379 | for a column with a kept row, dst becomes the interpolated longitude column |
| InterpLon.LeadingRows | resample.cc:327-339 | scans to the first kept row and buffers the rows before it |
| InterpLon.ScanRows | resample.cc:341-373 | every row before the last open run is filled by the column rule; the open run is buffered, and the last reference is known |
| InterpLon.Flush | resample.cc:359-372 | fills a closed run of buffered rows by the column rule and changes nothing else |
| ResampleColumn.FirstValid | resample.cc:398-404 | the first valid sample among the first n, or none |
| ResampleColumn.LastValid | resample.cc:415-421 | the last valid sample among the first n, or none |
| ResampleColumn.Resampled1d | resample.cc:392-422 | the resampled column has one value per row |
| ResampleColumn.EdgeRows | resample.cc:398-421 | row 0 is the first valid sample of rows 0..n-2 (kept as it was when there is none), and row n-1 is the last valid sample (kept when there is none) |
| ResampleColumn.ReorderedRowBetweenNeighbours | resample.cc:406-413 | a reordered interior row becomes delval when its three neighbours are invalid, and otherwise a valid value between their valid minimum and maximum |
| ResampleColumn.Resample1d | resample.cc:392-422 | rval becomes Resampled1d of the sorted column and of rval's old contents |
| ResampleColumn.FirstRow | resample.cc:398-404 | row 0 gets the first valid sample before the last row, or keeps its value; other rows are unchanged |
| ResampleColumn.InteriorRows | resample.cc:406-413 | each interior row gets its kept or interpolated value; rows 0 and n-1 are unchanged |
| ResampleColumn.LastRow | resample.cc:415-421 | the last row gets the last valid sample, or keeps its value; other rows are unchanged |
| ResampleColumn.AnchoredColumn | resample.cc:321-379 | a column with a kept-order row meets interplon's needs |
| ResampleColumn.ColumnBuffer | resample.cc:460-469 | the shared column buffer after j columns has one value per row |
| ResampleColumn.Resampled2d | resample.cc:433-500 | output column x is the shared buffer after column x has been resampled into it |
| ResampleColumn.ColumnBufferStep | resample.cc:471-498 | one step of the column loop: resample1d of column j over the interpolated longitudes, on top of the buffer left by column j-1 |
| ResampleColumn.KeptInteriorRow | resample.cc:406-409 | an interior row that sorting left in place keeps its sorted value in the resampled image |
| ResampleColumn.BuffersMakeResampled2d | resample.cc:471-498 | an image whose column x is the buffer after column x is Resampled2d |
| ResampleColumn.Resample2d | resample.cc:433-500 | returns an image of the source's shape equal to Resampled2d of the sorted inputs |
| ResampleColumn.ResampleColumns | resample.cc:471-498 | after the loop every cell (y, x) of dst holds the buffer after column x |
| ResampleColumn.Resolutions | resample.cc:448-457 | res[x] is the distance between the first two sorted rows of column x |
| ResampleColumn.ResampleColumnInto | resample.cc:471-498 | one pass of the loop: the buffer advances to column j+1 and columns 0..j of dst are filled |
| ResampleColumn.InterpolateColumnLon | resample.cc:471-498 | returns the interpolated longitude column j |
| ResampleColumn.ResampleColumnBuffer | resample.cc:471-498 | resample1d on the buffer advances it from column j to column j+1 |
| ResampleColumn.CopyColumnFilled | resample.cc:497 | copying the buffer into column j extends the filled columns to j+1 |
| ResampleColumn.CopyColumnInto | resample.cc:497 | column j of dst becomes the buffer; nothing else changes |
| Resample.SortGrid | resample.cc:111-147 | the index grid of a granule, cell for cell as getsortingind fills it |
| Resample.SingleScanGranuleAccepted | resample.cc:521-526 | the shape test as written accepts a 16-row (and a 0-row) granule, for which the grid sends row 0 of column 0 to row -5 |
| Resample.ShapeAcceptedNarrowsAsWritten | resample.cc:521-526 | the corrected test accepts exactly the shapes the test as written accepts that have at least two scans |
| Resample.SortGridUsable | resample.cc:537-546 | for an accepted height the grid indexes rows of the image and keeps row 0 of every column in place |
| Resample.SortGridColumnsArePermutations | resample.cc:537-549 | for an accepted height every column of the grid is a permutation of the rows, so sorting by it can be undone |
| Resample.SortGridRoundTrips | resample.cc:537-549 | resample_unsort after resample_sort by the grid gives back the image, and resample_sort after resample_unsort too |
| Resample.SortedResampled | resample.cc:537-546 | dst after resample2d of the sorted image, with the granule's shape |
| Resample.ResampledImage | resample.cc:537-552 | the image left behind, which has the granule's shape |
| Resample.ResampledImageResorts | resample.cc:537-549 | sorting the image left behind by the grid gives back dst: unsorting loses no resampled value |
| Resample.ResampledImageCell | resample.cc:537-552 | pixel (r, x) of the image left behind is dst at the one sorted position whose index is r, so no pixel keeps unsorting's zero; a row the grid keeps is its own position, and an interior one keeps its original pixel |
| Resample.KeptRowResampled | resample.cc:406-409 | an interior row the grid leaves in place keeps its pixel through resample2d of the sorted image |
| Resample.CopyInto | resample.cc:552 | img takes src's contents |
| Resample.ResampleViirs | resample.cc:511-555 | uses the corrected shape test of the first Findings row: succeeds exactly for whole-scan heights of at least two scans and width 3200, otherwise img is untouched; on success img becomes sort, resample2d, unsort of its old contents |
| ArgSort.Sgn | resample_viirs.cc:347-362 | the sign of v: 1, -1 or 0 exactly when v is positive, negative or zero |
| ArgSort.Steps | resample_viirs.cc:347-366 | the signs of the latitude steps one swath apart from row i on, each in -1..1, empty past the end |
| ArgSort.DirScan | resample_viirs.cc:347-351 | the direction loop stops at the first non-zero step, or past the end with direction 0 |
| ArgSort.ChangeScan | resample_viirs.cc:354-366 | the change loop stops at the first step that reverses the direction, or past the end |
| ArgSort.DirScanSteps | resample_viirs.cc:347-351 | the steps skipped by the direction loop are all 0, and the step it stops at is the direction |
| ArgSort.ChangeScanSteps | resample_viirs.cc:354-366 | the steps skipped by the change loop never reverse the direction, and the step it stops at does |
| ArgSort.ScanCuts | resample_viirs.cc:347-366 | the two loops cut the step sequence into zeros, steps that do not reverse, and the first reversal |
| ArgSort.ColumnPlan | resample_viirs.cc:368-396 | a pole split lies between half a swath and one swath before the end |
| ArgSort.WholeMeaning | resample_viirs.cc:368-375 | a column is sorted whole ascending iff no step decreases, and whole descending iff no step increases and some step decreases |
| ArgSort.SplitMeaning | resample_viirs.cc:377-396 | a split is made at the first reversal, after a rise (north pole) or a fall (south pole) |
| ArgSort.SortIdx | resample_viirs.cc:368-396 | sortIdx: returns a permutation of the column's indices that orders its values ascending or descending |
| ArgSort.Insert | resample_viirs.cc:368-396 | inserting a new index at its place keeps the index list distinct and ordered |
| ArgSort.SortsColumnPermutation | resample_viirs.cc:368-396 | a column of sort indices made for a plan is a permutation |
| ArgSort.WholeColumnSorts | resample_viirs.cc:368-375 | a distinct ordered index list is a whole-column sort |
| ArgSort.SplitColumnSorts | resample_viirs.cc:377-396 | the top part sorted one way plus the bottom part sorted the other way and shifted by split sort the column around the split |
| ArgSort.SplitColumnDistinct | resample_viirs.cc:377-396 | the joined top and shifted bottom indices are distinct |
| ArgSort.ArgSortedPermutes | resample_viirs.cc:319-398 | an argsorted grid indexes rows of the image, and each of its columns is a permutation |
| ArgSort.ScanDirection | resample_viirs.cc:347-351 | the direction loop computes DirScan from row off + swath |
| ArgSort.ScanChange | resample_viirs.cc:354-366 | the change loop computes ChangeScan |
| ArgSort.WriteColumn | resample_viirs.cc:368-396 | rows from..from+n-1 of column j get the values; everything else is unchanged |
| ArgSort.AddToColumn | resample_viirs.cc:393 | `botidx += split`: rows from the split on of column j increase by delta; everything else is unchanged |
| ArgSort.ArgSortColumn | resample_viirs.cc:343-396 | one column succeeds iff its pole does not conflict with the pole found so far; then the column is sorted by its plan and the other columns are unchanged |
| ArgSort.SortWholeColumn | resample_viirs.cc:368-375 | column j sorts the whole column in the given direction; the other columns are unchanged |
| ArgSort.SortSplitColumn | resample_viirs.cc:377-396 | column j sorts the top part and the bottom part in opposite directions around the split; the other columns are unchanged |
| ArgSort.ArgSortLat | resample_viirs.cc:319-398 | succeeds iff no two columns see opposite poles, and then returns an argsort of every column by its plan |
| ArgSort.ArgSortColumns | resample_viirs.cc:343-397 | on success every column is sorted; on failure some pair of columns conflicts |
| ArgSort.ConflictFails | resample_viirs.cc:357-362 | a conflict at one column rules out the absence of conflicts |
| ArgSort.AllColumnsDone | resample_viirs.cc:343-397 | once every column is done without conflict, the grid is an argsort |
| ArgSort.ColumnsDoneStep | resample_viirs.cc:343-397 | a column sorted by its plan whose pole does not conflict extends the done columns by one |
| ArgSort.ArgSortNext | resample_viirs.cc:343-397 | one loop pass either extends the progress to column j+1 or finds a conflict at column j |
| ArgSort.ColumnsMakeArgSorted | resample_viirs.cc:319-398 | a grid whose columns are the per-column sorts is an argsort |
| LatitudeResample.Avg3 | resample_viirs.cc:205-213 | a triple with an invalid member gives the middle value; the result is invalid iff the middle is; the result lies between the minimum and the maximum of the three |
| LatitudeResample.AvgFiltered | resample_viirs.cc:218-248 | keeps validity of every pixel; keeps the first row, the last row and every kept-order pixel; a reordered interior pixel lies between its column neighbours |
| LatitudeResample.CopyRow | resample_viirs.cc:233-234 | row y of dst becomes row y of src; other rows are unchanged |
| LatitudeResample.FilterRow | resample_viirs.cc:236-246 | row i of out becomes the filtered row; other rows are unchanged |
| LatitudeResample.AvgFilter3 | resample_viirs.cc:218-248 | returns a fresh image equal to AvgFiltered of the input |
| LatitudeResample.NextValid | resample_viirs.cc:273-295 | the first valid sample from row i on, or none |
| LatitudeResample.GapValue | resample_viirs.cc:282-289 | the source's gap formula equals the line through the two valid neighbours |
| LatitudeResample.GapValueIsLinear | resample_viirs.cc:282-289 | the formula lval + (rval - lval)(x - llat)/(rlat - llat) is linearinterp |
| LatitudeResample.InterpColumn | resample_viirs.cc:253-308 | valid pixels are kept, and an all-invalid column is unchanged |
| LatitudeResample.InterpGrid | resample_viirs.cc:253-308 | every column of the output is the column interpolation of image and latitude |
| LatitudeResample.RunLastValid | resample_viirs.cc:267-306 | inside a run of invalid rows the last valid row before the run does not change |
| LatitudeResample.RunNextValid | resample_viirs.cc:267-306 | inside a run of invalid rows the next valid row after the run does not change |
| LatitudeResample.InterpFillsColumn | resample_viirs.cc:253-308 | a column with one valid pixel and monotone distinct latitudes has no invalid pixel left after interpolation |
| LatitudeResample.FillRun | resample_viirs.cc:275-280 | the buffered rows of column j get the value; nothing else changes |
| LatitudeResample.InterpRun | resample_viirs.cc:282-289 | the buffered rows of column j get the gap value at their latitude; nothing else changes |
| LatitudeResample.InterpRow | resample_viirs.cc:273-298 | one row of the column loop keeps the run invariant |
| LatitudeResample.CloseRun | resample_viirs.cc:273-295 | a valid pixel closes the buffered run and keeps the run invariant |
| LatitudeResample.CloseFirstRun | resample_viirs.cc:275-280 | a run with no valid pixel before it is filled with the new valid value |
| LatitudeResample.CloseGapRun | resample_viirs.cc:282-289 | a run between two valid pixels is filled by interpolation in latitude |
| LatitudeResample.ClosedRun | resample_viirs.cc:273-295 | a closed run is what the column interpolation gives: the later value when there is no earlier valid pixel, the line through both otherwise |
| LatitudeResample.OpenRun | resample_viirs.cc:300-305 | a run still open at the end of the column takes the last valid value |
| LatitudeResample.InterpolateColumn | resample_viirs.cc:267-306 | column j of newimg becomes the column interpolation; other columns are unchanged |
| LatitudeResample.InterpolateRows | resample_viirs.cc:267-299 | after the row loop the run invariant holds for the whole column |
| LatitudeResample.CloneImage | resample_viirs.cc:263 | returns a fresh copy of the image |
| LatitudeResample.ResampleInterp | resample_viirs.cc:253-308 | returns a fresh image equal to InterpGrid of the sorted image and latitude |
| LatitudeResample.DistinctGapsDefined | resample_viirs.cc:282-289 | with distinct latitudes every gap formula divides by a non-zero difference |
| LatitudeResample.SortedGapsDefined | resample_viirs.cc:420-432 | after argsorting, the gaps of the filtered sorted image are defined |
| LatitudeResample.WholePlanSortedMonotone | resample_viirs.cc:368-374 | a column sorted whole (no pole) has monotone latitudes once sorted, so InterpFillsColumn applies to it |
| LatitudeResample.LatResampled | resample_viirs.cc:420-432 | the image after sort, filter, interpolation and unsort, with the granule's shape |
| LatitudeResample.UnsortedFrom | resample_viirs.cc:420-432 | unsorting puts in row r of a column the value of the one row whose index is r |
| LatitudeResample.LatResampledKeepsValid | resample_viirs.cc:409-434 | a valid pixel stays valid, and one the sort left in place keeps its value |
| LatitudeResample.ResampleViirs | resample_viirs.cc:409-434 | succeeds iff the image has rows and argsortlat finds no pole conflict, and leaves img untouched otherwise; on success img becomes LatResampled for the sort argsortlat chose |
| GeoResample.GeoApproxInvalidIff | resample_geo.cc:326-354 | the result is invalid exactly when all three samples are, and is -999 then |
| GeoResample.GeoColumnBuffer | resample_geo.cc:431-456 | the shared column buffer after j columns has one value per row |
| GeoResample.GeoResampled2d | resample_geo.cc:403-457 | the resampled image has the granule's shape |
| GeoResample.GeoColumnBufferStep | resample_geo.cc:439-456 | one column step is resample1d with the target longitude being the sorted longitude itself |
| GeoResample.GeoInteriorRow | resample_geo.cc:378-385 | a kept interior row keeps its value; a reordered one is geoapprox of its three neighbours at its own position, and is invalid iff all three are |
| GeoResample.GeoResample2d | resample_geo.cc:403-457 | returns an image of the source's shape equal to GeoResampled2d of the inputs |
| GeoResample.GeoColumns | resample_geo.cc:439-456 | after the loop every cell (y, x) holds the buffer after column x |
| GeoResample.GeoColumnInto | resample_geo.cc:439-456 | one pass: the buffer advances to j+1 and columns 0..j are filled |
| GeoResample.GeoColumnBuffered | resample_geo.cc:446-452 | resample1d advances the buffer from column j to column j+1 |
| GeoResample.GeoCopyColumnFilled | resample_geo.cc:455 | copying the buffer into column j extends the filled columns to j+1 |
| GeoResample.GeoResampledImage | resample_geo.cc:483-491 | the scratch result of sorting and resampling, with the granule's shape |
| GeoResample.GeoResampleViirs | resample_geo.cc:468-503 | exits with status 3 after a conflict-free argsort and aborts otherwise; the image it computes is never written back |
| Driver.Round | main.cc:567 | round: the nearest integer, with halfway cases away from zero |
| Driver.RoundInteger | main.cc:567 | rounding an integer gives it back |
| Driver.Clamp16 | main.cc:570-577 | an in-range integer is kept; the result is always 0..65535 |
| Driver.ClampNearest | main.cc:570-577 | the clamped value is the 16-bit value nearest to j |
| Driver.QuantiseScaled | main.cc:502-578 | quantising the physical value of a sample gives back the sample |
| Driver.PlanBand | main.cc:438-458 | bands outside 1..16 are rejected; M1-M11 resample reflectance, M12-M16 brightness temperature; every band except M13 is scaled |
| Driver.PlanOfFileName | main.cc:408-458 | a file named ...SVMnn... plans band nn |
| Driver.ToPhysical | main.cc:502-510 | each sample becomes missing when it is a fill value, and scale * val + offset otherwise |
| Driver.ToPhysicalFloat | main.cc:511-521 | each M13 sample becomes missing when it is a fill value, and stays as it is otherwise |
| Driver.MergeKeepsUntouched | main.cc:561-580 | a pixel the resampler left as it was goes back to the stored sample |
| Driver.MergeFloatKeepsUntouched | main.cc:585-593 | the same for band M13 |
| Driver.MergeFillsDeletionZone | main.cc:563-578 | a deletion-zone pixel that received a value is quantised, not kept |
| Driver.MergeBand | main.cc:561-580 | every pixel becomes the stored fill/missing value or the quantised and clamped resampled value |
| Driver.MergeBandFloat | main.cc:585-593 | every M13 pixel becomes the stored fill/missing value or the resampled value |
| Driver.ParseCommandLine | main.cc:630-690 | computes what main does: the flag loop, then the dispatch on the operands |
| Driver.ExtraFlags | main.cc:643-660 | any number of -x flags sets the extra output and leaves the operands to the dispatch |
| Driver.ExtraFlagsFrom | main.cc:643-659 | the flag loop consumes -x flags and keeps the rest |
| Driver.EndOfFlags | main.cc:656-657 | `--` ends the flags |
| Driver.BandRun | main.cc:679-688 | two operands that are not GMODO plus GMTCO run the band: the first is the geolocation file, the second the band file |
| FileNames.LastIndexOf | main.cc:89 | strrchr: the last position of c, or none |
| FileNames.FileBaseName | main.cc:86-94 | a suffix of the path with no '/', preceded by '/' unless it is the whole path |
| FileNames.BaseNameUnique | main.cc:86-94 | those three facts determine the base name |
| FileNames.BaseNameAfterDir | main.cc:86-94 | after a directory ending in '/', the name is the base name |
| FileNames.BaseNameOfJoin | main.cc:86-94 | dir/name has base name name |
| FileNames.PrefixesExclusive | main.cc:103-111 | no base name starts with two of the prefixes ACSPO_, GMODO_npp_ and GMTCO_npp_ |
| FileNames.GetFileType | main.cc:96-113 | the type is decided on the base name: L2P_GHRSST at offset 20 first, then the prefixes, otherwise unknown |
| FileNames.FileTypeIgnoresDirectory | main.cc:96-113 | the directory part never changes the type |
| FileNames.LastSvm | main.cc:412-418 | the last "SVM" at or before i, or none |
| FileNames.GetBandName | main.cc:408-420 | the band is the two digits after the last "SVM" that starts at least 6 characters from the end, or 0 |
| FileNames.TwoDigits | main.cc:415 | two decimal digits whose value is b |
| FileNames.BandNameOfFileName | main.cc:408-420 | the band read from ...SVMnn... is nn |
| FileNames.GeoFileName | viirsresam.cc:64-84 | the derived geolocation file name has the length of the band file name |
| FileNames.GeoFileNameParts | viirsresam.cc:67-84 | the directory is kept, and a base name longer than 10 characters has its first five replaced by GMODO |
| FileNames.GmodoBaseName | viirsresam.cc:67-84 | the new base name is GMODO followed by the rest of the old one |
| FileNames.GeoFileIsGmodo | viirsresam.cc:67-84 | for a band file whose base name carries _npp_ at offset 5, the derived name is a GMODO file |
| FileNames.DeriveGeoFile | viirsresam.cc:67-84 | the buffer holds the derived name |
| FileNames.OverwriteGmodo | viirsresam.cc:77-83 | the five characters at p become GMODO; the rest is unchanged |
| ViirsResam.ParseCommandLine | viirsresam.cc:33-84 | parses -g and the two operands, and returns the given geolocation file or the derived one |
| ViirsResam.GivenGeoFile | viirsresam.cc:45-66 | `-g g h5 param` runs with g as the geolocation file |
| ViirsResam.AcceptedFrom | viirsresam.cc:121-136 | reading stops at the first bad line or after 16 lines; every line before it is good |
| ViirsResam.ParamsIn | viirsresam.cc:121-136 | the parameters are recorded exactly for the bands listed in the lines read |
| ViirsResam.ParamsOfLastLine | viirsresam.cc:126-135 | a band listed twice keeps the parameters of its last line |
| ViirsResam.ReadParameterTable | viirsresam.cc:117-136 | isband is 1 for the listed bands, 0 for the cleared unlisted ones and the uninitialised value elsewhere; the parameters are those of the accepted lines |
| ViirsResam.RunChecks | viirsresam.cc:117-169 | with the first `cleared` isband entries cleared: -7 iff the band is outside 1..16; 0 iff it is in range and its isband entry is not 1; resample iff the entry is 1, with the parameters of its last accepted line if it is listed and the stale parameter values otherwise. With clearing as written (16 entries), an unlisted band 16 whose uninitialised entry is 1 is resampled with stale parameters; with the corrected clearing (17 entries, second Findings row), it resamples exactly the listed bands |
| ViirsResam.BandSixteenUncleared | viirsresam.cc:118-120 | as written, band 16 is never cleared, so an unlisted band 16 reads an uninitialised entry |
| ViirsResam.ClearedTableExact | viirsresam.cc:117-136 | with entries 0..16 cleared, the entry of a band 1..16 is 1 iff it is listed and 0 iff it is not |
| ViirsResam.Scaled | viirsresam.cc:256-267 | one physical value per sample |
| ViirsResam.Quantised | viirsresam.cc:294-313 | one quantised sample per value |
| ViirsResam.QuantiseAfterScale | viirsresam.cc:256-313 | quantising the scaled band gives back the band |
| ViirsResam.ScaleBand | viirsresam.cc:256-261 | img becomes the scaled band |
| ViirsResam.QuantiseBand | viirsresam.cc:294-313 | the buffer becomes the quantised image |

## Left out

- Floating point is modelled as `real`. Rounding of float/double
  arithmetic and float-to-double conversions are not modelled.
- The resamplers' inputs contain no NaN. In the source, main.cc:506-518
  turns every fill sample into NaN before resampling. `isinvalid`
  (resample.cc:13-17, resample_geo.cc:26-28) is false for NaN, so a NaN
  counts as a valid sample: it spreads NaN into the weighted mean of
  `geoapprox` (resample.cc:278-294), into the edge rows of `resample1d`
  (resample.cc:400, 417) and through `avg3` (resample_viirs.cc:208-212).
  Only `resample_interp` (resample_viirs.cc:271) treats NaN as invalid.
  The spreading of NaN from a fill pixel to its reordered neighbours is
  not modelled.
- `geodist` (the haversine formula) and `exp(-d²/res²)` are parameters
  `dist` and `kernel`. Only a positive kernel is assumed; the trigonometry
  is not modelled.
- I/O is not modelled: HDF5/NetCDF reads and writes, the parameter file,
  attributes, `printf`, `dumpmat`/`dumpfloat` debug dumps, memory
  allocation and its failure paths. File contents are parameters of the
  operations. `eprintf` and `exit` become a `false` result or an exit value.
- `getadjustedsortingind`, `reorder_ghrsst`, `reorder_acspo`, `run_tcgeo`,
  `sortlatlon` and `create_viirs` are not part of this model. The dispatch
  reaches them as actions of `Driver.Command`.
- main.cc calls `resample_viirs` with a `sortoutput` argument that does not
  match the declaration in resample.cc. The model follows the resample.cc
  definition, and `sortoutput` (always true) is not modelled.
- The sorting of the original band in main.cc is not modelled. main.cc
  sorts the 16-bit band (main.cc:547) and the 32-bit float band M13
  (main.cc:554) by the grid of `getadjustedsortingind` (main.cc:540), and
  never calls `resample_unsort`. The `resample_sort` of resample.cc
  (resample.cc:224-243) is `static` and has no 16-bit case: for one it
  reports an unsupported type, as Permute.ResampleSortTyped gives nothing.
  main.cc's calls therefore go to a `resample_sort` that is not part of this
  model. No Driver member calls a `Permute` method: Driver.Merged,
  Driver.MergedFloat, Driver.MergeBand and Driver.MergeBandFloat take the
  sorted original band as an input.
- The fill values `isushortfill`/`isfloatfill` are an abstract set
  `fills`.
- The `min`/`max` parameters of `resample_viirs` are unused in the source
  and are not modelled.
- ArgSort.SortIdx: OpenCV's `sortIdx` is modelled as an insertion sort
  with the same contract (a permutation that orders the column). The order
  of equal values is not modelled.
- ArgSort.ArgSortLat requires a swath size of at least 2, which the source
  asserts.
- SortIndex.GetSortingInd requires at least 16 rows. A shorter image
  makes the source write outside the matrix.
- InterpLon.InterpLon requires a kept-order row in the column. Without
  one, `interplon` reads `slon[n]`, past the end of the column.
- LatitudeResample.ResampleViirs requires the latitudes of every column to
  be distinct. The exact condition is `GapsDefined` on each sorted and
  filtered column: the two valid pixels on either side of each gap differ
  in latitude. The source divides by their latitude difference
  (resample_viirs.cc:287-288); when it is zero, float division gives inf or
  NaN rather than failing. `DistinctLatitudes` is a simpler sufficient
  condition; `DistinctGapsDefined` and `SortedGapsDefined` show that it
  implies `GapsDefined`.
- LatitudeResample.AvgFilter3 requires at least one row. `avgfilter3`
  copies rows 0 and rows-1 unconditionally.
- GeoResample.GeoResampleViirs requires at least two rows, because the
  resolution uses the first two sorted rows.
- Driver.Quantise, Driver.QuantiseScaled, Driver.Merged,
  Driver.MergeKeepsUntouched, Driver.MergeFillsDeletionZone,
  Driver.MergeBand, ViirsResam.Quantised, ViirsResam.QuantiseAfterScale and
  ViirsResam.QuantiseBand require `scale != 0`, since the source divides by
  `scale`.
- Driver.Quantise: the source casts the quotient to `int` (main.cc:567)
  before clamping. Its behaviour is undefined when the quotient is outside
  the range of `int`. The model clamps an unbounded integer instead.
- Resample.ResampleViirs follows the corrected shape test of the first
  Findings row. It rejects the 0-row and 16-row granules that
  resample.cc:521-526 accepts and then indexes outside the image.
- ViirsResam.RunChecks inherits the gap of ReadParameterTable: a failing
  line's partial writes to the parameter arrays are not recorded.
- FileNames.GetBandName: file names are taken to be ASCII. The source
  computes `h5file[i+3]-'0'` on a signed `char`, so a byte of 128 or more
  gives a negative digit (for example "SVMC" followed by byte 0x80 reads
  as band 14). The model's `c - '0'` on code points does not reproduce
  that.
- FileNames.DeriveGeoFile: the fixed `geofile[1024]` buffer and the
  overflow of longer names are not modelled.
- ViirsResam.ReadParameterTable: a line that fails after its band number
  has been read can have written some of its parameters already. The model
  records a line's parameters only when all seven are read.

## Findings

| source | as written | input that shows it | evidently intended | confidence | as-written member | corrected member |
|---|---|---|---|---|---|---|
| resample.cc:521-526 | the shape test accepts any height that is a multiple of 16 with width 3200 | a one-scan granule (ny = 16, nx = 3200): getsortingind gives row 0 of column 0 the index -5, outside the image (ny = 0 also passes) | accept only granules of at least two whole scans, where every index is a row of the image | not executed | Resample.SingleScanGranuleAccepted | Resample.ShapeAcceptedNarrowsAsWritten |
| viirsresam.cc:118-120 | isband is cleared for indices 0..15 only, but bands run 1..16 and isband[16] is read | a parameter file that does not list band 16, with an SVM16 band file: the band check reads an uninitialised isband[16] | clear indices 0..16, so an unlisted band is reported as having no parameters | not executed | ViirsResam.BandSixteenUncleared | ViirsResam.ClearedTableExact |
