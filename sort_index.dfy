/**
 * The image of latitude sorting indices (resample.cc, getsortingind): for
 * every pixel of a granule of the given height, the row whose pixel moves
 * into it when the granule is put in latitude order, column by column.
 */
module SortIndex {
  import opened Viirs
  import opened SortTables
  import opened SortSources

  /** Half of a scan line; the right half mirrors the left. */
  const HALF_WIDTH: int := VIIRS_WIDTH / 2

  /** The first segment whose break point lies beyond column x of the left half. */
  function SegmentFrom(x: int, i: int): (s: int)
    requires 0 <= x < HALF_WIDTH && 0 <= i < NSEGMENTS
    requires i == 0 || SORT_BREAK_POINTS[i - 1] <= x
    ensures i <= s < NSEGMENTS
    ensures x < SORT_BREAK_POINTS[s] && (s == 0 || SORT_BREAK_POINTS[s - 1] <= x)
    decreases NSEGMENTS - i
  {
    if x < SORT_BREAK_POINTS[i] || i == NSEGMENTS - 1 then i else SegmentFrom(x, i + 1)
  }

  /**
   * The segment of column x of the left half: the unique i with
   * SORT_BREAK_POINTS[i-1] <= x < SORT_BREAK_POINTS[i] (no lower bound for i == 0).
   */
  function Segment(x: int): (s: int)
    requires 0 <= x < HALF_WIDTH
    ensures 0 <= s < NSEGMENTS
    ensures x < SORT_BREAK_POINTS[s] && (s == 0 || SORT_BREAK_POINTS[s - 1] <= x)
  {
    SegmentFrom(x, 0)
  }

  /** Any index bracketing x between consecutive break points is x's segment. */
  lemma SegmentUnique(x: int, i: int)
    requires 0 <= x < HALF_WIDTH && 0 <= i < NSEGMENTS
    requires x < SORT_BREAK_POINTS[i] && (i == 0 || SORT_BREAK_POINTS[i - 1] <= x)
    ensures Segment(x) == i
  {
    BreakPointsPartitionHalfScan();
  }

  /** Column x folded onto the left half of the scan line. */
  function Mirror(x: int): (m: int)
    requires 0 <= x < VIIRS_WIDTH
    ensures 0 <= m < HALF_WIDTH
    ensures m == x || m == VIIRS_WIDTH - 1 - x
  {
    if x < HALF_WIDTH then x else VIIRS_WIDTH - 1 - x
  }

  /**
   * The sort index of row y in a column of segment i, in a granule of the
   * given height: the last-scan table wins over the others, then the
   * middle-scan table, then the first-scan table, because the source fills
   * the three bands in that order and later writes replace earlier ones.
   */
  function ColumnEntry(height: int, y: int, i: int): int
    requires 0 <= y < height && 0 <= i < NSEGMENTS
  {
    if y >= height - NDETECTORS then y + SORT_LAST[y % NDETECTORS][i]
    else if y >= NDETECTORS then y + SORT_MID[y % NDETECTORS][i]
    else y + SORT_FIRST[y][i]
  }

  /** The sort index at row y, column x. */
  function SortIndexAt(height: int, y: int, x: int): int
    requires 0 <= y < height && 0 <= x < VIIRS_WIDTH
  {
    ColumnEntry(height, y, Segment(Mirror(x)))
  }

  /**
   * Fills column x of sind with the entries of segment i: the first scan,
   * the middle scans and the last scan, in that order.
   */
  method FillColumn(sind: array2<int>, x: int, i: int)
    requires sind.Length0 >= NDETECTORS && 0 <= x < sind.Length1 && 0 <= i < NSEGMENTS
    modifies sind
    ensures forall y :: 0 <= y < sind.Length0 ==> sind[y, x] == ColumnEntry(sind.Length0, y, i)
    ensures forall y, c :: 0 <= y < sind.Length0 && 0 <= c < sind.Length1 && c != x ==> sind[y, c] == old(sind[y, c])
  {
    var height := sind.Length0;
    FillFirstScan(sind, x, i);
    FillMidScans(sind, x, i);
    FillLastScan(sind, x, i);
    forall y | 0 <= y < height ensures sind[y, x] == ColumnEntry(height, y, i) {
      if y < height - NDETECTORS && y >= NDETECTORS {
        assert sind[y, x] == y + SORT_MID[y % NDETECTORS][i];
      }
    }
  }

  /** Rows 0 .. NDETECTORS-1 of column x get the first-scan entries of segment i. */
  method FillFirstScan(sind: array2<int>, x: int, i: int)
    requires sind.Length0 >= NDETECTORS && 0 <= x < sind.Length1 && 0 <= i < NSEGMENTS
    modifies sind
    ensures forall r :: 0 <= r < NDETECTORS ==> sind[r, x] == r + SORT_FIRST[r][i]
    ensures forall r, c :: 0 <= r < sind.Length0 && 0 <= c < sind.Length1 && (c != x || r >= NDETECTORS) ==>
      sind[r, c] == old(sind[r, c])
  {
    for y := 0 to NDETECTORS
      invariant forall r :: 0 <= r < y ==> sind[r, x] == r + SORT_FIRST[r][i]
      invariant forall r, c :: 0 <= r < sind.Length0 && 0 <= c < sind.Length1 && (c != x || r >= y) ==>
        sind[r, c] == old(sind[r, c])
    {
      sind[y, x] := y + SORT_FIRST[y][i];
    }
  }

  /** The rows of the middle scans of column x get the middle-scan entries of segment i. */
  method FillMidScans(sind: array2<int>, x: int, i: int)
    requires 0 <= x < sind.Length1 && 0 <= i < NSEGMENTS
    modifies sind
    ensures forall r :: NDETECTORS <= r < sind.Length0 - NDETECTORS ==> sind[r, x] == r + SORT_MID[r % NDETECTORS][i]
    ensures forall r, c :: 0 <= r < sind.Length0 && 0 <= c < sind.Length1 && (c != x || r < NDETECTORS || r >= sind.Length0 - NDETECTORS) ==>
      sind[r, c] == old(sind[r, c])
  {
    var y := NDETECTORS;
    while y < sind.Length0 - NDETECTORS
      invariant NDETECTORS <= y && (y <= sind.Length0 - NDETECTORS || y == NDETECTORS)
      invariant forall r :: NDETECTORS <= r < y ==> sind[r, x] == r + SORT_MID[r % NDETECTORS][i]
      invariant forall r, c :: 0 <= r < sind.Length0 && 0 <= c < sind.Length1 && (c != x || r < NDETECTORS || r >= y) ==>
        sind[r, c] == old(sind[r, c])
    {
      sind[y, x] := y + SORT_MID[y % NDETECTORS][i];
      y := y + 1;
    }
  }

  /** The rows of the last scan of column x get the last-scan entries of segment i. */
  method FillLastScan(sind: array2<int>, x: int, i: int)
    requires sind.Length0 >= NDETECTORS && 0 <= x < sind.Length1 && 0 <= i < NSEGMENTS
    modifies sind
    ensures forall r :: sind.Length0 - NDETECTORS <= r < sind.Length0 ==> sind[r, x] == r + SORT_LAST[r % NDETECTORS][i]
    ensures forall r, c :: 0 <= r < sind.Length0 && 0 <= c < sind.Length1 && (c != x || r < sind.Length0 - NDETECTORS) ==>
      sind[r, c] == old(sind[r, c])
  {
    for y := sind.Length0 - NDETECTORS to sind.Length0
      invariant forall r :: sind.Length0 - NDETECTORS <= r < y ==> sind[r, x] == r + SORT_LAST[r % NDETECTORS][i]
      invariant forall r, c :: 0 <= r < sind.Length0 && 0 <= c < sind.Length1 && (c != x || r < sind.Length0 - NDETECTORS || r >= y) ==>
        sind[r, c] == old(sind[r, c])
    {
      sind[y, x] := y + SORT_LAST[y % NDETECTORS][i];
    }
  }

  /** The first loop of the source: columns 0 .. HALF_WIDTH-1, segment by segment. */
  method FillLeftHalf(sind: array2<int>)
    requires sind.Length0 >= NDETECTORS && sind.Length1 == VIIRS_WIDTH
    modifies sind
    ensures forall y, c :: 0 <= y < sind.Length0 && 0 <= c < HALF_WIDTH ==> sind[y, c] == SortIndexAt(sind.Length0, y, c)
  {
    var height := sind.Length0;
    BreakPointsPartitionHalfScan();
    var x := 0;
    for i := 0 to NSEGMENTS
      invariant x == if i == 0 then 0 else SORT_BREAK_POINTS[i - 1]
      invariant forall y, c :: 0 <= y < height && 0 <= c < x ==> sind[y, c] == SortIndexAt(height, y, c)
    {
      x := FillLeftSegment(sind, i, x);
    }
  }

  /** Columns x .. SORT_BREAK_POINTS[i]-1 of the left half, which form segment i. */
  method FillLeftSegment(sind: array2<int>, i: int, x0: int) returns (x: int)
    requires sind.Length0 >= NDETECTORS && sind.Length1 == VIIRS_WIDTH && 0 <= i < NSEGMENTS
    requires x0 == if i == 0 then 0 else SORT_BREAK_POINTS[i - 1]
    requires forall y, c :: 0 <= y < sind.Length0 && 0 <= c < x0 ==> sind[y, c] == SortIndexAt(sind.Length0, y, c)
    modifies sind
    ensures x == SORT_BREAK_POINTS[i]
    ensures forall y, c :: 0 <= y < sind.Length0 && 0 <= c < x ==> sind[y, c] == SortIndexAt(sind.Length0, y, c)
  {
    BreakPointsPartitionHalfScan();
    var height := sind.Length0;
    x := x0;
    while x < SORT_BREAK_POINTS[i]
      invariant x0 <= x <= SORT_BREAK_POINTS[i]
      invariant forall y, c :: 0 <= y < height && 0 <= c < x ==> sind[y, c] == SortIndexAt(height, y, c)
    {
      SegmentUnique(x, i);
      FillColumn(sind, x, i);
      assert forall y :: 0 <= y < height ==> sind[y, x] == SortIndexAt(height, y, x);
      x := x + 1;
    }
  }

  /**
   * The second loop of the source: columns VIIRS_WIDTH-1 down to HALF_WIDTH,
   * where segment i covers the mirror images of the columns of segment i.
   */
  method FillRightHalf(sind: array2<int>)
    requires sind.Length0 >= NDETECTORS && sind.Length1 == VIIRS_WIDTH
    modifies sind
    ensures forall y, c :: 0 <= y < sind.Length0 && HALF_WIDTH <= c < VIIRS_WIDTH ==> sind[y, c] == SortIndexAt(sind.Length0, y, c)
    ensures forall y, c :: 0 <= y < sind.Length0 && 0 <= c < HALF_WIDTH ==> sind[y, c] == old(sind[y, c])
  {
    var height := sind.Length0;
    BreakPointsPartitionHalfScan();
    var x := VIIRS_WIDTH - 1;
    for i := 0 to NSEGMENTS
      invariant x == VIIRS_WIDTH - 1 - (if i == 0 then 0 else SORT_BREAK_POINTS[i - 1])
      invariant forall y, c :: 0 <= y < height && x < c < VIIRS_WIDTH ==> sind[y, c] == SortIndexAt(height, y, c)
      invariant forall y, c :: 0 <= y < height && 0 <= c < HALF_WIDTH ==> sind[y, c] == old(sind[y, c])
    {
      x := FillRightSegment(sind, i, x);
    }
  }

  /** Columns x down to VIIRS_WIDTH-SORT_BREAK_POINTS[i], the mirror image of segment i. */
  method FillRightSegment(sind: array2<int>, i: int, x0: int) returns (x: int)
    requires sind.Length0 >= NDETECTORS && sind.Length1 == VIIRS_WIDTH && 0 <= i < NSEGMENTS
    requires x0 == VIIRS_WIDTH - 1 - (if i == 0 then 0 else SORT_BREAK_POINTS[i - 1])
    requires forall y, c :: 0 <= y < sind.Length0 && x0 < c < VIIRS_WIDTH ==> sind[y, c] == SortIndexAt(sind.Length0, y, c)
    modifies sind
    ensures x == VIIRS_WIDTH - 1 - SORT_BREAK_POINTS[i]
    ensures forall y, c :: 0 <= y < sind.Length0 && x < c < VIIRS_WIDTH ==> sind[y, c] == SortIndexAt(sind.Length0, y, c)
    ensures forall y, c :: 0 <= y < sind.Length0 && 0 <= c < HALF_WIDTH ==> sind[y, c] == old(sind[y, c])
  {
    BreakPointsPartitionHalfScan();
    var height := sind.Length0;
    var xe := VIIRS_WIDTH - SORT_BREAK_POINTS[i];
    x := x0;
    while x >= xe
      invariant xe - 1 <= x <= x0
      invariant forall y, c :: 0 <= y < height && x < c < VIIRS_WIDTH ==> sind[y, c] == SortIndexAt(height, y, c)
      invariant forall y, c :: 0 <= y < height && 0 <= c < HALF_WIDTH ==> sind[y, c] == old(sind[y, c])
    {
      FillMirroredColumn(sind, x, i);
      x := x - 1;
    }
  }

  /** One column of the right half, within the mirror image of segment i. */
  method FillMirroredColumn(sind: array2<int>, x: int, i: int)
    requires sind.Length0 >= NDETECTORS && sind.Length1 == VIIRS_WIDTH && 0 <= i < NSEGMENTS
    requires VIIRS_WIDTH - SORT_BREAK_POINTS[i] <= x <= VIIRS_WIDTH - 1 - (if i == 0 then 0 else SORT_BREAK_POINTS[i - 1])
    modifies sind
    ensures HALF_WIDTH <= x
    ensures forall y :: 0 <= y < sind.Length0 ==> sind[y, x] == SortIndexAt(sind.Length0, y, x)
    ensures forall y, c :: 0 <= y < sind.Length0 && 0 <= c < sind.Length1 && c != x ==> sind[y, c] == old(sind[y, c])
  {
    RightColumnSegment(sind.Length0, x, i);
    FillColumn(sind, x, i);
  }

  /** A column of the right half within the mirror image of segment i takes the entries of segment i. */
  lemma RightColumnSegment(height: int, x: int, i: int)
    requires 0 <= i < NSEGMENTS
    requires VIIRS_WIDTH - SORT_BREAK_POINTS[i] <= x <= VIIRS_WIDTH - 1 - (if i == 0 then 0 else SORT_BREAK_POINTS[i - 1])
    ensures HALF_WIDTH <= x < VIIRS_WIDTH
    ensures forall y :: 0 <= y < height ==> SortIndexAt(height, y, x) == ColumnEntry(height, y, i)
  {
    BreakPointsPartitionHalfScan();
    assert HALF_WIDTH <= x && Mirror(x) == VIIRS_WIDTH - 1 - x;
    SegmentUnique(VIIRS_WIDTH - 1 - x, i);
  }

  /**
   * Builds the sort-index image of a granule: every column gets, row by row,
   * the entry of its segment, the right half mirroring the left.
   * The source writes the 16 rows of the first scan unconditionally, so a
   * granule shorter than one scan is outside what it handles.
   */
  method GetSortingInd(height: int) returns (sind: array2<int>)
    requires height >= NDETECTORS
    ensures sind.Length0 == height && sind.Length1 == VIIRS_WIDTH
    ensures forall y, x :: 0 <= y < height && 0 <= x < VIIRS_WIDTH ==> sind[y, x] == SortIndexAt(height, y, x)
  {
    sind := new int[height, VIIRS_WIDTH]((y, x) => 0);
    FillLeftHalf(sind);
    FillRightHalf(sind);
  }

  /** A granule height the resampler is meant for: whole scans, at least two of them. */
  predicate WholeScans(height: int)
  {
    height >= 2 * NDETECTORS && height % NDETECTORS == 0
  }

  /** Columns x and VIIRS_WIDTH-1-x have the same sort indices. */
  lemma SortIndexMirrored(height: int, y: int, x: int)
    requires 0 <= y < height && 0 <= x < VIIRS_WIDTH
    ensures SortIndexAt(height, y, x) == SortIndexAt(height, y, VIIRS_WIDTH - 1 - x)
  {
  }

  /**
   * On a granule of whole scans, at least two, every sort index names a row
   * of the granule, so sorting and unsorting never read or write outside it.
   */
  lemma SortIndexInRange(height: int, y: int, x: int)
    requires WholeScans(height)
    requires 0 <= y < height && 0 <= x < VIIRS_WIDTH
    ensures 0 <= SortIndexAt(height, y, x) < height
  {
    EdgeScansStayInside();
    MidOffsetsBounded();
    if y >= height - NDETECTORS {
      assert y % NDETECTORS == y - (height - NDETECTORS);
    }
  }

  /**
   * The rows that sorting leaves in place on a granule of whole scans: the
   * top half of the first scan, the bottom half of the last scan, and every
   * row of the central columns (segment NSEGMENTS-1 and its mirror image).
   * In particular row 0 is always in place.
   */
  lemma SortIndexIdentity(height: int, y: int, x: int)
    requires WholeScans(height)
    requires 0 <= y < height && 0 <= x < VIIRS_WIDTH
    requires y < NDETECTORS / 2 || y >= height - NDETECTORS / 2
      || SORT_BREAK_POINTS[NSEGMENTS - 2] <= x < VIIRS_WIDTH - SORT_BREAK_POINTS[NSEGMENTS - 2]
    ensures SortIndexAt(height, y, x) == y
  {
    if y < NDETECTORS / 2 || y >= height - NDETECTORS / 2 {
      EdgeRowsKeepOrder(height, y, x);
    } else {
      CentralColumnsKeepOrder(height, y, x);
    }
  }

  /** The top half of the first scan and the bottom half of the last scan stay in place. */
  lemma EdgeRowsKeepOrder(height: int, y: int, x: int)
    requires WholeScans(height)
    requires 0 <= y < height && 0 <= x < VIIRS_WIDTH
    requires y < NDETECTORS / 2 || y >= height - NDETECTORS / 2
    ensures SortIndexAt(height, y, x) == y
  {
    GranuleEdgesKeepOrder();
    var i := Segment(Mirror(x));
    if y >= height - NDETECTORS {
      assert y % NDETECTORS == y - (height - NDETECTORS);
      assert SORT_LAST[y % NDETECTORS][i] == 0;
    } else {
      assert SORT_FIRST[y][i] == 0;
    }
  }

  /** Every row of the central columns stays in place. */
  lemma CentralColumnsKeepOrder(height: int, y: int, x: int)
    requires 0 <= y < height
    requires SORT_BREAK_POINTS[NSEGMENTS - 2] <= x < VIIRS_WIDTH - SORT_BREAK_POINTS[NSEGMENTS - 2]
    ensures SortIndexAt(height, y, x) == y
  {
    BreakPointsPartitionHalfScan();
    CentralSegmentKeepsOrder();
    SegmentUnique(Mirror(x), NSEGMENTS - 1);
    assert 0 <= y % NDETECTORS < NDETECTORS;
  }

  /**
   * The row whose entry is t in a column of segment i, on a granule of
   * whole scans: a first-scan row when the first scan sends one to t, else
   * a last-scan row when the last scan sends one there, else the
   * middle-scan row whose detector the residue t mod NDETECTORS names.
   */
  function ColumnSource(height: int, t: int, i: int): int
    requires WholeScans(height) && 0 <= t < height && 0 <= i < NSEGMENTS
  {
    var last := height - NDETECTORS;
    if t <= NDETECTORS + 4 && FirstSource(i, t) != -1 then FirstSource(i, t)
    else if t >= last - 5 && LastSource(i, t - last) != -1 then last + LastSource(i, t - last)
    else
      var d := MidSource(i, t % NDETECTORS);
      t - MidEntry(d, i) + d
  }

  /**
   * ColumnSource undoes ColumnEntry: every row of a granule of whole scans
   * is sent to a row of the granule, and that row leads back to it.
   */
  lemma ColumnSourceInverts(height: int, y: int, i: int)
    requires WholeScans(height) && 0 <= y < height && 0 <= i < NSEGMENTS
    ensures 0 <= ColumnEntry(height, y, i) < height
    ensures ColumnSource(height, ColumnEntry(height, y, i), i) == y
  {
    if y >= height - NDETECTORS {
      LastScanInverts(height, y, i);
    } else if y >= NDETECTORS {
      MidScanInverts(height, y, i);
    } else {
      EdgeSources(i, y);
    }
  }

  /** A row of the last scan leads back to itself. */
  lemma LastScanInverts(height: int, y: int, i: int)
    requires WholeScans(height) && height - NDETECTORS <= y < height && 0 <= i < NSEGMENTS
    ensures 0 <= ColumnEntry(height, y, i) < height
    ensures ColumnSource(height, ColumnEntry(height, y, i), i) == y
  {
    LastScanEntry(height, y, i);
    SourceInLastScan(height, i, y, ColumnEntry(height, y, i));
  }

  /** A row of a middle scan leads back to itself. */
  lemma MidScanInverts(height: int, y: int, i: int)
    requires WholeScans(height) && NDETECTORS <= y < height - NDETECTORS && 0 <= i < NSEGMENTS
    ensures 0 <= ColumnEntry(height, y, i) < height
    ensures ColumnSource(height, ColumnEntry(height, y, i), i) == y
  {
    MidScanEntry(height, y, i);
    SourceInMidScan(height, i, y, ColumnEntry(height, y, i));
  }

  /** The entry of a row of the last scan, from the last-scan table. */
  lemma LastScanEntry(height: int, y: int, i: int)
    requires WholeScans(height) && height - NDETECTORS <= y < height && 0 <= i < NSEGMENTS
    ensures ColumnEntry(height, y, i) == height - NDETECTORS + LastEntry(y % NDETECTORS, i)
  {
    assert y % NDETECTORS == y - (height - NDETECTORS) by {
      assert height == (height / NDETECTORS) * NDETECTORS;
    }
  }

  /** The entry of a row of middle scan k, from the middle-scan table. */
  lemma MidScanEntry(height: int, y: int, i: int)
    requires WholeScans(height) && NDETECTORS <= y < height - NDETECTORS && 0 <= i < NSEGMENTS
    ensures 1 <= y / NDETECTORS <= height / NDETECTORS - 2
    ensures y == y / NDETECTORS * NDETECTORS + y % NDETECTORS
    ensures ColumnEntry(height, y, i) == y / NDETECTORS * NDETECTORS + MidEntry(y % NDETECTORS, i)
  {
    assert height == height / NDETECTORS * NDETECTORS;
  }

  /**
   * The row where the last scan sends row y: the first scan sends nothing
   * there, so it leads back to y.
   */
  lemma SourceInLastScan(height: int, i: int, y: int, t: int)
    requires WholeScans(height) && height - NDETECTORS <= y < height && 0 <= i < NSEGMENTS
    requires t == height - NDETECTORS + LastEntry(y % NDETECTORS, i)
    ensures 0 <= t < height && ColumnSource(height, t, i) == y
  {
    var d := y % NDETECTORS;
    assert d == y - (height - NDETECTORS) by {
      assert height == (height / NDETECTORS) * NDETECTORS;
    }
    EdgeSources(i, d);
    var e := LastEntry(d, i);
    assert t > NDETECTORS + 4 || FirstSource(i, t) == -1 by {
      if t <= NDETECTORS + 4 {
        assert height == 2 * NDETECTORS && t == e + NDETECTORS;
      }
    }
    SourceFromLastScan(height, t, i, e);
  }

  /** ColumnSource's second branch: the first scan sends nothing to t, the last scan does. */
  lemma SourceFromLastScan(height: int, t: int, i: int, e: int)
    requires WholeScans(height) && 0 <= t < height && 0 <= i < NSEGMENTS
    requires -5 <= e <= 15 && t == height - NDETECTORS + e && LastSource(i, e) != -1
    requires t > NDETECTORS + 4 || FirstSource(i, t) == -1
    ensures ColumnSource(height, t, i) == height - NDETECTORS + LastSource(i, e)
  {
  }

  /**
   * The row where row y of a middle scan is sent: neither edge scan sends
   * a row there, so it leads back to y.
   */
  lemma SourceInMidScan(height: int, i: int, y: int, t: int)
    requires WholeScans(height) && NDETECTORS <= y < height - NDETECTORS && 0 <= i < NSEGMENTS
    requires t == y / NDETECTORS * NDETECTORS + MidEntry(y % NDETECTORS, i)
    ensures 0 <= t < height && ColumnSource(height, t, i) == y
  {
    var d, k := y % NDETECTORS, y / NDETECTORS;
    MidAvoidsEdges(i, d);
    MidSourceOfEntry(i, d);
    var m := MidEntry(d, i);
    var scans := height / NDETECTORS;
    assert height == scans * NDETECTORS && y == k * NDETECTORS + d && 1 <= k <= scans - 2;
    assert t == k * NDETECTORS + m;
    assert t > NDETECTORS + 4 || FirstSource(i, t) == -1 by {
      if t <= NDETECTORS + 4 {
        assert k == 1 && t == m + NDETECTORS;
      }
    }
    assert t < height - NDETECTORS - 5 || LastSource(i, t - (height - NDETECTORS)) == -1 by {
      if t >= height - NDETECTORS - 5 {
        assert k == scans - 2;
        assert t - (height - NDETECTORS) == m - NDETECTORS;
      }
    }
    MidShift(k, m);
    SourceFromMidScan(height, t, i, m % NDETECTORS, d);
  }

  /** ColumnSource's last branch: neither edge scan sends anything to t. */
  lemma SourceFromMidScan(height: int, t: int, i: int, r: int, d: int)
    requires WholeScans(height) && 0 <= t < height && 0 <= i < NSEGMENTS
    requires r == t % NDETECTORS && MidSource(i, r) == d
    requires t > NDETECTORS + 4 || FirstSource(i, t) == -1
    requires t < height - NDETECTORS - 5 || LastSource(i, t - (height - NDETECTORS)) == -1
    ensures ColumnSource(height, t, i) == t - MidEntry(d, i) + d
  {
  }

  /** Adding whole scans does not change the residue. */
  lemma MidShift(k: int, m: int)
    ensures (k * NDETECTORS + m) % NDETECTORS == m % NDETECTORS
  {
  }

  /**
   * On a granule of whole scans, two rows of one column never share a sort
   * index: each column of the sort-index image is a permutation of the rows.
   */
  lemma ColumnEntriesDistinct(height: int, y1: int, y2: int, i: int)
    requires WholeScans(height) && 0 <= y1 < height && 0 <= y2 < height && 0 <= i < NSEGMENTS
    ensures ColumnEntry(height, y1, i) == ColumnEntry(height, y2, i) <==> y1 == y2
  {
    ColumnSourceInverts(height, y1, i);
    ColumnSourceInverts(height, y2, i);
  }
}
