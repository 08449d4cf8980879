/**
 * Detector geometry of the VIIRS M-band swath (sort.h): the column break
 * points of the left half of a scan line and, for each of the 16 detectors
 * and 11 column segments, the row offset that puts the pixel in latitude
 * order. SORT_FIRST holds for the first scan of a granule, SORT_LAST for the
 * last, SORT_MID for every scan in between.
 */
module SortTables {
  import opened Viirs
  import Permutation

  /** Number of column segments in each half of a scan line. */
  const NSEGMENTS: int := 11

  const SORT_BREAK_POINTS: seq<int> := [5, 87, 170, 358, 567, 720, 850, 997, 1120, 1275, 1600]

  const SORT_FIRST: seq<seq<int>> := [
    [ 0,  0,  0,  0,  0,  0,  0,  0,  0,  0, 0],
    [ 0,  0,  0,  0,  0,  0,  0,  0,  0,  0, 0],
    [ 0,  0,  0,  0,  0,  0,  0,  0,  0,  0, 0],
    [ 0,  0,  0,  0,  0,  0,  0,  0,  0,  0, 0],
    [ 0,  0,  0,  0,  0,  0,  0,  0,  0,  0, 0],
    [ 0,  0,  0,  0,  0,  0,  0,  0,  0,  0, 0],
    [ 0,  0,  0,  0,  0,  0,  0,  0,  0,  0, 0],
    [ 0,  0,  0,  0,  0,  0,  0,  0,  0,  0, 0],
    [ 8,  8,  8,  0,  0,  0,  0,  0,  0,  0, 0],
    [ 8, -1, -1,  7,  0,  0,  0,  0,  0,  0, 0],
    [-2,  7,  7, -1,  6,  0,  0,  0,  0,  0, 0],
    [ 7, -2, -2,  6, -1,  5,  0,  0,  0,  0, 0],
    [-3,  6,  6, -2,  5, -1,  4,  0,  0,  0, 0],
    [ 6, -3, -3,  5, -2,  4, -1,  3,  0,  0, 0],
    [-4,  5,  5, -3,  4, -2,  3, -1,  2,  0, 0],
    [ 5, -4, -4,  4, -3,  3, -2,  2, -1,  1, 0]
  ]

  const SORT_MID: seq<seq<int>> := [
    [-5,   4,  4, -4,  3, -3,  2, -2,  1, -1, 0],
    [ 4,  -5, -5,  3, -4,  2, -3,  1, -2,  0, 0],
    [-6,   3,  3, -5,  2, -4,  1, -3,  0,  0, 0],
    [ 3,  -6, -6,  2, -5,  1, -4,  0,  0,  0, 0],
    [-7,   2,  2, -6,  1, -5,  0,  0,  0,  0, 0],
    [ 11, -7, -7,  1, -6,  0,  0,  0,  0,  0, 0],
    [ 1,   1,  1, -7,  0,  0,  0,  0,  0,  0, 0],
    [-9,   9, -8,  0,  0,  0,  0,  0,  0,  0, 0],
    [ 9,  -9,  8,  0,  0,  0,  0,  0,  0,  0, 0],
    [-1,  -1, -1,  7,  0,  0,  0,  0,  0,  0, 0],
    [-11,  7,  7, -1,  6,  0,  0,  0,  0,  0, 0],
    [ 7,  -2, -2,  6, -1,  5,  0,  0,  0,  0, 0],
    [-3,   6,  6, -2,  5, -1,  4,  0,  0,  0, 0],
    [ 6,  -3, -3,  5, -2,  4, -1,  3,  0,  0, 0],
    [-4,   5,  5, -3,  4, -2,  3, -1,  2,  0, 0],
    [ 5,  -4, -4,  4, -3,  3, -2,  2, -1,  1, 0]
  ]

  const SORT_LAST: seq<seq<int>> := [
    [-5,  4,  4, -4,  3, -3,  2, -2,  1, -1, 0],
    [ 4, -5, -5,  3, -4,  2, -3,  1, -2,  0, 0],
    [-6,  3,  3, -5,  2, -4,  1, -3,  0,  0, 0],
    [ 3, -6, -6,  2, -5,  1, -4,  0,  0,  0, 0],
    [-7,  2,  2, -6,  1, -5,  0,  0,  0,  0, 0],
    [ 2, -7, -7,  1, -6,  0,  0,  0,  0,  0, 0],
    [-8,  1,  1, -7,  0,  0,  0,  0,  0,  0, 0],
    [-8, -8, -8,  0,  0,  0,  0,  0,  0,  0, 0],
    [ 0,  0,  0,  0,  0,  0,  0,  0,  0,  0, 0],
    [ 0,  0,  0,  0,  0,  0,  0,  0,  0,  0, 0],
    [ 0,  0,  0,  0,  0,  0,  0,  0,  0,  0, 0],
    [ 0,  0,  0,  0,  0,  0,  0,  0,  0,  0, 0],
    [ 0,  0,  0,  0,  0,  0,  0,  0,  0,  0, 0],
    [ 0,  0,  0,  0,  0,  0,  0,  0,  0,  0, 0],
    [ 0,  0,  0,  0,  0,  0,  0,  0,  0,  0, 0],
    [ 0,  0,  0,  0,  0,  0,  0,  0,  0,  0, 0]
  ]

  /** A 16 x 11 offset table. */
  ghost predicate IsOffsetTable(t: seq<seq<int>>)
  {
    |t| == NDETECTORS && forall d :: 0 <= d < NDETECTORS ==> |t[d]| == NSEGMENTS
  }

  lemma TablesAreWellFormed()
    ensures |SORT_BREAK_POINTS| == NSEGMENTS
    ensures IsOffsetTable(SORT_FIRST) && IsOffsetTable(SORT_MID) && IsOffsetTable(SORT_LAST)
  {
  }

  /**
   * The break points partition the left half of a scan line: strictly
   * increasing, from 5 up to exactly half the swath width.
   */
  lemma BreakPointsPartitionHalfScan()
    ensures |SORT_BREAK_POINTS| == NSEGMENTS
    ensures SORT_BREAK_POINTS[0] == 5
    ensures SORT_BREAK_POINTS[NSEGMENTS - 1] == VIIRS_WIDTH / 2
    ensures forall a, b :: 0 <= a < b < NSEGMENTS ==> SORT_BREAK_POINTS[a] < SORT_BREAK_POINTS[b]
  {
  }

  /** The central segment (around nadir) keeps every row where it is, in all three tables. */
  lemma CentralSegmentKeepsOrder()
    ensures forall d :: 0 <= d < NDETECTORS ==>
      SORT_FIRST[d][NSEGMENTS - 1] == 0 && SORT_MID[d][NSEGMENTS - 1] == 0 && SORT_LAST[d][NSEGMENTS - 1] == 0
  {
  }

  /** The top half of the first scan and the bottom half of the last scan are never moved. */
  lemma GranuleEdgesKeepOrder()
    ensures forall d, i :: 0 <= d < NDETECTORS / 2 && 0 <= i < NSEGMENTS ==> SORT_FIRST[d][i] == 0
    ensures forall d, i :: NDETECTORS / 2 <= d < NDETECTORS && 0 <= i < NSEGMENTS ==> SORT_LAST[d][i] == 0
  {
  }

  /**
   * A row of the first scan never reads above the granule (d + offset >= 0),
   * and a row of the last scan never reads below it (d + offset <= 15).
   * The opposite bounds say how far into the neighbouring scan they reach.
   */
  lemma EdgeScansStayInside()
    ensures forall d, i :: 0 <= d < NDETECTORS && 0 <= i < NSEGMENTS ==> 0 <= d + SORT_FIRST[d][i] <= 20
    ensures forall d, i :: 0 <= d < NDETECTORS && 0 <= i < NSEGMENTS ==> -5 <= d + SORT_LAST[d][i] < NDETECTORS
  {
  }

  /** A middle-scan row reads at most 11 rows away, so never further than the neighbouring scan. */
  lemma MidOffsetsBounded()
    ensures forall d, i :: 0 <= d < NDETECTORS && 0 <= i < NSEGMENTS ==> -11 <= SORT_MID[d][i] <= 11
  {
  }

  /** The detector that a middle-scan row with detector d reads from, modulo the scan length. */
  function MidResidue(d: int, i: int): int
    requires 0 <= d < NDETECTORS && 0 <= i < NSEGMENTS
  {
    (d + SORT_MID[d][i]) % NDETECTORS
  }

  /** The 16 residues of segment i, by detector. */
  ghost function MidResidues(i: int): (s: seq<int>)
    requires 0 <= i < NSEGMENTS
    ensures |s| == NDETECTORS
  {
    seq(NDETECTORS, d requires 0 <= d < NDETECTORS => MidResidue(d, i))
  }

  /**
   * In every segment, detector d of a middle scan reads from a distinct
   * detector (d + SORT_MID[d][i]) mod 16: the middle-scan offsets permute the
   * detectors of a scan. This is what lets unsorting undo sorting in the
   * middle of a granule.
   */
  lemma MidResiduesArePermutations()
    ensures forall i :: 0 <= i < NSEGMENTS ==> Permutation.IsPermutation(MidResidues(i))
    ensures forall i, t :: 0 <= i < NSEGMENTS && 0 <= t < NDETECTORS ==> t in MidResidues(i)
  {
    forall i | 0 <= i < NSEGMENTS
      ensures Permutation.IsPermutation(MidResidues(i)) && Permutation.Covers(MidResidues(i))
    {
      MidResiduesDistinct(i);
      Permutation.PermutationCovers(MidResidues(i));
    }
  }

  /**
   * The inverse of the middle-scan residues: in segment i, MID_SOURCE[i][r]
   * is the detector d whose residue MidResidue(d, i) is r.
   */
  const MID_SOURCE: seq<seq<int>> := [
    [ 5,  8, 11, 13, 15,  1,  3,  6,  9, 12, 14,  0,  2,  4,  7, 10],
    [ 7, 10, 12, 14,  0,  2,  4,  6,  9, 11, 13, 15,  1,  3,  5,  8],
    [ 8, 10, 12, 14,  0,  2,  4,  6,  9, 11, 13, 15,  1,  3,  5,  7],
    [ 9, 11, 13, 15,  1,  3,  5,  7,  8, 10, 12, 14,  0,  2,  4,  6],
    [10, 12, 14,  0,  2,  4,  6,  7,  8,  9, 11, 13, 15,  1,  3,  5],
    [11, 13, 15,  1,  3,  5,  6,  7,  8,  9, 10, 12, 14,  0,  2,  4],
    [12, 14,  0,  2,  4,  5,  6,  7,  8,  9, 10, 11, 13, 15,  1,  3],
    [13, 15,  1,  3,  4,  5,  6,  7,  8,  9, 10, 11, 12, 14,  0,  2],
    [14,  0,  2,  3,  4,  5,  6,  7,  8,  9, 10, 11, 12, 13, 15,  1],
    [15,  1,  2,  3,  4,  5,  6,  7,  8,  9, 10, 11, 12, 13, 14,  0],
    [ 0,  1,  2,  3,  4,  5,  6,  7,  8,  9, 10, 11, 12, 13, 14, 15]
  ]

  /** MID_SOURCE[i] undoes the residues of segment i, detector by detector. */
  lemma MidSourceInverts(i: int, d: int)
    requires 0 <= i < NSEGMENTS && 0 <= d < NDETECTORS
    ensures 0 <= MidResidue(d, i) < NDETECTORS && MID_SOURCE[i][MidResidue(d, i)] == d
  {
    // The solver checks one table column at a time; all eleven at once are too many.
    if i == 0 { MidSegment0Inverts(); }
    else if i == 1 { MidSegment1Inverts(); }
    else if i == 2 { MidSegment2Inverts(); }
    else if i == 3 { MidSegment3Inverts(); }
    else if i == 4 { MidSegment4Inverts(); }
    else if i == 5 { MidSegment5Inverts(); }
    else if i == 6 { MidSegment6Inverts(); }
    else if i == 7 { MidSegment7Inverts(); }
    else if i == 8 { MidSegment8Inverts(); }
    else if i == 9 { MidSegment9Inverts(); }
    else { MidSegment10Inverts(); }
  }

  lemma MidSegment0Inverts()
    ensures forall d :: 0 <= d < NDETECTORS ==> 0 <= MidResidue(d, 0) < NDETECTORS && MID_SOURCE[0][MidResidue(d, 0)] == d
  {
  }

  lemma MidSegment1Inverts()
    ensures forall d :: 0 <= d < NDETECTORS ==> 0 <= MidResidue(d, 1) < NDETECTORS && MID_SOURCE[1][MidResidue(d, 1)] == d
  {
  }

  lemma MidSegment2Inverts()
    ensures forall d :: 0 <= d < NDETECTORS ==> 0 <= MidResidue(d, 2) < NDETECTORS && MID_SOURCE[2][MidResidue(d, 2)] == d
  {
  }

  lemma MidSegment3Inverts()
    ensures forall d :: 0 <= d < NDETECTORS ==> 0 <= MidResidue(d, 3) < NDETECTORS && MID_SOURCE[3][MidResidue(d, 3)] == d
  {
  }

  lemma MidSegment4Inverts()
    ensures forall d :: 0 <= d < NDETECTORS ==> 0 <= MidResidue(d, 4) < NDETECTORS && MID_SOURCE[4][MidResidue(d, 4)] == d
  {
  }

  lemma MidSegment5Inverts()
    ensures forall d :: 0 <= d < NDETECTORS ==> 0 <= MidResidue(d, 5) < NDETECTORS && MID_SOURCE[5][MidResidue(d, 5)] == d
  {
  }

  lemma MidSegment6Inverts()
    ensures forall d :: 0 <= d < NDETECTORS ==> 0 <= MidResidue(d, 6) < NDETECTORS && MID_SOURCE[6][MidResidue(d, 6)] == d
  {
  }

  lemma MidSegment7Inverts()
    ensures forall d :: 0 <= d < NDETECTORS ==> 0 <= MidResidue(d, 7) < NDETECTORS && MID_SOURCE[7][MidResidue(d, 7)] == d
  {
  }

  lemma MidSegment8Inverts()
    ensures forall d :: 0 <= d < NDETECTORS ==> 0 <= MidResidue(d, 8) < NDETECTORS && MID_SOURCE[8][MidResidue(d, 8)] == d
  {
  }

  lemma MidSegment9Inverts()
    ensures forall d :: 0 <= d < NDETECTORS ==> 0 <= MidResidue(d, 9) < NDETECTORS && MID_SOURCE[9][MidResidue(d, 9)] == d
  {
  }

  lemma MidSegment10Inverts()
    ensures forall d :: 0 <= d < NDETECTORS ==> 0 <= MidResidue(d, 10) < NDETECTORS && MID_SOURCE[10][MidResidue(d, 10)] == d
  {
  }

  /** Distinct detectors of a middle scan read from distinct residues, in every segment. */
  lemma MidResiduesDistinct(i: int)
    requires 0 <= i < NSEGMENTS
    ensures Permutation.IsPermutation(MidResidues(i))
  {
    var s := MidResidues(i);
    forall a, b | 0 <= a < b < NDETECTORS ensures s[a] != s[b] {
      MidSourceInverts(i, a);
      MidSourceInverts(i, b);
    }
  }


  /**
   * The inverse of the first-scan offsets: in segment i, FIRST_SOURCE[i][e]
   * is the detector d of the first scan with d + SORT_FIRST[d][i] == e, for
   * e in 0..20, and -1 where no first-scan row is sent.
   */
  const FIRST_SOURCE: seq<seq<int>> := [
    [ 0,  1,  2,  3,  4,  5,  6,  7, 10, 12, 14, -1, -1, -1, -1, -1,  8,  9, 11, 13, 15],
    [ 0,  1,  2,  3,  4,  5,  6,  7,  9, 11, 13, 15, -1, -1, -1, -1,  8, 10, 12, 14, -1],
    [ 0,  1,  2,  3,  4,  5,  6,  7,  9, 11, 13, 15, -1, -1, -1, -1,  8, 10, 12, 14, -1],
    [ 0,  1,  2,  3,  4,  5,  6,  7,  8, 10, 12, 14, -1, -1, -1, -1,  9, 11, 13, 15, -1],
    [ 0,  1,  2,  3,  4,  5,  6,  7,  8,  9, 11, 13, 15, -1, -1, -1, 10, 12, 14, -1, -1],
    [ 0,  1,  2,  3,  4,  5,  6,  7,  8,  9, 10, 12, 14, -1, -1, -1, 11, 13, 15, -1, -1],
    [ 0,  1,  2,  3,  4,  5,  6,  7,  8,  9, 10, 11, 13, 15, -1, -1, 12, 14, -1, -1, -1],
    [ 0,  1,  2,  3,  4,  5,  6,  7,  8,  9, 10, 11, 12, 14, -1, -1, 13, 15, -1, -1, -1],
    [ 0,  1,  2,  3,  4,  5,  6,  7,  8,  9, 10, 11, 12, 13, 15, -1, 14, -1, -1, -1, -1],
    [ 0,  1,  2,  3,  4,  5,  6,  7,  8,  9, 10, 11, 12, 13, 14, -1, 15, -1, -1, -1, -1],
    [ 0,  1,  2,  3,  4,  5,  6,  7,  8,  9, 10, 11, 12, 13, 14, 15, -1, -1, -1, -1, -1]
  ]

  /**
   * The inverse of the last-scan offsets: in segment i, LAST_SOURCE[i][e + 5]
   * is the detector d of the last scan with d + SORT_LAST[d][i] == e, for e
   * in -5..15 relative to the start of the last scan, and -1 where no
   * last-scan row is sent.
   */
  const LAST_SOURCE: seq<seq<int>> := [
    [ 0,  2,  4,  6,  7, -1, -1, -1, -1, -1,  1,  3,  5,  8,  9, 10, 11, 12, 13, 14, 15],
    [-1,  1,  3,  5,  7, -1, -1, -1, -1,  0,  2,  4,  6,  8,  9, 10, 11, 12, 13, 14, 15],
    [-1,  1,  3,  5,  7, -1, -1, -1, -1,  0,  2,  4,  6,  8,  9, 10, 11, 12, 13, 14, 15],
    [-1,  0,  2,  4,  6, -1, -1, -1, -1,  1,  3,  5,  7,  8,  9, 10, 11, 12, 13, 14, 15],
    [-1, -1,  1,  3,  5, -1, -1, -1,  0,  2,  4,  6,  7,  8,  9, 10, 11, 12, 13, 14, 15],
    [-1, -1,  0,  2,  4, -1, -1, -1,  1,  3,  5,  6,  7,  8,  9, 10, 11, 12, 13, 14, 15],
    [-1, -1, -1,  1,  3, -1, -1,  0,  2,  4,  5,  6,  7,  8,  9, 10, 11, 12, 13, 14, 15],
    [-1, -1, -1,  0,  2, -1, -1,  1,  3,  4,  5,  6,  7,  8,  9, 10, 11, 12, 13, 14, 15],
    [-1, -1, -1, -1,  1, -1,  0,  2,  3,  4,  5,  6,  7,  8,  9, 10, 11, 12, 13, 14, 15],
    [-1, -1, -1, -1,  0, -1,  1,  2,  3,  4,  5,  6,  7,  8,  9, 10, 11, 12, 13, 14, 15],
    [-1, -1, -1, -1, -1,  0,  1,  2,  3,  4,  5,  6,  7,  8,  9, 10, 11, 12, 13, 14, 15]
  ]

  /** Row (relative to the scan start) that detector d of the first scan is sent to in segment i. */
  function FirstEntry(d: int, i: int): int
    requires 0 <= d < NDETECTORS && 0 <= i < NSEGMENTS
  {
    d + SORT_FIRST[d][i]
  }

  /** Row (relative to the scan start) that detector d of a middle scan is sent to in segment i. */
  function MidEntry(d: int, i: int): int
    requires 0 <= d < NDETECTORS && 0 <= i < NSEGMENTS
  {
    d + SORT_MID[d][i]
  }

  /** Row (relative to the scan start) that detector d of the last scan is sent to in segment i. */
  function LastEntry(d: int, i: int): int
    requires 0 <= d < NDETECTORS && 0 <= i < NSEGMENTS
  {
    d + SORT_LAST[d][i]
  }

  /** The first-scan detector sent to row e of the first 21 rows in segment i, or -1. */
  function FirstSource(i: int, e: int): int
    requires 0 <= i < NSEGMENTS && 0 <= e <= 20
  {
    FIRST_SOURCE[i][e]
  }

  /** The last-scan detector sent to row e (-5..15 from the last scan's start) in segment i, or -1. */
  function LastSource(i: int, e: int): int
    requires 0 <= i < NSEGMENTS && -5 <= e <= 15
  {
    LAST_SOURCE[i][e + 5]
  }

  /** The middle-scan detector whose residue in segment i is r. */
  function MidSource(i: int, r: int): (d: int)
    requires 0 <= i < NSEGMENTS && 0 <= r < NDETECTORS
    ensures 0 <= d < NDETECTORS
  {
    MID_SOURCE[i][r]
  }

  /** MidSource undoes the residue of a middle-scan entry. */
  lemma MidSourceOfEntry(i: int, d: int)
    requires 0 <= i < NSEGMENTS && 0 <= d < NDETECTORS
    ensures 0 <= MidEntry(d, i) % NDETECTORS < NDETECTORS && MidSource(i, MidEntry(d, i) % NDETECTORS) == d
  {
    MidSourceInverts(i, d);
  }
}
