/**
 * Inverses of the first-scan and last-scan offset tables of sort.h, and the
 * facts that let every column of the sort-index grid be undone: the edge
 * scans send distinct detectors to distinct rows, and no middle-scan row
 * lands on a row an edge scan is sent to.
 */
module SortSources {
  import opened Viirs
  import opened SortTables

  /** A detector number is one of the 16, case by case. */
  lemma Detectors(d: int)
    requires 0 <= d < NDETECTORS
    ensures d == 0 || d == 1 || d == 2 || d == 3 || d == 4 || d == 5 || d == 6 || d == 7 ||
            d == 8 || d == 9 || d == 10 || d == 11 || d == 12 || d == 13 || d == 14 || d == 15
  {
  }

  /**
   * Detector d in segment i of the first or the last scan: the offsets send
   * it to the row the inverse table gives back, and a last-scan row of a
   * two-scan granule never lands on a row the first scan is sent to.
   */
  lemma EdgeSources(i: int, d: int)
    requires 0 <= i < NSEGMENTS && 0 <= d < NDETECTORS
    ensures 0 <= FirstEntry(d, i) <= 20 && FirstSource(i, FirstEntry(d, i)) == d
    ensures -5 <= LastEntry(d, i) <= 15 && LastSource(i, LastEntry(d, i)) == d
    ensures LastEntry(d, i) <= 4 ==> FirstSource(i, LastEntry(d, i) + 16) == -1
  {
    // One table column at a time, as for MID_SOURCE.
    if i == 0 { Segment0FirstSources(i, d); Segment0LastSources(i, d); }
    else if i == 1 { Segment1FirstSources(i, d); Segment1LastSources(i, d); }
    else if i == 2 { Segment2FirstSources(i, d); Segment2LastSources(i, d); }
    else if i == 3 { Segment3FirstSources(i, d); Segment3LastSources(i, d); }
    else if i == 4 { Segment4FirstSources(i, d); Segment4LastSources(i, d); }
    else if i == 5 { Segment5FirstSources(i, d); Segment5LastSources(i, d); }
    else if i == 6 { Segment6FirstSources(i, d); Segment6LastSources(i, d); }
    else if i == 7 { Segment7FirstSources(i, d); Segment7LastSources(i, d); }
    else if i == 8 { Segment8FirstSources(i, d); Segment8LastSources(i, d); }
    else if i == 9 { Segment9FirstSources(i, d); Segment9LastSources(i, d); }
    else { Segment10FirstSources(i, d); Segment10LastSources(i, d); }
  }

  /**
   * Detector d in segment i of a middle scan lands within -5..20 of its
   * scan's start. When it reaches into the first rows of the next scan, or
   * into the last rows of the previous one, it never lands on a row the
   * first or the last scan is sent to.
   */
  lemma MidAvoidsEdges(i: int, d: int)
    requires 0 <= i < NSEGMENTS && 0 <= d < NDETECTORS
    ensures -5 <= MidEntry(d, i) <= 20
    ensures MidEntry(d, i) <= 4 ==> FirstSource(i, MidEntry(d, i) + 16) == -1
    ensures MidEntry(d, i) >= 11 ==> LastSource(i, MidEntry(d, i) - 16) == -1
  {
    if i == 0 { Segment0MidAvoidsEdges(i, d); }
    else if i == 1 { Segment1MidAvoidsEdges(i, d); }
    else if i == 2 { Segment2MidAvoidsEdges(i, d); }
    else if i == 3 { Segment3MidAvoidsEdges(i, d); }
    else if i == 4 { Segment4MidAvoidsEdges(i, d); }
    else if i == 5 { Segment5MidAvoidsEdges(i, d); }
    else if i == 6 { Segment6MidAvoidsEdges(i, d); }
    else if i == 7 { Segment7MidAvoidsEdges(i, d); }
    else if i == 8 { Segment8MidAvoidsEdges(i, d); }
    else if i == 9 { Segment9MidAvoidsEdges(i, d); }
    else { Segment10MidAvoidsEdges(i, d); }
  }

  lemma Segment0FirstSources(i: int, d: int)
    requires i == 0 && 0 <= d < NDETECTORS
    ensures 0 <= FirstEntry(d, i) <= 20 && FirstSource(i, FirstEntry(d, i)) == d
  {
    Detectors(d);
  }

  lemma Segment0LastSources(i: int, d: int)
    requires i == 0 && 0 <= d < NDETECTORS
    ensures -5 <= LastEntry(d, i) <= 15 && LastSource(i, LastEntry(d, i)) == d &&
      (LastEntry(d, i) <= 4 ==> FirstSource(i, LastEntry(d, i) + 16) == -1)
  {
    Detectors(d);
  }

  lemma Segment0MidAvoidsEdges(i: int, d: int)
    requires i == 0 && 0 <= d < NDETECTORS
    ensures -5 <= MidEntry(d, i) <= 20 &&
      (MidEntry(d, i) <= 4 ==> FirstSource(i, MidEntry(d, i) + 16) == -1) &&
      (MidEntry(d, i) >= 11 ==> LastSource(i, MidEntry(d, i) - 16) == -1)
  {
    Detectors(d);
  }

  lemma Segment1FirstSources(i: int, d: int)
    requires i == 1 && 0 <= d < NDETECTORS
    ensures 0 <= FirstEntry(d, i) <= 20 && FirstSource(i, FirstEntry(d, i)) == d
  {
    Detectors(d);
  }

  lemma Segment1LastSources(i: int, d: int)
    requires i == 1 && 0 <= d < NDETECTORS
    ensures -5 <= LastEntry(d, i) <= 15 && LastSource(i, LastEntry(d, i)) == d &&
      (LastEntry(d, i) <= 4 ==> FirstSource(i, LastEntry(d, i) + 16) == -1)
  {
    Detectors(d);
  }

  lemma Segment1MidAvoidsEdges(i: int, d: int)
    requires i == 1 && 0 <= d < NDETECTORS
    ensures -5 <= MidEntry(d, i) <= 20 &&
      (MidEntry(d, i) <= 4 ==> FirstSource(i, MidEntry(d, i) + 16) == -1) &&
      (MidEntry(d, i) >= 11 ==> LastSource(i, MidEntry(d, i) - 16) == -1)
  {
    Detectors(d);
  }

  lemma Segment2FirstSources(i: int, d: int)
    requires i == 2 && 0 <= d < NDETECTORS
    ensures 0 <= FirstEntry(d, i) <= 20 && FirstSource(i, FirstEntry(d, i)) == d
  {
    Detectors(d);
  }

  lemma Segment2LastSources(i: int, d: int)
    requires i == 2 && 0 <= d < NDETECTORS
    ensures -5 <= LastEntry(d, i) <= 15 && LastSource(i, LastEntry(d, i)) == d &&
      (LastEntry(d, i) <= 4 ==> FirstSource(i, LastEntry(d, i) + 16) == -1)
  {
    Detectors(d);
  }

  lemma Segment2MidAvoidsEdges(i: int, d: int)
    requires i == 2 && 0 <= d < NDETECTORS
    ensures -5 <= MidEntry(d, i) <= 20 &&
      (MidEntry(d, i) <= 4 ==> FirstSource(i, MidEntry(d, i) + 16) == -1) &&
      (MidEntry(d, i) >= 11 ==> LastSource(i, MidEntry(d, i) - 16) == -1)
  {
    Detectors(d);
  }

  lemma Segment3FirstSources(i: int, d: int)
    requires i == 3 && 0 <= d < NDETECTORS
    ensures 0 <= FirstEntry(d, i) <= 20 && FirstSource(i, FirstEntry(d, i)) == d
  {
    Detectors(d);
  }

  lemma Segment3LastSources(i: int, d: int)
    requires i == 3 && 0 <= d < NDETECTORS
    ensures -5 <= LastEntry(d, i) <= 15 && LastSource(i, LastEntry(d, i)) == d &&
      (LastEntry(d, i) <= 4 ==> FirstSource(i, LastEntry(d, i) + 16) == -1)
  {
    Detectors(d);
  }

  lemma Segment3MidAvoidsEdges(i: int, d: int)
    requires i == 3 && 0 <= d < NDETECTORS
    ensures -5 <= MidEntry(d, i) <= 20 &&
      (MidEntry(d, i) <= 4 ==> FirstSource(i, MidEntry(d, i) + 16) == -1) &&
      (MidEntry(d, i) >= 11 ==> LastSource(i, MidEntry(d, i) - 16) == -1)
  {
    Detectors(d);
  }

  lemma Segment4FirstSources(i: int, d: int)
    requires i == 4 && 0 <= d < NDETECTORS
    ensures 0 <= FirstEntry(d, i) <= 20 && FirstSource(i, FirstEntry(d, i)) == d
  {
    Detectors(d);
  }

  lemma Segment4LastSources(i: int, d: int)
    requires i == 4 && 0 <= d < NDETECTORS
    ensures -5 <= LastEntry(d, i) <= 15 && LastSource(i, LastEntry(d, i)) == d &&
      (LastEntry(d, i) <= 4 ==> FirstSource(i, LastEntry(d, i) + 16) == -1)
  {
    Detectors(d);
  }

  lemma Segment4MidAvoidsEdges(i: int, d: int)
    requires i == 4 && 0 <= d < NDETECTORS
    ensures -5 <= MidEntry(d, i) <= 20 &&
      (MidEntry(d, i) <= 4 ==> FirstSource(i, MidEntry(d, i) + 16) == -1) &&
      (MidEntry(d, i) >= 11 ==> LastSource(i, MidEntry(d, i) - 16) == -1)
  {
    Detectors(d);
  }

  lemma Segment5FirstSources(i: int, d: int)
    requires i == 5 && 0 <= d < NDETECTORS
    ensures 0 <= FirstEntry(d, i) <= 20 && FirstSource(i, FirstEntry(d, i)) == d
  {
    Detectors(d);
  }

  lemma Segment5LastSources(i: int, d: int)
    requires i == 5 && 0 <= d < NDETECTORS
    ensures -5 <= LastEntry(d, i) <= 15 && LastSource(i, LastEntry(d, i)) == d &&
      (LastEntry(d, i) <= 4 ==> FirstSource(i, LastEntry(d, i) + 16) == -1)
  {
    Detectors(d);
  }

  lemma Segment5MidAvoidsEdges(i: int, d: int)
    requires i == 5 && 0 <= d < NDETECTORS
    ensures -5 <= MidEntry(d, i) <= 20 &&
      (MidEntry(d, i) <= 4 ==> FirstSource(i, MidEntry(d, i) + 16) == -1) &&
      (MidEntry(d, i) >= 11 ==> LastSource(i, MidEntry(d, i) - 16) == -1)
  {
    Detectors(d);
  }

  lemma Segment6FirstSources(i: int, d: int)
    requires i == 6 && 0 <= d < NDETECTORS
    ensures 0 <= FirstEntry(d, i) <= 20 && FirstSource(i, FirstEntry(d, i)) == d
  {
    Detectors(d);
  }

  lemma Segment6LastSources(i: int, d: int)
    requires i == 6 && 0 <= d < NDETECTORS
    ensures -5 <= LastEntry(d, i) <= 15 && LastSource(i, LastEntry(d, i)) == d &&
      (LastEntry(d, i) <= 4 ==> FirstSource(i, LastEntry(d, i) + 16) == -1)
  {
    Detectors(d);
  }

  lemma Segment6MidAvoidsEdges(i: int, d: int)
    requires i == 6 && 0 <= d < NDETECTORS
    ensures -5 <= MidEntry(d, i) <= 20 &&
      (MidEntry(d, i) <= 4 ==> FirstSource(i, MidEntry(d, i) + 16) == -1) &&
      (MidEntry(d, i) >= 11 ==> LastSource(i, MidEntry(d, i) - 16) == -1)
  {
    Detectors(d);
  }

  lemma Segment7FirstSources(i: int, d: int)
    requires i == 7 && 0 <= d < NDETECTORS
    ensures 0 <= FirstEntry(d, i) <= 20 && FirstSource(i, FirstEntry(d, i)) == d
  {
    Detectors(d);
  }

  lemma Segment7LastSources(i: int, d: int)
    requires i == 7 && 0 <= d < NDETECTORS
    ensures -5 <= LastEntry(d, i) <= 15 && LastSource(i, LastEntry(d, i)) == d &&
      (LastEntry(d, i) <= 4 ==> FirstSource(i, LastEntry(d, i) + 16) == -1)
  {
    Detectors(d);
  }

  lemma Segment7MidAvoidsEdges(i: int, d: int)
    requires i == 7 && 0 <= d < NDETECTORS
    ensures -5 <= MidEntry(d, i) <= 20 &&
      (MidEntry(d, i) <= 4 ==> FirstSource(i, MidEntry(d, i) + 16) == -1) &&
      (MidEntry(d, i) >= 11 ==> LastSource(i, MidEntry(d, i) - 16) == -1)
  {
    Detectors(d);
  }

  lemma Segment8FirstSources(i: int, d: int)
    requires i == 8 && 0 <= d < NDETECTORS
    ensures 0 <= FirstEntry(d, i) <= 20 && FirstSource(i, FirstEntry(d, i)) == d
  {
    Detectors(d);
  }

  lemma Segment8LastSources(i: int, d: int)
    requires i == 8 && 0 <= d < NDETECTORS
    ensures -5 <= LastEntry(d, i) <= 15 && LastSource(i, LastEntry(d, i)) == d &&
      (LastEntry(d, i) <= 4 ==> FirstSource(i, LastEntry(d, i) + 16) == -1)
  {
    Detectors(d);
  }

  lemma Segment8MidAvoidsEdges(i: int, d: int)
    requires i == 8 && 0 <= d < NDETECTORS
    ensures -5 <= MidEntry(d, i) <= 20 &&
      (MidEntry(d, i) <= 4 ==> FirstSource(i, MidEntry(d, i) + 16) == -1) &&
      (MidEntry(d, i) >= 11 ==> LastSource(i, MidEntry(d, i) - 16) == -1)
  {
    Detectors(d);
  }

  lemma Segment9FirstSources(i: int, d: int)
    requires i == 9 && 0 <= d < NDETECTORS
    ensures 0 <= FirstEntry(d, i) <= 20 && FirstSource(i, FirstEntry(d, i)) == d
  {
    Detectors(d);
  }

  lemma Segment9LastSources(i: int, d: int)
    requires i == 9 && 0 <= d < NDETECTORS
    ensures -5 <= LastEntry(d, i) <= 15 && LastSource(i, LastEntry(d, i)) == d &&
      (LastEntry(d, i) <= 4 ==> FirstSource(i, LastEntry(d, i) + 16) == -1)
  {
    Detectors(d);
  }

  lemma Segment9MidAvoidsEdges(i: int, d: int)
    requires i == 9 && 0 <= d < NDETECTORS
    ensures -5 <= MidEntry(d, i) <= 20 &&
      (MidEntry(d, i) <= 4 ==> FirstSource(i, MidEntry(d, i) + 16) == -1) &&
      (MidEntry(d, i) >= 11 ==> LastSource(i, MidEntry(d, i) - 16) == -1)
  {
    Detectors(d);
  }

  lemma Segment10FirstSources(i: int, d: int)
    requires i == 10 && 0 <= d < NDETECTORS
    ensures 0 <= FirstEntry(d, i) <= 20 && FirstSource(i, FirstEntry(d, i)) == d
  {
    Detectors(d);
  }

  lemma Segment10LastSources(i: int, d: int)
    requires i == 10 && 0 <= d < NDETECTORS
    ensures -5 <= LastEntry(d, i) <= 15 && LastSource(i, LastEntry(d, i)) == d &&
      (LastEntry(d, i) <= 4 ==> FirstSource(i, LastEntry(d, i) + 16) == -1)
  {
    Detectors(d);
  }

  lemma Segment10MidAvoidsEdges(i: int, d: int)
    requires i == 10 && 0 <= d < NDETECTORS
    ensures -5 <= MidEntry(d, i) <= 20 &&
      (MidEntry(d, i) <= 4 ==> FirstSource(i, MidEntry(d, i) + 16) == -1) &&
      (MidEntry(d, i) >= 11 ==> LastSource(i, MidEntry(d, i) - 16) == -1)
  {
    Detectors(d);
  }
}
