/**
 * The entry point resample_viirs of resample.cc: checks the granule shape,
 * sorts the image, latitude and longitude by the fixed index grid, resamples
 * the sorted image column by column, unsorts the result and writes it back
 * into the image. Latitude and longitude are only read.
 */
module Resample {
  import opened Viirs
  import opened SortIndex
  import opened GeoApprox
  import Permute
  import Permutation
  import ResampleColumn

  /** The index grid getsortingind builds for a granule of the given height. */
  ghost function SortGrid(height: int): (g: seq<seq<int>>)
    requires height >= 0
    ensures Permute.IsGrid(g, height, VIIRS_WIDTH)
    ensures forall y, x :: 0 <= y < height && 0 <= x < VIIRS_WIDTH ==> g[y][x] == SortIndexAt(height, y, x)
  {
    seq(height, y requires 0 <= y < height => seq(VIIRS_WIDTH, x requires 0 <= x < VIIRS_WIDTH => SortIndexAt(height, y, x)))
  }

  /** The shape test of resample_viirs as written: a height that is a multiple of 16 and width 3200. */
  predicate ShapeAcceptedAsWritten(nx: int, ny: int)
  {
    ny % NDETECTORS == 0 && nx == VIIRS_WIDTH
  }

  /**
   * The test lets through a granule of a single scan (and an empty one).
   * There the last-scan rows are also the first-scan rows, and the grid
   * sends row 0 of column 0 to row -5, outside the image.
   */
  lemma SingleScanGranuleAccepted()
    ensures ShapeAcceptedAsWritten(VIIRS_WIDTH, NDETECTORS) && ShapeAcceptedAsWritten(VIIRS_WIDTH, 0)
    ensures SortIndexAt(NDETECTORS, 0, 0) == -5
    ensures !WholeScans(NDETECTORS) && !WholeScans(0)
  {
    assert Mirror(0) == 0;
    SegmentUnique(0, 0);
  }

  /** The shape test the resampler needs: at least two whole scans, and width 3200. */
  predicate ShapeAccepted(nx: int, ny: int)
  {
    WholeScans(ny) && nx == VIIRS_WIDTH
  }

  /** Every accepted shape passes the test as written; the difference is the granules of fewer than two scans. */
  lemma ShapeAcceptedNarrowsAsWritten(nx: int, ny: int)
    ensures ShapeAccepted(nx, ny) <==> ShapeAcceptedAsWritten(nx, ny) && ny >= 2 * NDETECTORS
  {
  }

  /** For an accepted height the grid is an index grid with a kept row (row 0) in every column. */
  lemma SortGridUsable(height: int)
    requires WholeScans(height)
    ensures Permute.IsIndexGrid(SortGrid(height), height, VIIRS_WIDTH)
    ensures ResampleColumn.HasAnchors(SortGrid(height), VIIRS_WIDTH)
  {
    var g := SortGrid(height);
    forall y, x | 0 <= y < height && 0 <= x < VIIRS_WIDTH ensures 0 <= g[y][x] < height {
      SortIndexInRange(height, y, x);
    }
    forall x | 0 <= x < VIIRS_WIDTH ensures ResampleColumn.AnchoredAt(g, x) {
      SortIndexIdentity(height, 0, x);
      assert g[0][x] == 0;
    }
  }

  /**
   * For an accepted height every column of the grid is a permutation of
   * the rows: each row goes to exactly one sorted position.
   */
  lemma SortGridColumnsArePermutations(height: int)
    requires WholeScans(height)
    ensures Permute.IsIndexGrid(SortGrid(height), height, VIIRS_WIDTH)
    ensures Permute.ColumnsArePermutations(SortGrid(height), VIIRS_WIDTH)
  {
    SortGridUsable(height);
    var g := SortGrid(height);
    forall x | 0 <= x < VIIRS_WIDTH ensures Permutation.IsPermutation(Permute.Column(g, x)) {
      var col, i := Permute.Column(g, x), Segment(Mirror(x));
      forall a, b | 0 <= a < b < |col| ensures col[a] != col[b] {
        ColumnEntriesDistinct(height, a, b, i);
      }
    }
  }

  /**
   * On an accepted granule resample_unsort undoes resample_sort, and
   * resample_sort undoes resample_unsort.
   */
  lemma SortGridRoundTrips(img: seq<seq<real>>)
    requires WholeScans(|img|) && Permute.IsGrid(img, |img|, VIIRS_WIDTH)
    ensures Permute.IsIndexGrid(SortGrid(|img|), |img|, VIIRS_WIDTH)
    ensures Permute.Scatter(SortGrid(|img|), Permute.Gather(SortGrid(|img|), img, VIIRS_WIDTH), 0.0, VIIRS_WIDTH) == img
    ensures Permute.Gather(SortGrid(|img|), Permute.Scatter(SortGrid(|img|), img, 0.0, VIIRS_WIDTH), VIIRS_WIDTH) == img
  {
    SortGridColumnsArePermutations(|img|);
    Permute.UnsortAfterSort(SortGrid(|img|), img, 0.0, VIIRS_WIDTH);
    Permute.SortAfterUnsort(SortGrid(|img|), img, 0.0, VIIRS_WIDTH);
  }

  /** The sorted image resampled column by column: dst in resample_viirs before it is unsorted. */
  ghost function SortedResampled(img: seq<seq<real>>, lat: seq<seq<real>>, lon: seq<seq<real>>,
                                 delval: real, dist: Distance, kernel: Kernel): (s: seq<seq<real>>)
    requires WholeScans(|img|)
    requires Permute.IsGrid(img, |img|, VIIRS_WIDTH) && Permute.IsGrid(lat, |img|, VIIRS_WIDTH) && Permute.IsGrid(lon, |img|, VIIRS_WIDTH)
    ensures Permute.IsGrid(s, |img|, VIIRS_WIDTH)
  {
    var g := SortGrid(|img|);
    SortGridUsable(|img|);
    ResampleColumn.Resampled2d(g, Permute.Gather(g, img, VIIRS_WIDTH), Permute.Gather(g, lat, VIIRS_WIDTH),
                               Permute.Gather(g, lon, VIIRS_WIDTH), lon, VIIRS_WIDTH, delval, dist, kernel)
  }

  /**
   * The image resample_viirs leaves behind for image img, latitude lat and
   * longitude lon of an accepted shape: the resampled sorted image, unsorted.
   */
  ghost function ResampledImage(img: seq<seq<real>>, lat: seq<seq<real>>, lon: seq<seq<real>>,
                                delval: real, dist: Distance, kernel: Kernel): (r: seq<seq<real>>)
    requires WholeScans(|img|)
    requires Permute.IsGrid(img, |img|, VIIRS_WIDTH) && Permute.IsGrid(lat, |img|, VIIRS_WIDTH) && Permute.IsGrid(lon, |img|, VIIRS_WIDTH)
    ensures Permute.IsGrid(r, |img|, VIIRS_WIDTH)
  {
    SortGridUsable(|img|);
    Permute.Scatter(SortGrid(|img|), SortedResampled(img, lat, lon, delval, dist, kernel), 0.0, VIIRS_WIDTH)
  }

  /** Sorting the image resample_viirs leaves behind gives back the resampled sorted image: unsorting loses nothing. */
  lemma ResampledImageResorts(img: seq<seq<real>>, lat: seq<seq<real>>, lon: seq<seq<real>>,
                              delval: real, dist: Distance, kernel: Kernel)
    requires WholeScans(|img|)
    requires Permute.IsGrid(img, |img|, VIIRS_WIDTH) && Permute.IsGrid(lat, |img|, VIIRS_WIDTH) && Permute.IsGrid(lon, |img|, VIIRS_WIDTH)
    ensures Permute.IsIndexGrid(SortGrid(|img|), |img|, VIIRS_WIDTH)
    ensures Permute.Gather(SortGrid(|img|), ResampledImage(img, lat, lon, delval, dist, kernel), VIIRS_WIDTH) ==
            SortedResampled(img, lat, lon, delval, dist, kernel)
  {
    SortGridRoundTrips(SortedResampled(img, lat, lon, delval, dist, kernel));
  }

  /**
   * Pixel (r, x) of the image resample_viirs leaves behind is the resampled
   * value at the one sorted position y whose index is r, so no pixel keeps
   * the zero unsorting starts from. A row the grid leaves in place is its
   * own sorted position, and away from the first and last row it keeps the
   * pixel it had.
   */
  lemma ResampledImageCell(img: seq<seq<real>>, lat: seq<seq<real>>, lon: seq<seq<real>>,
                           delval: real, dist: Distance, kernel: Kernel, r: int, x: int) returns (y: int)
    requires WholeScans(|img|)
    requires Permute.IsGrid(img, |img|, VIIRS_WIDTH) && Permute.IsGrid(lat, |img|, VIIRS_WIDTH) && Permute.IsGrid(lon, |img|, VIIRS_WIDTH)
    requires 0 <= r < |img| && 0 <= x < VIIRS_WIDTH
    ensures 0 <= y < |img| && SortIndexAt(|img|, y, x) == r
    ensures ResampledImage(img, lat, lon, delval, dist, kernel)[r][x] == SortedResampled(img, lat, lon, delval, dist, kernel)[y][x]
    ensures SortIndexAt(|img|, r, x) == r ==> y == r
    ensures SortIndexAt(|img|, r, x) == r && 0 < r < |img| - 1 ==> ResampledImage(img, lat, lon, delval, dist, kernel)[r][x] == img[r][x]
  {
    var g, s := SortGrid(|img|), SortedResampled(img, lat, lon, delval, dist, kernel);
    SortGridColumnsArePermutations(|img|);
    var col := Permute.Column(g, x);
    Permutation.PermutationCovers(col);
    assert r in col;
    y :| 0 <= y < |col| && col[y] == r;
    Permute.OnlyWriter(g, VIIRS_WIDTH, y, x);
    assert ResampledImage(img, lat, lon, delval, dist, kernel)[r][x] == s[y][x];
    if g[r][x] == r {
      Permute.OnlyWriter(g, VIIRS_WIDTH, r, x);
      if 0 < r < |img| - 1 {
        KeptRowResampled(img, lat, lon, delval, dist, kernel, r, x);
      }
    }
  }

  /** An interior row the grid leaves in place keeps its pixel through resampling of the sorted image. */
  lemma KeptRowResampled(img: seq<seq<real>>, lat: seq<seq<real>>, lon: seq<seq<real>>,
                         delval: real, dist: Distance, kernel: Kernel, y: int, x: int)
    requires WholeScans(|img|)
    requires Permute.IsGrid(img, |img|, VIIRS_WIDTH) && Permute.IsGrid(lat, |img|, VIIRS_WIDTH) && Permute.IsGrid(lon, |img|, VIIRS_WIDTH)
    requires 0 < y < |img| - 1 && 0 <= x < VIIRS_WIDTH && SortIndexAt(|img|, y, x) == y
    ensures SortedResampled(img, lat, lon, delval, dist, kernel)[y][x] == img[y][x]
  {
    var g := SortGrid(|img|);
    SortGridUsable(|img|);
    var simg, slat, slon := Permute.Gather(g, img, VIIRS_WIDTH), Permute.Gather(g, lat, VIIRS_WIDTH), Permute.Gather(g, lon, VIIRS_WIDTH);
    ResampleColumn.KeptInteriorRow(g, simg, slat, slon, lon, VIIRS_WIDTH, delval, dist, kernel, y, x);
  }

  /** `dst.copyTo(img)`: img takes the contents src had. */
  method CopyInto(src: array2<real>, img: array2<real>)
    requires src.Length0 == img.Length0 && src.Length1 == img.Length1
    modifies img
    ensures Permute.Cells(img) == old(Permute.Cells(src))
  {
    ghost var S := Permute.Cells(src);
    for y := 0 to img.Length0
      invariant forall y', x :: 0 <= y' < y && 0 <= x < img.Length1 ==> img[y', x] == S[y'][x]
      invariant forall y', x :: y <= y' < img.Length0 && 0 <= x < img.Length1 ==> src[y', x] == S[y'][x]
    {
      for x := 0 to img.Length1
        invariant forall y', x' :: 0 <= y' < y && 0 <= x' < img.Length1 ==> img[y', x'] == S[y'][x']
        invariant forall x' :: 0 <= x' < x ==> img[y, x'] == S[y][x']
        invariant forall y', x' :: y <= y' < img.Length0 && 0 <= x' < img.Length1 && (y' > y || x' >= x) ==> src[y', x'] == S[y'][x']
      {
        img[y, x] := src[y, x];
      }
    }
    Permute.GridsEqual(Permute.Cells(img), S, img.Length0, img.Length1);
  }

  /**
   * resample_viirs: for an ny by nx granule, a shape other than whole
   * scans of width 3200 is fatal (false, exit status 2) and leaves img
   * alone; otherwise img becomes ResampledImage of its old contents, and
   * lat and lon are not modified. delval is the deletion-zone value.
   */
  method ResampleViirs(img: array2<real>, lat: array2<real>, lon: array2<real>, nx: int, ny: int,
                       delval: real, dist: Distance, kernel: Kernel) returns (ok: bool)
    requires img.Length0 == lat.Length0 == lon.Length0 == ny && img.Length1 == lat.Length1 == lon.Length1 == nx
    requires img != lat && img != lon
    requires PositiveKernel(kernel)
    modifies img
    ensures ok <==> ShapeAccepted(nx, ny)
    ensures !ok ==> Permute.Cells(img) == old(Permute.Cells(img))
    ensures ok ==> Permute.Cells(img) == ResampledImage(old(Permute.Cells(img)), Permute.Cells(lat), Permute.Cells(lon), delval, dist, kernel)
  {
    if !ShapeAccepted(nx, ny) {
      return false;
    }
    ghost var IMG, LAT, LON := Permute.Cells(img), Permute.Cells(lat), Permute.Cells(lon);
    var sind := GetSortingInd(ny);
    ghost var g := SortGrid(ny);
    Permute.GridsEqual(Permute.Cells(sind), g, ny, nx);
    SortGridUsable(ny);
    var slat := Permute.ResampleSort(sind, lat, 0.0);
    var slon := Permute.ResampleSort(sind, lon, 0.0);
    var simg := Permute.ResampleSort(sind, img, 0.0);
    var dst := ResampleColumn.Resample2d(sind, simg, slat, slon, lon, delval, dist, kernel);
    var unsorted := Permute.ResampleUnsort(sind, dst, 0.0);
    CopyInto(unsorted, img);
    return true;
  }
}
