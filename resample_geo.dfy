/**
 * The geolocation variant of the resampler in resample_geo.cc. It sorts
 * every column into latitude order with argsortlat, as resample_viirs.cc
 * does. It then resamples the sorted image column by column, as
 * resample.cc does, with two differences: a reordered row is approximated
 * at its own sorted longitude rather than an interpolated one, and a row
 * without a valid neighbour becomes -999. The result is only dumped for
 * debugging: the image is never written back, and the entry point always
 * exits with status 3.
 */
module GeoResample {
  import opened Viirs
  import opened Wrappers
  import opened GeoApprox
  import Permute
  import ArgSort
  import ResampleColumn

  /** The swath size resample_viirs passes to argsortlat: the detector rows of one scan. */
  const VIIRS_SWATH_SIZE: int := 16

  /** What geoapprox of resample_geo.cc returns when none of the three samples is valid. */
  const GEO_DELETED: real := -999.0

  /** How resample_viirs of resample_geo.cc ends: a failed assertion, or exit with a status. */
  datatype Exit = Aborted | Exited(status: int)

  /**
   * geoapprox of resample_geo.cc is geoapprox with the deletion value fixed
   * at -999, which is itself out of range: its result is invalid exactly
   * when none of the three samples is valid.
   */
  lemma GeoApproxInvalidIff(t: seq<real>, lat: seq<real>, lon: seq<real>, targlat: real, targlon: real,
                            res: real, dist: Distance, kernel: Kernel)
    requires |t| == |lat| == |lon| == 3 && PositiveKernel(kernel)
    ensures var v := Approximation(t, lat, lon, targlat, targlon, res, GEO_DELETED, dist, kernel);
      (IsInvalid(v) <==> ValidCount(t, 3) == 0) && (ValidCount(t, 3) == 0 ==> v == GEO_DELETED)
  {
    ApproximationBetween(t, lat, lon, targlat, targlon, res, GEO_DELETED, dist, kernel);
  }

  /** Sort indices, sorted image, sorted latitude and sorted longitude: all h by w with h >= 2. */
  ghost predicate GeoShape(sind: seq<seq<int>>, ssrc: seq<seq<real>>, slat: seq<seq<real>>, slon: seq<seq<real>>, w: int)
  {
    |ssrc| >= 2 && Permute.IsGrid(sind, |ssrc|, w) && Permute.IsGrid(ssrc, |ssrc|, w) &&
    Permute.IsGrid(slat, |ssrc|, w) && Permute.IsGrid(slon, |ssrc|, w)
  }

  /**
   * The column buffer dstcol of resample2d after the first j columns: each
   * column is resampled at its own sorted longitudes over what the column
   * before left in the buffer, starting from zeros.
   */
  ghost function GeoColumnBuffer(sind: seq<seq<int>>, ssrc: seq<seq<real>>, slat: seq<seq<real>>, slon: seq<seq<real>>,
                                 w: int, dist: Distance, kernel: Kernel, j: int): (b: seq<real>)
    requires GeoShape(sind, ssrc, slat, slon, w) && 0 <= j <= w
    ensures |b| == |ssrc|
  {
    if j == 0 then seq(|ssrc|, y => 0.0)
    else
      var x := j - 1;
      var lc := Permute.Column(slon, x);
      ResampleColumn.Resampled1d(Permute.Column(sind, x), Permute.Column(ssrc, x), Permute.Column(slat, x), lc, lc,
                                 ResampleColumn.Resolution(slat, slon, x, dist), GEO_DELETED, dist, kernel,
                                 GeoColumnBuffer(sind, ssrc, slat, slon, w, dist, kernel, x))
  }

  /** The image resample2d of resample_geo.cc returns: column x is the column buffer after column x. */
  ghost function GeoResampled2d(sind: seq<seq<int>>, ssrc: seq<seq<real>>, slat: seq<seq<real>>, slon: seq<seq<real>>,
                                w: int, dist: Distance, kernel: Kernel): (g: seq<seq<real>>)
    requires GeoShape(sind, ssrc, slat, slon, w)
    ensures Permute.IsGrid(g, |ssrc|, w)
  {
    seq(|ssrc|, y requires 0 <= y < |ssrc| =>
      seq(w, x requires 0 <= x < w => GeoColumnBuffer(sind, ssrc, slat, slon, w, dist, kernel, x + 1)[y]))
  }

  /** The column buffer after column j is column j resampled at its sorted longitudes over the buffer before it. */
  lemma GeoColumnBufferStep(sind: seq<seq<int>>, ssrc: seq<seq<real>>, slat: seq<seq<real>>, slon: seq<seq<real>>,
                            w: int, dist: Distance, kernel: Kernel, j: int)
    requires GeoShape(sind, ssrc, slat, slon, w) && 0 <= j < w
    ensures GeoColumnBuffer(sind, ssrc, slat, slon, w, dist, kernel, j + 1) ==
      ResampleColumn.Resampled1d(Permute.Column(sind, j), Permute.Column(ssrc, j), Permute.Column(slat, j),
                                 Permute.Column(slon, j), Permute.Column(slon, j),
                                 ResampleColumn.Resolution(slat, slon, j, dist), GEO_DELETED, dist, kernel,
                                 GeoColumnBuffer(sind, ssrc, slat, slon, w, dist, kernel, j))
  {
  }

  /**
   * An interior row of the resampled image: a row sorting kept in place
   * keeps its sorted value; a reordered row is geoapprox of its three
   * sorted neighbours at its own sorted latitude and longitude, with the
   * column's resolution, and is invalid exactly when all three are.
   */
  lemma GeoInteriorRow(sind: seq<seq<int>>, ssrc: seq<seq<real>>, slat: seq<seq<real>>, slon: seq<seq<real>>,
                       w: int, dist: Distance, kernel: Kernel, y: int, x: int)
    requires GeoShape(sind, ssrc, slat, slon, w) && PositiveKernel(kernel)
    requires 0 < y < |ssrc| - 1 && 0 <= x < w
    ensures sind[y][x] == y ==> GeoResampled2d(sind, ssrc, slat, slon, w, dist, kernel)[y][x] == ssrc[y][x]
    ensures sind[y][x] != y ==>
      var c, cl, co := Permute.Column(ssrc, x), Permute.Column(slat, x), Permute.Column(slon, x);
      var v := GeoResampled2d(sind, ssrc, slat, slon, w, dist, kernel)[y][x];
      v == Approximation(c[y - 1..y + 2], cl[y - 1..y + 2], co[y - 1..y + 2], slat[y][x], slon[y][x],
                         ResampleColumn.Resolution(slat, slon, x, dist), GEO_DELETED, dist, kernel) &&
      (IsInvalid(v) <==> IsInvalid(ssrc[y - 1][x]) && IsInvalid(ssrc[y][x]) && IsInvalid(ssrc[y + 1][x]))
  {
    var sc, c, cl, co := Permute.Column(sind, x), Permute.Column(ssrc, x), Permute.Column(slat, x), Permute.Column(slon, x);
    var res := ResampleColumn.Resolution(slat, slon, x, dist);
    var b := GeoColumnBuffer(sind, ssrc, slat, slon, w, dist, kernel, x);
    var r := ResampleColumn.Resampled1d(sc, c, cl, co, co, res, GEO_DELETED, dist, kernel, b);
    GeoColumnBufferStep(sind, ssrc, slat, slon, w, dist, kernel, x);
    assert GeoResampled2d(sind, ssrc, slat, slon, w, dist, kernel)[y][x] == r[y];
    assert r[y] == ResampleColumn.InteriorValue(sc, c, cl, co, co, res, GEO_DELETED, dist, kernel, y);
    assert sc[y] == sind[y][x] && c[y] == ssrc[y][x] && co[y] == slon[y][x] && cl[y] == slat[y][x];
    if sind[y][x] != y {
      var t := c[y - 1..y + 2];
      assert t[0] == ssrc[y - 1][x] && t[1] == ssrc[y][x] && t[2] == ssrc[y + 1][x];
      ValidCountOfThree(t);
      GeoApproxInvalidIff(t, cl[y - 1..y + 2], co[y - 1..y + 2], cl[y], co[y], res, dist, kernel);
    }
  }

  /**
   * The input arrays of resample2d, of one shape with at least two rows,
   * and their contents S, X, LAT and LON.
   */
  ghost predicate GeoSnapshot(sortidx: array2<int>, ssrc: array2<real>, slat: array2<real>, slon: array2<real>,
                              S: seq<seq<int>>, X: seq<seq<real>>, LAT: seq<seq<real>>, LON: seq<seq<real>>)
    reads sortidx, ssrc, slat, slon
  {
    sortidx.Length0 == slat.Length0 == slon.Length0 == ssrc.Length0 &&
    sortidx.Length1 == slat.Length1 == slon.Length1 == ssrc.Length1 &&
    S == Permute.Cells(sortidx) && X == Permute.Cells(ssrc) && LAT == Permute.Cells(slat) && LON == Permute.Cells(slon) &&
    GeoShape(S, X, LAT, LON, ssrc.Length1)
  }

  /**
   * resample2d of resample_geo.cc: resamples every column of the sorted
   * image ssrc with the column's resolution, at the sorted longitudes, in
   * one column buffer reused from column to column.
   */
  method GeoResample2d(ssrc: array2<real>, slat: array2<real>, slon: array2<real>, sortidx: array2<int>,
                       dist: Distance, kernel: Kernel) returns (dst: array2<real>)
    requires ssrc.Length0 >= 2
    requires sortidx.Length0 == slat.Length0 == slon.Length0 == ssrc.Length0
    requires sortidx.Length1 == slat.Length1 == slon.Length1 == ssrc.Length1
    requires PositiveKernel(kernel)
    ensures dst.Length0 == ssrc.Length0 && dst.Length1 == ssrc.Length1
    ensures Permute.Cells(dst) == GeoResampled2d(Permute.Cells(sortidx), Permute.Cells(ssrc), Permute.Cells(slat),
                                                 Permute.Cells(slon), ssrc.Length1, dist, kernel)
  {
    var height, width := ssrc.Length0, ssrc.Length1;
    ghost var S, X, LAT, LON := Permute.Cells(sortidx), Permute.Cells(ssrc), Permute.Cells(slat), Permute.Cells(slon);
    var res := ResampleColumn.Resolutions(slat, slon, dist);
    assert GeoSnapshot(sortidx, ssrc, slat, slon, S, X, LAT, LON);
    dst := new real[height, width]((y, x) => 0.0);
    var dstcol := new real[height](y => 0.0);
    assert dstcol[..] == GeoColumnBuffer(S, X, LAT, LON, width, dist, kernel, 0);
    GeoColumns(sortidx, ssrc, slat, slon, S, X, LAT, LON, res, dist, kernel, dstcol, dst);
    Permute.GridsEqual(Permute.Cells(dst), GeoResampled2d(S, X, LAT, LON, width, dist, kernel), height, width);
  }

  /** The column loop of resample2d, over a column buffer that starts out zero. */
  method GeoColumns(sortidx: array2<int>, ssrc: array2<real>, slat: array2<real>, slon: array2<real>,
                    ghost S: seq<seq<int>>, ghost X: seq<seq<real>>, ghost LAT: seq<seq<real>>, ghost LON: seq<seq<real>>,
                    res: array<real>, dist: Distance, kernel: Kernel, dstcol: array<real>, dst: array2<real>)
    requires GeoSnapshot(sortidx, ssrc, slat, slon, S, X, LAT, LON) && PositiveKernel(kernel)
    requires res.Length == ssrc.Length1 && forall x :: 0 <= x < ssrc.Length1 ==> res[x] == ResampleColumn.Resolution(LAT, LON, x, dist)
    requires dstcol.Length == dst.Length0 == ssrc.Length0 && dst.Length1 == ssrc.Length1
    requires res != dstcol && dst != ssrc && dst != slat && dst != slon
    requires dstcol[..] == GeoColumnBuffer(S, X, LAT, LON, ssrc.Length1, dist, kernel, 0)
    modifies dstcol, dst
    ensures forall y, x :: 0 <= y < dst.Length0 && 0 <= x < dst.Length1 ==>
      dst[y, x] == GeoColumnBuffer(S, X, LAT, LON, ssrc.Length1, dist, kernel, x + 1)[y]
  {
    for j := 0 to ssrc.Length1
      invariant dstcol[..] == GeoColumnBuffer(S, X, LAT, LON, ssrc.Length1, dist, kernel, j)
      invariant GeoColumnsFilled(dst, j, S, X, LAT, LON, dist, kernel)
    {
      GeoColumnInto(sortidx, ssrc, slat, slon, S, X, LAT, LON, j, res[j], dist, kernel, dstcol, dst);
    }
  }

  /**
   * One pass of the column loop of resample2d: copies column j out,
   * resamples it at its sorted longitudes into the reused buffer dstcol and
   * copies the buffer into column j of dst.
   */
  method GeoColumnInto(sortidx: array2<int>, ssrc: array2<real>, slat: array2<real>, slon: array2<real>,
                       ghost S: seq<seq<int>>, ghost X: seq<seq<real>>, ghost LAT: seq<seq<real>>, ghost LON: seq<seq<real>>,
                       j: int, res: real, dist: Distance, kernel: Kernel, dstcol: array<real>, dst: array2<real>)
    requires GeoSnapshot(sortidx, ssrc, slat, slon, S, X, LAT, LON) && PositiveKernel(kernel)
    requires 0 <= j < ssrc.Length1 && res == ResampleColumn.Resolution(LAT, LON, j, dist)
    requires dstcol.Length == dst.Length0 == ssrc.Length0 && dst.Length1 == ssrc.Length1
    requires dstcol[..] == GeoColumnBuffer(S, X, LAT, LON, ssrc.Length1, dist, kernel, j)
    requires GeoColumnsFilled(dst, j, S, X, LAT, LON, dist, kernel)
    modifies dstcol, dst
    ensures dstcol[..] == GeoColumnBuffer(S, X, LAT, LON, ssrc.Length1, dist, kernel, j + 1)
    ensures GeoColumnsFilled(dst, j + 1, S, X, LAT, LON, dist, kernel)
  {
    GeoColumnBuffered(sortidx, ssrc, slat, slon, S, X, LAT, LON, j, res, dist, kernel, dstcol);
    GeoCopyColumnFilled(dstcol, dst, j, S, X, LAT, LON, dist, kernel);
  }

  /** Resamples column j at its sorted longitudes into the reused column buffer. */
  method GeoColumnBuffered(sortidx: array2<int>, ssrc: array2<real>, slat: array2<real>, slon: array2<real>,
                           ghost S: seq<seq<int>>, ghost X: seq<seq<real>>, ghost LAT: seq<seq<real>>, ghost LON: seq<seq<real>>,
                           j: int, res: real, dist: Distance, kernel: Kernel, dstcol: array<real>)
    requires GeoSnapshot(sortidx, ssrc, slat, slon, S, X, LAT, LON) && PositiveKernel(kernel)
    requires 0 <= j < ssrc.Length1 && res == ResampleColumn.Resolution(LAT, LON, j, dist) && dstcol.Length == ssrc.Length0
    requires dstcol[..] == GeoColumnBuffer(S, X, LAT, LON, ssrc.Length1, dist, kernel, j)
    modifies dstcol
    ensures dstcol[..] == GeoColumnBuffer(S, X, LAT, LON, ssrc.Length1, dist, kernel, j + 1)
  {
    var sindcol, ssrccol := Permute.ArrayColumn(sortidx, j), Permute.ArrayColumn(ssrc, j);
    var slatcol, sloncol := Permute.ArrayColumn(slat, j), Permute.ArrayColumn(slon, j);
    ResampleColumn.Resample1d(sindcol, ssrccol, slatcol, sloncol, sloncol, ssrc.Length0, res, GEO_DELETED, dist, kernel, dstcol);
    GeoColumnBufferStep(S, X, LAT, LON, ssrc.Length1, dist, kernel, j);
  }

  /**
   * Columns 0 .. j-1 of dst hold the column buffers after those columns,
   * for the grids S, X, LAT and LON (which fix the height and width).
   */
  ghost predicate GeoColumnsFilled(dst: array2<real>, j: int, S: seq<seq<int>>, X: seq<seq<real>>, LAT: seq<seq<real>>,
                                   LON: seq<seq<real>>, dist: Distance, kernel: Kernel)
    reads dst
  {
    GeoShape(S, X, LAT, LON, dst.Length1) && |X| == dst.Length0 && 0 <= j <= dst.Length1 &&
    forall y, x :: 0 <= y < dst.Length0 && 0 <= x < j ==>
      dst[y, x] == GeoColumnBuffer(S, X, LAT, LON, dst.Length1, dist, kernel, x + 1)[y]
  }

  /** Copies the column buffer after column j into column j of dst. */
  method GeoCopyColumnFilled(dstcol: array<real>, dst: array2<real>, j: int,
                             ghost S: seq<seq<int>>, ghost X: seq<seq<real>>, ghost LAT: seq<seq<real>>, ghost LON: seq<seq<real>>,
                             dist: Distance, kernel: Kernel)
    requires GeoColumnsFilled(dst, j, S, X, LAT, LON, dist, kernel) && j < dst.Length1
    requires dstcol.Length == dst.Length0
    requires dstcol[..] == GeoColumnBuffer(S, X, LAT, LON, dst.Length1, dist, kernel, j + 1)
    modifies dst
    ensures GeoColumnsFilled(dst, j + 1, S, X, LAT, LON, dist, kernel)
  {
    ResampleColumn.CopyColumnInto(dstcol, dst, j);
    assert forall y :: 0 <= y < dst.Length0 ==> dst[y, j] == dstcol[..][y];
  }

  /**
   * What resample_viirs of resample_geo.cc computes (and dumps) for image
   * img, latitude lat and longitude lon when argsortlat chose the sort
   * indices g: resample2d of the three sorted by g.
   */
  ghost function GeoResampledImage(img: seq<seq<real>>, lat: seq<seq<real>>, lon: seq<seq<real>>, g: seq<seq<int>>,
                                   w: int, dist: Distance, kernel: Kernel): (out: seq<seq<real>>)
    requires ArgSort.ArgSorted(lat, g, VIIRS_SWATH_SIZE, w) && |lat| >= 2
    requires Permute.IsGrid(img, |lat|, w) && Permute.IsGrid(lon, |lat|, w)
    ensures Permute.IsGrid(out, |lat|, w)
  {
    ArgSort.ArgSortedPermutes(lat, g, VIIRS_SWATH_SIZE, w);
    GeoResampled2d(g, Permute.Gather(g, img, w), Permute.Gather(g, lat, w), Permute.Gather(g, lon, w), w, dist, kernel)
  }

  /**
   * resample_viirs of resample_geo.cc: argsortlat with swath size 16 (a
   * pole conflict aborts), then resample2d of the sorted image, latitude
   * and longitude into `after`, then exit with status 3. img, lat and lon
   * are only read; the granule needs two rows, which resample2d reads.
   */
  method GeoResampleViirs(img: array2<real>, lat: array2<real>, lon: array2<real>, nx: int, ny: int,
                          dist: Distance, kernel: Kernel) returns (exit: Exit, after: array2<real>, ghost g: seq<seq<int>>)
    requires img.Length0 == lat.Length0 == lon.Length0 == ny && img.Length1 == lat.Length1 == lon.Length1 == nx
    requires ny >= 2 && PositiveKernel(kernel)
    ensures exit == if ArgSort.NoPoleConflict(Permute.Cells(lat), VIIRS_SWATH_SIZE, nx) then Exited(3) else Aborted
    ensures exit.Exited? ==> ArgSort.ArgSorted(Permute.Cells(lat), g, VIIRS_SWATH_SIZE, nx)
    ensures exit.Exited? ==> after.Length0 == ny && after.Length1 == nx
    ensures exit.Exited? ==>
      Permute.Cells(after) == GeoResampledImage(Permute.Cells(img), Permute.Cells(lat), Permute.Cells(lon), g, nx, dist, kernel)
  {
    var sorted, sind := ArgSort.ArgSortLat(lat, VIIRS_SWATH_SIZE);
    g := Permute.Cells(sind);
    if !sorted {
      after := new real[0, 0];
      return Aborted, after, g;
    }
    ArgSort.ArgSortedPermutes(Permute.Cells(lat), g, VIIRS_SWATH_SIZE, nx);
    var slat := Permute.ResampleSort(sind, lat, 0.0);
    var slon := Permute.ResampleSort(sind, lon, 0.0);
    var simg := Permute.ResampleSort(sind, img, 0.0);
    after := GeoResample2d(simg, slat, slon, sind, dist, kernel);
    exit := Exited(3);
  }
}
