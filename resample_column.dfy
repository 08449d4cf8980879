/**
 * The column resampler of resample.cc (resample1d and resample2d). Every
 * column of the sorted image is resampled on its own: the first and last
 * rows take the first and last valid sample, rows that sorting left in
 * place keep their sample, and every reordered row is approximated from the
 * three sorted rows around it at the row's own latitude and interpolated
 * longitude.
 */
module ResampleColumn {
  import opened Viirs
  import opened Wrappers
  import opened GeoApprox
  import InterpLon
  import Permute

  /** The first valid sample among t[0..n), if any. */
  function FirstValid(t: seq<real>, n: int): (k: Option<int>)
    requires 0 <= n <= |t|
    ensures k.None? ==> forall i :: 0 <= i < n ==> IsInvalid(t[i])
    ensures k.Some? ==> 0 <= k.value < n && !IsInvalid(t[k.value]) && forall i :: 0 <= i < k.value ==> IsInvalid(t[i])
  {
    if n == 0 then None
    else match FirstValid(t, n - 1)
      case Some(k) => Some(k)
      case None => if IsInvalid(t[n - 1]) then None else Some(n - 1)
  }

  /** The last valid sample among t[0..n), if any. */
  function LastValid(t: seq<real>, n: int): (k: Option<int>)
    requires 0 <= n <= |t|
    ensures k.None? ==> forall i :: 0 <= i < n ==> IsInvalid(t[i])
    ensures k.Some? ==> 0 <= k.value < n && !IsInvalid(t[k.value]) && forall i :: k.value < i < n ==> IsInvalid(t[i])
  {
    if n == 0 then None
    else if !IsInvalid(t[n - 1]) then Some(n - 1)
    else LastValid(t, n - 1)
  }

  /** The sample at the found row, or what the output row held before when nothing was found. */
  function EdgeValue(k: Option<int>, t: seq<real>, stale: real): real
    requires k.Some? ==> 0 <= k.value < |t|
  {
    match k
    case None => stale
    case Some(i) => t[i]
  }

  /** Inputs of one column: five sequences of one length n >= 2, the last the target longitudes. */
  predicate ColumnShape(sind: seq<int>, sval: seq<real>, slat: seq<real>, slon: seq<real>, tlon: seq<real>)
  {
    |sind| == |sval| == |slat| == |slon| == |tlon| && |sind| >= 2
  }

  /**
   * The resampled value of interior row i: its own sample when sorting kept
   * it in place, otherwise the approximation from sorted rows i-1..i+1 at
   * the target (slat[i], tlon[i]).
   */
  function InteriorValue(sind: seq<int>, sval: seq<real>, slat: seq<real>, slon: seq<real>, tlon: seq<real>,
                         res: real, delval: real, dist: Distance, kernel: Kernel, i: int): real
    requires ColumnShape(sind, sval, slat, slon, tlon) && 1 <= i < |sind| - 1
  {
    if sind[i] == i then sval[i]
    else Approximation(sval[i - 1..i + 2], slat[i - 1..i + 2], slon[i - 1..i + 2], slat[i], tlon[i], res, delval, dist, kernel)
  }

  /**
   * The column resample1d leaves in rval, given what rval held before
   * (stale): row 0 is the first valid sample above the last row, the last
   * row the last valid sample, each kept as it was when there is none, and
   * interior rows are InteriorValue.
   */
  function Resampled1d(sind: seq<int>, sval: seq<real>, slat: seq<real>, slon: seq<real>, tlon: seq<real>,
                       res: real, delval: real, dist: Distance, kernel: Kernel, stale: seq<real>): (r: seq<real>)
    requires ColumnShape(sind, sval, slat, slon, tlon) && |stale| == |sind|
    ensures |r| == |sind|
  {
    var n := |sind|;
    seq(n, i requires 0 <= i < n =>
      if i == 0 then EdgeValue(FirstValid(sval, n - 1), sval, stale[0])
      else if i == n - 1 then EdgeValue(LastValid(sval, n), sval, stale[n - 1])
      else InteriorValue(sind, sval, slat, slon, tlon, res, delval, dist, kernel, i))
  }

  /**
   * The first row takes the first valid sample that is not in the last
   * row, the last row takes the last valid sample, and a column without
   * one leaves the edge rows as they were.
   */
  lemma EdgeRows(sind: seq<int>, sval: seq<real>, slat: seq<real>, slon: seq<real>, tlon: seq<real>,
                 res: real, delval: real, dist: Distance, kernel: Kernel, stale: seq<real>)
    requires ColumnShape(sind, sval, slat, slon, tlon) && |stale| == |sind|
    ensures var r, n := Resampled1d(sind, sval, slat, slon, tlon, res, delval, dist, kernel, stale), |sind|;
      ((exists k :: 0 <= k < n - 1 && !IsInvalid(sval[k]) && r[0] == sval[k] && forall i :: 0 <= i < k ==> IsInvalid(sval[i])) ||
       ((forall i :: 0 <= i < n - 1 ==> IsInvalid(sval[i])) && r[0] == stale[0])) &&
      ((exists k :: 0 <= k < n && !IsInvalid(sval[k]) && r[n - 1] == sval[k] && forall i :: k < i < n ==> IsInvalid(sval[i])) ||
       ((forall i :: 0 <= i < n ==> IsInvalid(sval[i])) && r[n - 1] == stale[n - 1]))
  {
    var n := |sind|;
    var r := Resampled1d(sind, sval, slat, slon, tlon, res, delval, dist, kernel, stale);
    var f, l := FirstValid(sval, n - 1), LastValid(sval, n);
    assert r[0] == EdgeValue(f, sval, stale[0]);
    assert r[n - 1] == EdgeValue(l, sval, stale[n - 1]);
    if f.Some? {
      var k := f.value;
      assert 0 <= k < n - 1 && !IsInvalid(sval[k]) && r[0] == sval[k] && forall i :: 0 <= i < k ==> IsInvalid(sval[i]);
    }
    if l.Some? {
      var k := l.value;
      assert 0 <= k < n && !IsInvalid(sval[k]) && r[n - 1] == sval[k] && forall i :: k < i < n ==> IsInvalid(sval[i]);
    }
  }

  /**
   * A reordered interior row with at least one valid neighbour gets a
   * value between the smallest and the largest valid neighbour, so it is
   * valid itself; with none it gets delval.
   */
  lemma ReorderedRowBetweenNeighbours(sind: seq<int>, sval: seq<real>, slat: seq<real>, slon: seq<real>, tlon: seq<real>,
                                      res: real, delval: real, dist: Distance, kernel: Kernel, i: int)
    requires ColumnShape(sind, sval, slat, slon, tlon) && 1 <= i < |sind| - 1 && sind[i] != i
    requires PositiveKernel(kernel)
    ensures var t, v := sval[i - 1..i + 2], InteriorValue(sind, sval, slat, slon, tlon, res, delval, dist, kernel, i);
      (ValidCount(t, 3) == 0 ==> v == delval) &&
      (ValidCount(t, 3) > 0 ==> MinValid(t, 3) <= v <= MaxValid(t, 3) && !IsInvalid(v))
  {
    var t := sval[i - 1..i + 2];
    ApproximationBetween(t, slat[i - 1..i + 2], slon[i - 1..i + 2], slat[i], tlon[i], res, delval, dist, kernel);
  }

  /**
   * resample1d: writes the resampled column into rval, which the caller
   * reuses from column to column. The column must have at least two rows
   * (the source reads rows 0 and 1 unconditionally).
   */
  method Resample1d(sind: seq<int>, sval: seq<real>, slat: seq<real>, slon: seq<real>, tlon: seq<real>,
                    n: int, res: real, delval: real, dist: Distance, kernel: Kernel, rval: array<real>)
    requires ColumnShape(sind, sval, slat, slon, tlon) && n == |sind| == rval.Length
    requires PositiveKernel(kernel)
    modifies rval
    ensures rval[..] == Resampled1d(sind, sval, slat, slon, tlon, res, delval, dist, kernel, old(rval[..]))
  {
    ghost var stale := rval[..];
    FirstRow(sval, n, rval);
    var i := InteriorRows(sind, sval, slat, slon, tlon, n, res, delval, dist, kernel, rval);
    LastRow(sval, i, rval);
    ghost var r := Resampled1d(sind, sval, slat, slon, tlon, res, delval, dist, kernel, stale);
    assert forall j :: 0 <= j < n ==> rval[j] == r[j];
    assert rval[..] == r;
  }

  /** The first loop of resample1d: row 0 takes the first valid sample among rows 0..n-2. */
  method FirstRow(sval: seq<real>, n: int, rval: array<real>)
    requires 2 <= n == |sval| == rval.Length
    modifies rval
    ensures rval[0] == EdgeValue(FirstValid(sval, n - 1), sval, old(rval[0]))
    ensures forall j :: 1 <= j < n ==> rval[j] == old(rval[j])
  {
    var i := 0;
    while i < n - 1
      invariant 0 <= i <= n - 1
      invariant forall j :: 0 <= j < i ==> IsInvalid(sval[j])
      invariant forall j :: 0 <= j < n ==> rval[j] == old(rval[j])
    {
      if !IsInvalid(sval[i]) {
        rval[0] := sval[i];
        break;
      }
      i := i + 1;
    }
  }

  /** The middle loop of resample1d; it returns where its index stopped, n-1. */
  method InteriorRows(sind: seq<int>, sval: seq<real>, slat: seq<real>, slon: seq<real>, tlon: seq<real>,
                      n: int, res: real, delval: real, dist: Distance, kernel: Kernel, rval: array<real>) returns (i: int)
    requires ColumnShape(sind, sval, slat, slon, tlon) && n == |sind| == rval.Length
    requires PositiveKernel(kernel)
    modifies rval
    ensures i == n - 1
    ensures forall j :: 1 <= j < n - 1 ==> rval[j] == InteriorValue(sind, sval, slat, slon, tlon, res, delval, dist, kernel, j)
    ensures rval[0] == old(rval[0]) && rval[n - 1] == old(rval[n - 1])
  {
    i := 1;
    while i < n - 1
      invariant 1 <= i <= n - 1
      invariant rval[0] == old(rval[0])
      invariant forall j :: 1 <= j < i ==> rval[j] == InteriorValue(sind, sval, slat, slon, tlon, res, delval, dist, kernel, j)
      invariant forall j :: i <= j < n ==> rval[j] == old(rval[j])
    {
      if sind[i] == i {
        rval[i] := sval[i];
      } else {
        var v := GeoApprox.GeoApprox(sval[i - 1..i + 2], slat[i - 1..i + 2], slon[i - 1..i + 2], slat[i], tlon[i], res, delval, dist, kernel);
        rval[i] := v;
      }
      i := i + 1;
    }
  }

  /** The last loop of resample1d: row i = n-1 takes the last valid sample among rows 0..n-1. */
  method LastRow(sval: seq<real>, i: int, rval: array<real>)
    requires 1 <= i && i + 1 == |sval| == rval.Length
    modifies rval
    ensures rval[i] == EdgeValue(LastValid(sval, i + 1), sval, old(rval[i]))
    ensures forall j :: 0 <= j < i ==> rval[j] == old(rval[j])
  {
    var k := i;
    while k >= 0
      invariant -1 <= k <= i
      invariant forall j :: k < j <= i ==> IsInvalid(sval[j])
      invariant forall j :: 0 <= j <= i ==> rval[j] == old(rval[j])
    {
      if !IsInvalid(sval[k]) {
        rval[i] := sval[k];
        break;
      }
      k := k - 1;
    }
    var lv := LastValid(sval, i + 1);
    if k >= 0 {
      assert lv.Some? && lv.value <= k by {
        assert !IsInvalid(sval[k]);
      }
      assert lv == Some(k);
    } else {
      assert forall j :: 0 <= j <= i ==> IsInvalid(sval[j]);
      assert lv.None?;
    }
  }

  /** The resolution of column x: the distance between its first two sorted rows. */
  function Resolution(slat: seq<seq<real>>, slon: seq<seq<real>>, x: int, dist: Distance): real
    requires |slat| >= 2 && |slon| >= 2 && 0 <= x < |slat[0]| && x < |slat[1]| && x < |slon[0]| && x < |slon[1]|
  {
    dist(slat[0][x], slon[0][x], slat[1][x], slon[1][x])
  }

  /** Sorted image, sort indices, sorted latitude and longitude and unsorted longitude, all h by w with h >= 2. */
  ghost predicate GridShape(sind: seq<seq<int>>, ssrc: seq<seq<real>>, slat: seq<seq<real>>, slon: seq<seq<real>>,
                            lon: seq<seq<real>>, w: int)
  {
    |ssrc| >= 2 && Permute.IsGrid(sind, |ssrc|, w) && Permute.IsGrid(ssrc, |ssrc|, w) &&
    Permute.IsGrid(slat, |ssrc|, w) && Permute.IsGrid(slon, |ssrc|, w) && Permute.IsGrid(lon, |ssrc|, w)
  }

  /** Column x has a row that sorting leaves in place. */
  ghost predicate AnchoredAt(sind: seq<seq<int>>, x: int)
  {
    exists y :: 0 <= y < |sind| && 0 <= x < |sind[y]| && sind[y][x] == y
  }

  /** Every column has a row that sorting leaves in place. */
  ghost predicate HasAnchors(sind: seq<seq<int>>, w: int)
  {
    forall x :: 0 <= x < w ==> AnchoredAt(sind, x)
  }

  lemma AnchoredColumn(sind: seq<seq<int>>, slon: seq<seq<real>>, lon: seq<seq<real>>, w: int, x: int)
    requires Permute.IsGrid(sind, |sind|, w) && Permute.IsGrid(slon, |sind|, w) && Permute.IsGrid(lon, |sind|, w)
    requires HasAnchors(sind, w) && 0 <= x < w
    ensures InterpLon.ValidColumn(Permute.Column(sind, x), Permute.Column(slon, x), Permute.Column(lon, x))
  {
    assert AnchoredAt(sind, x);
    var y :| 0 <= y < |sind| && 0 <= x < |sind[y]| && sind[y][x] == y;
    assert Permute.Column(sind, x)[y] == y;
  }

  /**
   * The column buffer dstcol after the first j columns: each column is
   * resampled over what the previous column left in it, starting from zeros.
   */
  ghost function ColumnBuffer(sind: seq<seq<int>>, ssrc: seq<seq<real>>, slat: seq<seq<real>>, slon: seq<seq<real>>,
                              lon: seq<seq<real>>, w: int, delval: real, dist: Distance, kernel: Kernel, j: int): (b: seq<real>)
    requires GridShape(sind, ssrc, slat, slon, lon, w) && HasAnchors(sind, w) && 0 <= j <= w
    ensures |b| == |ssrc|
  {
    if j == 0 then seq(|ssrc|, y => 0.0)
    else
      var x := j - 1;
      var sc, lc := Permute.Column(sind, x), Permute.Column(slon, x);
      AnchoredColumn(sind, slon, lon, w, x);
      Resampled1d(sc, Permute.Column(ssrc, x), Permute.Column(slat, x), lc,
                  InterpLon.InterpColumn(sc, lc, Permute.Column(lon, x)),
                  Resolution(slat, slon, x, dist), delval, dist, kernel,
                  ColumnBuffer(sind, ssrc, slat, slon, lon, w, delval, dist, kernel, x))
  }

  /** The image resample2d returns: column x is the column buffer after column x. */
  ghost function Resampled2d(sind: seq<seq<int>>, ssrc: seq<seq<real>>, slat: seq<seq<real>>, slon: seq<seq<real>>,
                             lon: seq<seq<real>>, w: int, delval: real, dist: Distance, kernel: Kernel): (g: seq<seq<real>>)
    requires GridShape(sind, ssrc, slat, slon, lon, w) && HasAnchors(sind, w)
    ensures Permute.IsGrid(g, |ssrc|, w)
    ensures forall y, x :: 0 <= y < |ssrc| && 0 <= x < w ==>
      g[y][x] == ColumnBuffer(sind, ssrc, slat, slon, lon, w, delval, dist, kernel, x + 1)[y]
  {
    seq(|ssrc|, y requires 0 <= y < |ssrc| =>
      seq(w, x requires 0 <= x < w => ColumnBuffer(sind, ssrc, slat, slon, lon, w, delval, dist, kernel, x + 1)[y]))
  }

  /**
   * resample2d: resamples every column of the sorted image ssrc with the
   * column's resolution, the longitudes interplon makes monotonic and one
   * column buffer reused from column to column.
   */
  method Resample2d(sind: array2<int>, ssrc: array2<real>, slat: array2<real>, slon: array2<real>, lon: array2<real>,
                    delval: real, dist: Distance, kernel: Kernel) returns (dst: array2<real>)
    requires ssrc.Length0 >= 2
    requires sind.Length0 == slat.Length0 == slon.Length0 == lon.Length0 == ssrc.Length0
    requires sind.Length1 == slat.Length1 == slon.Length1 == lon.Length1 == ssrc.Length1
    requires HasAnchors(Permute.Cells(sind), ssrc.Length1)
    requires PositiveKernel(kernel)
    ensures dst.Length0 == ssrc.Length0 && dst.Length1 == ssrc.Length1
    ensures Permute.Cells(dst) == Resampled2d(Permute.Cells(sind), Permute.Cells(ssrc), Permute.Cells(slat), Permute.Cells(slon),
                                              Permute.Cells(lon), ssrc.Length1, delval, dist, kernel)
  {
    var height, width := ssrc.Length0, ssrc.Length1;
    ghost var S, X, LAT, LON, L := Permute.Cells(sind), Permute.Cells(ssrc), Permute.Cells(slat), Permute.Cells(slon), Permute.Cells(lon);
    var res := Resolutions(slat, slon, dist);
    assert Snapshot(sind, ssrc, slat, slon, lon, S, X, LAT, LON, L);
    dst := new real[height, width]((y, x) => 0.0);
    var dstcol := new real[height](y => 0.0);
    var iloncol := new real[height](y => 0.0);
    assert GridShape(S, X, LAT, LON, L, width);
    assert dstcol[..] == ColumnBuffer(S, X, LAT, LON, L, width, delval, dist, kernel, 0);
    ResampleColumns(sind, ssrc, slat, slon, lon, S, X, LAT, LON, L, res, delval, dist, kernel, iloncol, dstcol, dst);
    BuffersMakeResampled2d(S, X, LAT, LON, L, width, delval, dist, kernel, Permute.Cells(dst));
  }

  /**
   * The input arrays of resample2d, of one shape with at least two rows and
   * an anchor in every column, and their contents S, X, LAT, LON and L.
   */
  ghost predicate Snapshot(sind: array2<int>, ssrc: array2<real>, slat: array2<real>, slon: array2<real>, lon: array2<real>,
                           S: seq<seq<int>>, X: seq<seq<real>>, LAT: seq<seq<real>>, LON: seq<seq<real>>, L: seq<seq<real>>)
    reads sind, ssrc, slat, slon, lon
  {
    sind.Length0 == slat.Length0 == slon.Length0 == lon.Length0 == ssrc.Length0 &&
    sind.Length1 == slat.Length1 == slon.Length1 == lon.Length1 == ssrc.Length1 &&
    S == Permute.Cells(sind) && X == Permute.Cells(ssrc) && LAT == Permute.Cells(slat) &&
    LON == Permute.Cells(slon) && L == Permute.Cells(lon) &&
    GridShape(S, X, LAT, LON, L, ssrc.Length1) && HasAnchors(S, ssrc.Length1)
  }

  /** The column loop of resample2d, over a column buffer that starts out zero. */
  method ResampleColumns(sind: array2<int>, ssrc: array2<real>, slat: array2<real>, slon: array2<real>, lon: array2<real>,
                         ghost S: seq<seq<int>>, ghost X: seq<seq<real>>, ghost LAT: seq<seq<real>>,
                         ghost LON: seq<seq<real>>, ghost L: seq<seq<real>>,
                         res: array<real>, delval: real, dist: Distance, kernel: Kernel,
                         iloncol: array<real>, dstcol: array<real>, dst: array2<real>)
    requires Snapshot(sind, ssrc, slat, slon, lon, S, X, LAT, LON, L) && PositiveKernel(kernel)
    requires res.Length == ssrc.Length1 && forall x :: 0 <= x < ssrc.Length1 ==> res[x] == Resolution(LAT, LON, x, dist)
    requires iloncol.Length == dstcol.Length == dst.Length0 == ssrc.Length0 && dst.Length1 == ssrc.Length1 && iloncol != dstcol
    requires res != iloncol && res != dstcol && dst != ssrc && dst != slat && dst != slon && dst != lon
    requires dstcol[..] == ColumnBuffer(S, X, LAT, LON, L, ssrc.Length1, delval, dist, kernel, 0)
    modifies iloncol, dstcol, dst
    ensures forall y, x :: 0 <= y < dst.Length0 && 0 <= x < dst.Length1 ==>
      dst[y, x] == ColumnBuffer(S, X, LAT, LON, L, ssrc.Length1, delval, dist, kernel, x + 1)[y]
  {
    for j := 0 to ssrc.Length1
      invariant dstcol[..] == ColumnBuffer(S, X, LAT, LON, L, ssrc.Length1, delval, dist, kernel, j)
      invariant ColumnsFilled(dst, j, S, X, LAT, LON, L, delval, dist, kernel)
    {
      ResampleColumnInto(sind, ssrc, slat, slon, lon, S, X, LAT, LON, L, j, res[j], delval, dist, kernel, iloncol, dstcol, dst);
    }
  }

  /** The column buffer after column j is column j resampled over the buffer before it. */
  lemma ColumnBufferStep(sind: seq<seq<int>>, ssrc: seq<seq<real>>, slat: seq<seq<real>>, slon: seq<seq<real>>,
                         lon: seq<seq<real>>, w: int, delval: real, dist: Distance, kernel: Kernel, j: int)
    requires GridShape(sind, ssrc, slat, slon, lon, w) && HasAnchors(sind, w) && 0 <= j < w
    ensures InterpLon.ValidColumn(Permute.Column(sind, j), Permute.Column(slon, j), Permute.Column(lon, j))
    ensures ColumnBuffer(sind, ssrc, slat, slon, lon, w, delval, dist, kernel, j + 1) ==
      Resampled1d(Permute.Column(sind, j), Permute.Column(ssrc, j), Permute.Column(slat, j), Permute.Column(slon, j),
                  InterpLon.InterpColumn(Permute.Column(sind, j), Permute.Column(slon, j), Permute.Column(lon, j)),
                  Resolution(slat, slon, j, dist), delval, dist, kernel,
                  ColumnBuffer(sind, ssrc, slat, slon, lon, w, delval, dist, kernel, j))
  {
    AnchoredColumn(sind, slon, lon, w, j);
  }

  /** A grid whose every column is the column buffer after that column is the resampled image. */
  lemma BuffersMakeResampled2d(sind: seq<seq<int>>, ssrc: seq<seq<real>>, slat: seq<seq<real>>, slon: seq<seq<real>>,
                               lon: seq<seq<real>>, w: int, delval: real, dist: Distance, kernel: Kernel, d: seq<seq<real>>)
    requires GridShape(sind, ssrc, slat, slon, lon, w) && HasAnchors(sind, w) && Permute.IsGrid(d, |ssrc|, w)
    requires forall y, x :: 0 <= y < |ssrc| && 0 <= x < w ==>
      d[y][x] == ColumnBuffer(sind, ssrc, slat, slon, lon, w, delval, dist, kernel, x + 1)[y]
    ensures d == Resampled2d(sind, ssrc, slat, slon, lon, w, delval, dist, kernel)
  {
    Permute.GridsEqual(d, Resampled2d(sind, ssrc, slat, slon, lon, w, delval, dist, kernel), |ssrc|, w);
  }

  /** An interior row that sorting left in place keeps its sorted value through resample2d. */
  lemma KeptInteriorRow(sind: seq<seq<int>>, ssrc: seq<seq<real>>, slat: seq<seq<real>>, slon: seq<seq<real>>,
                        lon: seq<seq<real>>, w: int, delval: real, dist: Distance, kernel: Kernel, y: int, x: int)
    requires GridShape(sind, ssrc, slat, slon, lon, w) && HasAnchors(sind, w)
    requires 0 < y < |ssrc| - 1 && 0 <= x < w && sind[y][x] == y
    ensures Resampled2d(sind, ssrc, slat, slon, lon, w, delval, dist, kernel)[y][x] == ssrc[y][x]
  {
    ColumnBufferStep(sind, ssrc, slat, slon, lon, w, delval, dist, kernel, x);
    var sc, c := Permute.Column(sind, x), Permute.Column(ssrc, x);
    assert sc[y] == y && c[y] == ssrc[y][x];
  }

  /** The resolution of every column, from the first two sorted rows. */
  method Resolutions(slat: array2<real>, slon: array2<real>, dist: Distance) returns (res: array<real>)
    requires slat.Length0 == slon.Length0 >= 2 && slat.Length1 == slon.Length1
    ensures res.Length == slat.Length1
    ensures forall x :: 0 <= x < slat.Length1 ==> res[x] == Resolution(Permute.Cells(slat), Permute.Cells(slon), x, dist)
  {
    res := new real[slat.Length1](j => 0.0);
    for j := 0 to slat.Length1
      invariant forall x :: 0 <= x < j ==> res[x] == dist(slat[0, x], slon[0, x], slat[1, x], slon[1, x])
    {
      res[j] := dist(slat[0, j], slon[0, j], slat[1, j], slon[1, j]);
    }
  }

  /**
   * One pass of the column loop of resample2d: copies column j out,
   * interpolates its longitude, resamples it into the reused buffer dstcol
   * and copies the buffer into column j of dst.
   */
  method ResampleColumnInto(sind: array2<int>, ssrc: array2<real>, slat: array2<real>, slon: array2<real>, lon: array2<real>,
                            ghost S: seq<seq<int>>, ghost X: seq<seq<real>>, ghost LAT: seq<seq<real>>,
                            ghost LON: seq<seq<real>>, ghost L: seq<seq<real>>,
                            j: int, res: real, delval: real, dist: Distance, kernel: Kernel,
                            iloncol: array<real>, dstcol: array<real>, dst: array2<real>)
    requires Snapshot(sind, ssrc, slat, slon, lon, S, X, LAT, LON, L) && PositiveKernel(kernel)
    requires 0 <= j < ssrc.Length1 && res == Resolution(LAT, LON, j, dist)
    requires iloncol.Length == dstcol.Length == dst.Length0 == ssrc.Length0 && dst.Length1 == ssrc.Length1 && iloncol != dstcol
    requires dstcol[..] == ColumnBuffer(S, X, LAT, LON, L, ssrc.Length1, delval, dist, kernel, j)
    requires ColumnsFilled(dst, j, S, X, LAT, LON, L, delval, dist, kernel)
    modifies iloncol, dstcol, dst
    ensures dstcol[..] == ColumnBuffer(S, X, LAT, LON, L, ssrc.Length1, delval, dist, kernel, j + 1)
    ensures ColumnsFilled(dst, j + 1, S, X, LAT, LON, L, delval, dist, kernel)
  {
    var ilon := InterpolateColumnLon(sind, slon, lon, S, LON, L, ssrc.Length1, j, iloncol);
    ResampleColumnBuffer(sind, ssrc, slat, slon, S, X, LAT, LON, L, j, res, ilon, delval, dist, kernel, dstcol);
    CopyColumnFilled(dstcol, dst, j, S, X, LAT, LON, L, delval, dist, kernel);
  }

  /** Copies column j out and makes its longitudes monotonic with interplon, in the buffer iloncol. */
  method InterpolateColumnLon(sind: array2<int>, slon: array2<real>, lon: array2<real>,
                              ghost S: seq<seq<int>>, ghost LON: seq<seq<real>>, ghost L: seq<seq<real>>,
                              w: int, j: int, iloncol: array<real>) returns (ilon: seq<real>)
    requires S == Permute.Cells(sind) && LON == Permute.Cells(slon) && L == Permute.Cells(lon)
    requires Permute.IsGrid(S, |S|, w) && Permute.IsGrid(LON, |S|, w) && Permute.IsGrid(L, |S|, w)
    requires sind.Length1 == slon.Length1 == lon.Length1 == w
    requires HasAnchors(S, w) && 0 <= j < w && iloncol.Length == |S|
    modifies iloncol
    ensures InterpLon.ValidColumn(Permute.Column(S, j), Permute.Column(LON, j), Permute.Column(L, j))
    ensures ilon == InterpLon.InterpColumn(Permute.Column(S, j), Permute.Column(LON, j), Permute.Column(L, j))
  {
    var sindcol, sloncol, loncol := Permute.ArrayColumn(sind, j), Permute.ArrayColumn(slon, j), Permute.ArrayColumn(lon, j);
    AnchoredColumn(S, LON, L, w, j);
    InterpLon.InterpLon(sindcol, sloncol, loncol, sind.Length0, iloncol);
    ilon := iloncol[..];
  }

  /** Resamples column j, with its interpolated longitudes ilon, into the reused column buffer. */
  method ResampleColumnBuffer(sind: array2<int>, ssrc: array2<real>, slat: array2<real>, slon: array2<real>,
                              ghost S: seq<seq<int>>, ghost X: seq<seq<real>>, ghost LAT: seq<seq<real>>,
                              ghost LON: seq<seq<real>>, ghost L: seq<seq<real>>,
                              j: int, res: real, ilon: seq<real>, delval: real, dist: Distance, kernel: Kernel,
                              dstcol: array<real>)
    requires S == Permute.Cells(sind) && X == Permute.Cells(ssrc) && LAT == Permute.Cells(slat) && LON == Permute.Cells(slon)
    requires GridShape(S, X, LAT, LON, L, ssrc.Length1) && HasAnchors(S, ssrc.Length1) && PositiveKernel(kernel)
    requires 0 <= j < ssrc.Length1 && res == Resolution(LAT, LON, j, dist) && dstcol.Length == ssrc.Length0
    requires InterpLon.ValidColumn(Permute.Column(S, j), Permute.Column(LON, j), Permute.Column(L, j))
    requires ilon == InterpLon.InterpColumn(Permute.Column(S, j), Permute.Column(LON, j), Permute.Column(L, j))
    requires dstcol[..] == ColumnBuffer(S, X, LAT, LON, L, ssrc.Length1, delval, dist, kernel, j)
    modifies dstcol
    ensures dstcol[..] == ColumnBuffer(S, X, LAT, LON, L, ssrc.Length1, delval, dist, kernel, j + 1)
  {
    var sindcol, ssrccol := Permute.ArrayColumn(sind, j), Permute.ArrayColumn(ssrc, j);
    var slatcol, sloncol := Permute.ArrayColumn(slat, j), Permute.ArrayColumn(slon, j);
    Resample1d(sindcol, ssrccol, slatcol, sloncol, ilon, ssrc.Length0, res, delval, dist, kernel, dstcol);
    ColumnBufferStep(S, X, LAT, LON, L, ssrc.Length1, delval, dist, kernel, j);
  }

  /** Copies the column buffer after column j into column j of dst. */
  method CopyColumnFilled(dstcol: array<real>, dst: array2<real>, j: int,
                          ghost S: seq<seq<int>>, ghost X: seq<seq<real>>, ghost LAT: seq<seq<real>>,
                          ghost LON: seq<seq<real>>, ghost L: seq<seq<real>>, delval: real, dist: Distance, kernel: Kernel)
    requires ColumnsFilled(dst, j, S, X, LAT, LON, L, delval, dist, kernel) && j < dst.Length1
    requires dstcol.Length == dst.Length0
    requires dstcol[..] == ColumnBuffer(S, X, LAT, LON, L, dst.Length1, delval, dist, kernel, j + 1)
    modifies dst
    ensures ColumnsFilled(dst, j + 1, S, X, LAT, LON, L, delval, dist, kernel)
  {
    CopyColumnInto(dstcol, dst, j);
    assert forall y :: 0 <= y < dst.Length0 ==> dst[y, j] == dstcol[..][y];
  }

  /**
   * Columns 0 .. j-1 of dst hold the column buffers after those columns,
   * for the grids S, X, LAT, LON and L (which fix the height and width).
   */
  ghost predicate ColumnsFilled(dst: array2<real>, j: int, S: seq<seq<int>>, X: seq<seq<real>>, LAT: seq<seq<real>>,
                                LON: seq<seq<real>>, L: seq<seq<real>>, delval: real, dist: Distance, kernel: Kernel)
    reads dst
  {
    GridShape(S, X, LAT, LON, L, dst.Length1) && HasAnchors(S, dst.Length1) && |X| == dst.Length0 &&
    0 <= j <= dst.Length1 &&
    forall y, x :: 0 <= y < dst.Length0 && 0 <= x < j ==>
      dst[y, x] == ColumnBuffer(S, X, LAT, LON, L, dst.Length1, delval, dist, kernel, x + 1)[y]
  }

  /** `dstcol.col(0).copyTo(dst.col(j))`: column j of dst becomes col, and no other column changes. */
  method CopyColumnInto(col: array<real>, dst: array2<real>, j: int)
    requires col.Length == dst.Length0 && 0 <= j < dst.Length1
    modifies dst
    ensures forall y :: 0 <= y < dst.Length0 ==> dst[y, j] == col[y]
    ensures forall y, x :: 0 <= y < dst.Length0 && 0 <= x < dst.Length1 && x != j ==> dst[y, x] == old(dst[y, x])
  {
    for y := 0 to dst.Length0
      invariant forall y', x :: 0 <= y' < dst.Length0 && 0 <= x < dst.Length1 && x != j ==> dst[y', x] == old(dst[y', x])
      invariant forall y' :: 0 <= y' < y ==> dst[y', j] == col[y']
    {
      dst[y, j] := col[y];
    }
  }
}
