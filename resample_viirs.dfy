/**
 * The latitude-sorting resampler of resample_viirs.cc: resample_viirs and
 * its helpers avg3, avgfilter3 and resample_interp. (argsortlat is the
 * ArgSort module; resample_sort and resample_unsort are Permute's.) Every
 * column of the image is sorted into latitude order. Pixels moved by the
 * sort are smoothed with their sorted neighbours. Invalid pixels are filled
 * by interpolating along latitude between the valid pixels on either side.
 * The result is unsorted back into the image.
 */
module LatitudeResample {
  import opened Viirs
  import opened Wrappers
  import Permute
  import Permutation
  import ArgSort
  import InterpLon
  import ResampleColumn
  import Resample

  /** The swath size resample_viirs passes to argsortlat: the detector rows of one scan. */
  const VIIRS_SWATH_SIZE: int := 16

  /** The latitude resample_interp holds while a column has shown no valid pixel yet. */
  const NO_LATITUDE: real := -999.0

  /** The least of three values. */
  function Min3(a: real, b: real, c: real): real
  {
    if a <= b && a <= c then a else if b <= c then b else c
  }

  /** The greatest of three values. */
  function Max3(a: real, b: real, c: real): real
  {
    if a >= b && a >= c then a else if b >= c then b else c
  }

  /**
   * avg3: the mean of three vertically adjacent pixels, or the middle one
   * unchanged when any of the three is outside the valid range. The result
   * is valid exactly when the middle pixel is, and never leaves the range
   * of the three.
   */
  function Avg3(a: real, b: real, c: real): (r: real)
    ensures IsInvalid(a) || IsInvalid(b) || IsInvalid(c) ==> r == b
    ensures IsInvalid(r) <==> IsInvalid(b)
    ensures Min3(a, b, c) <= r <= Max3(a, b, c)
  {
    if a > MAX_TEMP || b > MAX_TEMP || c > MAX_TEMP || a < MIN_TEMP || b < MIN_TEMP || c < MIN_TEMP then b
    else (a + b + c) / 3.0
  }

  /**
   * Pixel (i, j) of avgfilter3's output for sorted image img and sort
   * indices sind: the first and last rows, and rows the sort left in place,
   * are copied; any other row is avg3 of it and its sorted neighbours.
   */
  function FilteredPixel(img: seq<seq<real>>, sind: seq<seq<int>>, w: int, i: int, j: int): real
    requires Permute.IsGrid(img, |img|, w) && Permute.IsGrid(sind, |img|, w)
    requires 0 <= i < |img| && 0 <= j < w
  {
    if i == 0 || i == |img| - 1 || sind[i][j] == i then img[i][j]
    else Avg3(img[i - 1][j], img[i][j], img[i + 1][j])
  }

  /**
   * The image avgfilter3 returns. Every pixel keeps its validity; the
   * edge rows and the rows sorting left in place are unchanged; and every
   * interior pixel lies within the range of its sorted neighbourhood.
   */
  ghost function AvgFiltered(img: seq<seq<real>>, sind: seq<seq<int>>, w: int): (out: seq<seq<real>>)
    requires Permute.IsGrid(img, |img|, w) && Permute.IsGrid(sind, |img|, w)
    ensures Permute.IsGrid(out, |img|, w)
    ensures forall i, j :: 0 <= i < |img| && 0 <= j < w ==> (IsInvalid(out[i][j]) <==> IsInvalid(img[i][j]))
    ensures forall i, j :: 0 <= i < |img| && 0 <= j < w && (i == 0 || i == |img| - 1 || sind[i][j] == i) ==>
      out[i][j] == img[i][j]
    ensures forall i, j :: 0 < i < |img| - 1 && 0 <= j < w ==>
      Min3(img[i - 1][j], img[i][j], img[i + 1][j]) <= out[i][j] <= Max3(img[i - 1][j], img[i][j], img[i + 1][j])
  {
    seq(|img|, i requires 0 <= i < |img| => seq(w, j requires 0 <= j < w => FilteredPixel(img, sind, w, i, j)))
  }

  /** `in.row(y).copyTo(out.row(y))`: row y of dst becomes row y of src; nothing else changes. */
  method CopyRow(src: array2<real>, dst: array2<real>, y: int)
    requires src != dst && src.Length0 == dst.Length0 && src.Length1 == dst.Length1 && 0 <= y < src.Length0
    modifies dst
    ensures forall r, x :: 0 <= r < dst.Length0 && 0 <= x < dst.Length1 ==>
      dst[r, x] == if r == y then src[r, x] else old(dst[r, x])
  {
    for x := 0 to src.Length1
      invariant forall r, x' :: 0 <= r < dst.Length0 && 0 <= x' < dst.Length1 ==>
        dst[r, x'] == if r == y && x' < x then src[r, x'] else old(dst[r, x'])
    {
      dst[y, x] := src[y, x];
    }
  }

  /** One interior row i of avgfilter3: every pixel of row i of out becomes FilteredPixel; nothing else changes. */
  method FilterRow(inp: array2<real>, sind: array2<int>, out: array2<real>, i: int)
    requires inp != out && inp.Length0 == sind.Length0 == out.Length0 && inp.Length1 == sind.Length1 == out.Length1
    requires 0 < i < inp.Length0 - 1
    modifies out
    ensures forall r, x :: 0 <= r < out.Length0 && 0 <= x < out.Length1 ==>
      out[r, x] == if r == i then FilteredPixel(Permute.Cells(inp), Permute.Cells(sind), inp.Length1, r, x) else old(out[r, x])
  {
    ghost var I, S := Permute.Cells(inp), Permute.Cells(sind);
    for j := 0 to inp.Length1
      invariant forall r, x :: 0 <= r < out.Length0 && 0 <= x < out.Length1 ==>
        out[r, x] == if r == i && x < j then FilteredPixel(I, S, inp.Length1, r, x) else old(out[r, x])
    {
      if sind[i, j] != i {
        out[i, j] := Avg3(inp[i - 1, j], inp[i, j], inp[i + 1, j]);
      } else {
        out[i, j] := inp[i, j];
      }
    }
  }

  /**
   * avgfilter3: the 3x1 average filter of the sorted image inp over the
   * pixels sorting moved. An image without rows is refused (the row copies
   * of the source fail on it).
   */
  method AvgFilter3(inp: array2<real>, sind: array2<int>) returns (out: array2<real>)
    requires inp.Length0 >= 1 && sind.Length0 == inp.Length0 && sind.Length1 == inp.Length1
    ensures fresh(out) && out.Length0 == inp.Length0 && out.Length1 == inp.Length1
    ensures Permute.Cells(out) == AvgFiltered(Permute.Cells(inp), Permute.Cells(sind), inp.Length1)
  {
    var rows, cols := inp.Length0, inp.Length1;
    ghost var I, S := Permute.Cells(inp), Permute.Cells(sind);
    out := new real[rows, cols];
    CopyRow(inp, out, 0);
    CopyRow(inp, out, rows - 1);
    var i := 1;
    while i < rows - 1
      invariant 1 <= i <= rows
      invariant forall y, x :: 0 <= y < rows && 0 <= x < cols && (y < i || y == rows - 1) ==>
        out[y, x] == FilteredPixel(I, S, cols, y, x)
    {
      FilterRow(inp, sind, out, i);
      i := i + 1;
    }
    Permute.GridsEqual(Permute.Cells(out), AvgFiltered(I, S, cols), rows, cols);
  }

  /** The first valid pixel of v at or after row i, if any. */
  function NextValid(v: seq<real>, i: int): (k: Option<int>)
    requires 0 <= i <= |v|
    ensures k.None? ==> forall r :: i <= r < |v| ==> IsInvalid(v[r])
    ensures k.Some? ==> i <= k.value < |v| && !IsInvalid(v[k.value]) && forall r :: i <= r < k.value ==> IsInvalid(v[r])
    decreases |v| - i
  {
    if i == |v| then None
    else if !IsInvalid(v[i]) then Some(i)
    else NextValid(v, i + 1)
  }

  /**
   * resample_interp's fill value for a pixel at latitude x in a gap
   * between a valid pixel lval at latitude llat and a valid pixel rval at
   * latitude rlat: the straight line through the two, as linearinterp of
   * resample.cc draws it.
   */
  function GapValue(llat: real, lval: real, rlat: real, rval: real, x: real): (y: real)
    requires rlat != llat
    ensures y == InterpLon.LinearInterp(llat, lval, rlat, rval, x)
  {
    GapValueIsLinear(llat, lval, rlat, rval, x);
    lval + (rval - lval) * (x - llat) / (rlat - llat)
  }

  lemma GapValueIsLinear(llat: real, lval: real, rlat: real, rval: real, x: real)
    requires rlat != llat
    ensures lval + (rval - lval) * (x - llat) / (rlat - llat) == InterpLon.LinearInterp(llat, lval, rlat, rval, x)
  {
    var lam := (x - llat) / (rlat - llat);
    assert (rval - lval) * (x - llat) / (rlat - llat) == (rval - lval) * lam;
  }

  /**
   * resample_interp can fill invalid pixel i without dividing by zero: when
   * valid pixels lie on both sides of it and the left one's latitude is not
   * NO_LATITUDE, the two latitudes differ.
   */
  ghost predicate GapDefined(v: seq<real>, l: seq<real>, i: int)
    requires |v| == |l| && 0 <= i < |v|
  {
    var p, r := ResampleColumn.LastValid(v, i), NextValid(v, i);
    IsInvalid(v[i]) && p.Some? && r.Some? && l[p.value] != NO_LATITUDE ==> l[r.value] != l[p.value]
  }

  /** Every gap of column v with latitudes l can be filled. */
  ghost predicate GapsDefined(v: seq<real>, l: seq<real>)
  {
    |v| == |l| && forall i :: 0 <= i < |v| ==> GapDefined(v, l, i)
  }

  /**
   * Row i of a column v with latitudes l after resample_interp. A valid
   * pixel keeps its value. An invalid one takes: the line between the
   * valid pixels on either side, at its own latitude; the next valid pixel
   * when there is none before, or the one before has latitude NO_LATITUDE;
   * the last valid pixel when there is none after (unless that one has
   * latitude NO_LATITUDE); and otherwise keeps its value.
   */
  ghost function Interpolated(v: seq<real>, l: seq<real>, i: int): real
    requires GapsDefined(v, l) && 0 <= i < |v|
  {
    if !IsInvalid(v[i]) then v[i]
    else
      match (ResampleColumn.LastValid(v, i), NextValid(v, i))
      case (None, None) => v[i]
      case (None, Some(r)) => v[r]
      case (Some(p), None) => if l[p] == NO_LATITUDE then v[i] else v[p]
      case (Some(p), Some(r)) =>
        assert GapDefined(v, l, i);
        if l[p] == NO_LATITUDE then v[r] else GapValue(l[p], v[p], l[r], v[r], l[i])
  }

  /**
   * Column v after resample_interp. Valid pixels are kept, and a column
   * without a valid pixel is left as it is.
   */
  ghost function InterpColumn(v: seq<real>, l: seq<real>): (r: seq<real>)
    requires GapsDefined(v, l)
    ensures |r| == |v|
    ensures forall i :: 0 <= i < |v| && !IsInvalid(v[i]) ==> r[i] == v[i]
    ensures (forall i :: 0 <= i < |v| ==> IsInvalid(v[i])) ==> r == v
  {
    seq(|v|, i requires 0 <= i < |v| => Interpolated(v, l, i))
  }

  /** Every column of img, with latitudes lat, can be interpolated. */
  ghost predicate InterpDefined(img: seq<seq<real>>, lat: seq<seq<real>>, w: int)
    requires Permute.IsGrid(img, |img|, w) && Permute.IsGrid(lat, |img|, w)
  {
    forall x :: 0 <= x < w ==> GapsDefined(Permute.Column(img, x), Permute.Column(lat, x))
  }

  /** The image resample_interp returns: every column interpolated on its own. */
  ghost function InterpGrid(img: seq<seq<real>>, lat: seq<seq<real>>, w: int): (out: seq<seq<real>>)
    requires Permute.IsGrid(img, |img|, w) && Permute.IsGrid(lat, |img|, w) && InterpDefined(img, lat, w)
    ensures Permute.IsGrid(out, |img|, w)
    ensures forall y, x :: 0 <= y < |img| && 0 <= x < w ==>
      out[y][x] == InterpColumn(Permute.Column(img, x), Permute.Column(lat, x))[y]
  {
    seq(|img|, y requires 0 <= y < |img| =>
      seq(w, x requires 0 <= x < w => InterpColumn(Permute.Column(img, x), Permute.Column(lat, x))[y]))
  }

  /** The last valid pixel before row y is the same all along a run of invalid pixels from s to i. */
  lemma {:induction false} RunLastValid(v: seq<real>, s: int, i: int)
    requires 0 <= s <= i <= |v| && forall y :: s <= y < i ==> IsInvalid(v[y])
    ensures forall y :: s <= y <= i ==> ResampleColumn.LastValid(v, y) == ResampleColumn.LastValid(v, s)
    decreases i - s
  {
    if s < i {
      RunLastValid(v, s, i - 1);
    }
  }

  /** The next valid pixel at or after row y is the same all along a run of invalid pixels from s to i. */
  lemma {:induction false} RunNextValid(v: seq<real>, s: int, i: int)
    requires 0 <= s <= i <= |v| && forall y :: s <= y < i ==> IsInvalid(v[y])
    ensures forall y :: s <= y <= i ==> NextValid(v, y) == NextValid(v, i)
    decreases i - s
  {
    if s < i {
      RunNextValid(v, s + 1, i);
    }
  }

  /** Lat is monotone along a column: all non-decreasing or all non-increasing. */
  ghost predicate Monotone(l: seq<real>)
  {
    (forall a, b :: 0 <= a <= b < |l| ==> l[a] <= l[b]) || (forall a, b :: 0 <= a <= b < |l| ==> l[a] >= l[b])
  }

  /**
   * In a column with at least one valid pixel, no valid pixel at latitude
   * NO_LATITUDE and latitudes in order (as sorting leaves them), the
   * interpolation leaves no invalid pixel.
   */
  lemma InterpFillsColumn(v: seq<real>, l: seq<real>, k: int)
    requires GapsDefined(v, l) && Monotone(l)
    requires 0 <= k < |v| && !IsInvalid(v[k])
    requires forall i :: 0 <= i < |v| && !IsInvalid(v[i]) ==> l[i] != NO_LATITUDE
    ensures forall i :: 0 <= i < |v| ==> !IsInvalid(InterpColumn(v, l)[i])
  {
    forall i | 0 <= i < |v| ensures !IsInvalid(Interpolated(v, l, i)) {
      if IsInvalid(v[i]) {
        var p, r := ResampleColumn.LastValid(v, i), NextValid(v, i);
        if k < i {
          assert p.Some?;
        } else {
          assert r.Some?;
        }
        if p.Some? && r.Some? {
          var a, b := p.value, r.value;
          assert GapDefined(v, l, i);
          assert l[a] <= l[i] <= l[b] || l[b] <= l[i] <= l[a];
          var y := GapValue(l[a], v[a], l[b], v[b], l[i]);
          assert v[a] <= y <= v[b] || v[b] <= y <= v[a];
        }
      }
    }
  }

  /** `buf` holds the run of rows from..from+n: what resample_interp's buffer holds after the last valid pixel. */
  ghost predicate BufferHolds(buf: array<int>, from: int, n: int)
    reads buf
  {
    0 <= n <= buf.Length && forall k :: 0 <= k < n ==> buf[k] == from + k
  }

  /** `newimg.at(buf[k], j) = val` for the n buffered rows: they become val; nothing else changes. */
  method FillRun(newimg: array2<real>, j: int, buf: array<int>, from: int, n: int, val: real)
    requires 0 <= j < newimg.Length1 && 0 <= from && from + n <= newimg.Length0 && BufferHolds(buf, from, n)
    modifies newimg
    ensures forall y, x :: 0 <= y < newimg.Length0 && 0 <= x < newimg.Length1 ==>
      newimg[y, x] == if x == j && from <= y < from + n then val else old(newimg[y, x])
  {
    for k := 0 to n
      invariant forall y, x :: 0 <= y < newimg.Length0 && 0 <= x < newimg.Length1 ==>
        newimg[y, x] == if x == j && from <= y < from + k then val else old(newimg[y, x])
    {
      newimg[buf[k], j] := val;
    }
  }

  /**
   * The interpolation loop of resample_interp at valid row i of column j:
   * each buffered row gets GapValue at its own latitude between (llat,
   * lval) and row i; nothing else changes.
   */
  method InterpRun(simg: array2<real>, slat: array2<real>, newimg: array2<real>, j: int, buf: array<int>,
                   from: int, n: int, i: int, llat: real, lval: real)
    requires newimg != simg && newimg != slat
    requires simg.Length0 == slat.Length0 == newimg.Length0 && simg.Length1 == slat.Length1 == newimg.Length1
    requires 0 <= j < newimg.Length1 && 0 <= i < newimg.Length0
    requires 0 <= from && from + n <= newimg.Length0 && BufferHolds(buf, from, n)
    requires n > 0 ==> slat[i, j] != llat
    modifies newimg
    ensures forall y, x :: 0 <= y < newimg.Length0 && 0 <= x < newimg.Length1 ==>
      newimg[y, x] == if x == j && from <= y < from + n then GapValue(llat, lval, slat[i, j], simg[i, j], slat[y, j])
                      else old(newimg[y, x])
  {
    for k := 0 to n
      invariant forall y, x :: 0 <= y < newimg.Length0 && 0 <= x < newimg.Length1 ==>
        newimg[y, x] == if x == j && from <= y < from + k then GapValue(llat, lval, slat[i, j], simg[i, j], slat[y, j])
                        else old(newimg[y, x])
    {
      var rlat := slat[i, j];
      var rval := simg[i, j];
      var x := slat[buf[k], j];
      newimg[buf[k], j] := GapValue(llat, lval, rlat, rval, x);
    }
  }

  /**
   * The state of resample_interp in column j of newimg, with values v and
   * latitudes l, on reaching row i: the buffer holds the invalid rows since
   * the last valid pixel (or since the top); llat and lval are that pixel's
   * latitude and value (NO_LATITUDE when there is none); the rows above
   * the buffer are final, the rest still hold v; other columns are as in N0.
   */
  ghost predicate RunState(newimg: array2<real>, buf: array<int>, N0: seq<seq<real>>, j: int,
                           v: seq<real>, l: seq<real>, i: int, nbuf: int, llat: real, lval: real)
    reads newimg, buf
  {
    Permute.IsGrid(N0, newimg.Length0, newimg.Length1) && 0 <= j < newimg.Length1 &&
    GapsDefined(v, l) && |v| == newimg.Length0 == buf.Length && 0 <= nbuf <= i <= |v| && BufferHolds(buf, i - nbuf, nbuf) &&
    (match ResampleColumn.LastValid(v, i)
     case None => nbuf == i && llat == NO_LATITUDE
     case Some(p) => nbuf == i - p - 1 && llat == l[p] && lval == v[p]) &&
    (forall y :: 0 <= y < i - nbuf ==> newimg[y, j] == Interpolated(v, l, y)) &&
    (forall y :: i - nbuf <= y < |v| ==> newimg[y, j] == v[y]) &&
    (forall y, x :: 0 <= y < |v| && 0 <= x < newimg.Length1 && x != j ==> newimg[y, x] == N0[y][x])
  }

  /** One row i of the column loop of resample_interp: a valid pixel closes the run, an invalid one joins it. */
  method InterpRow(simg: array2<real>, slat: array2<real>, newimg: array2<real>, buf: array<int>, ghost N0: seq<seq<real>>,
                   j: int, ghost v: seq<real>, ghost l: seq<real>, i: int, nbuf: int, llat: real, lval: real)
    returns (nbuf': int, llat': real, lval': real)
    requires newimg != simg && newimg != slat
    requires simg.Length0 == slat.Length0 == newimg.Length0 && simg.Length1 == slat.Length1 == newimg.Length1
    requires 0 <= i < simg.Length0 && 0 <= j < simg.Length1
    requires v == Permute.ArrayColumn(simg, j) && l == Permute.ArrayColumn(slat, j)
    requires RunState(newimg, buf, N0, j, v, l, i, nbuf, llat, lval)
    modifies newimg, buf
    ensures RunState(newimg, buf, N0, j, v, l, i + 1, nbuf', llat', lval')
  {
    if MIN_TEMP <= simg[i, j] && simg[i, j] <= MAX_TEMP {
      CloseRun(simg, slat, newimg, buf, N0, j, v, l, i, nbuf, llat, lval);
      return 0, slat[i, j], simg[i, j];
    }
    buf[nbuf] := i;
    return nbuf + 1, llat, lval;
  }

  /**
   * A valid pixel at row i: the buffered rows are filled, from the pixel
   * alone when no usable pixel came before, else by GapValue; the buffer
   * is then empty and row i is the last valid pixel.
   */
  method CloseRun(simg: array2<real>, slat: array2<real>, newimg: array2<real>, buf: array<int>, ghost N0: seq<seq<real>>,
                  j: int, ghost v: seq<real>, ghost l: seq<real>, i: int, nbuf: int, llat: real, lval: real)
    requires newimg != simg && newimg != slat
    requires simg.Length0 == slat.Length0 == newimg.Length0 && simg.Length1 == slat.Length1 == newimg.Length1
    requires 0 <= i < simg.Length0 && 0 <= j < simg.Length1
    requires v == Permute.ArrayColumn(simg, j) && l == Permute.ArrayColumn(slat, j) && !IsInvalid(v[i])
    requires RunState(newimg, buf, N0, j, v, l, i, nbuf, llat, lval)
    modifies newimg
    ensures RunState(newimg, buf, N0, j, v, l, i + 1, 0, l[i], v[i])
  {
    if llat == NO_LATITUDE {
      CloseFirstRun(simg, slat, newimg, buf, N0, j, v, l, i, nbuf, llat, lval);
    } else {
      CloseGapRun(simg, slat, newimg, buf, N0, j, v, l, i, nbuf, llat, lval);
    }
  }

  /**
   * CloseRun with no usable pixel before the run: the buffered rows take
   * the value of row i (the interpolation loop after it then has nothing
   * left to do).
   */
  method CloseFirstRun(simg: array2<real>, slat: array2<real>, newimg: array2<real>, buf: array<int>, ghost N0: seq<seq<real>>,
                       j: int, ghost v: seq<real>, ghost l: seq<real>, i: int, nbuf: int, llat: real, lval: real)
    requires newimg != simg && newimg != slat
    requires simg.Length0 == slat.Length0 == newimg.Length0 && simg.Length1 == slat.Length1 == newimg.Length1
    requires 0 <= i < simg.Length0 && 0 <= j < simg.Length1
    requires v == Permute.ArrayColumn(simg, j) && l == Permute.ArrayColumn(slat, j) && !IsInvalid(v[i])
    requires RunState(newimg, buf, N0, j, v, l, i, nbuf, llat, lval) && llat == NO_LATITUDE
    modifies newimg
    ensures RunState(newimg, buf, N0, j, v, l, i + 1, 0, l[i], v[i])
  {
    var s := i - nbuf;
    ClosedRun(v, l, s, i);
    FillRun(newimg, j, buf, s, nbuf, simg[i, j]);
    forall y | 0 <= y < i + 1 ensures newimg[y, j] == Interpolated(v, l, y) {
      if s <= y < i {
        assert newimg[y, j] == v[i];
      }
    }
    assert ResampleColumn.LastValid(v, i + 1) == Some(i);
  }

  /** CloseRun after a usable pixel at latitude llat: the buffered rows are interpolated between it and row i. */
  method CloseGapRun(simg: array2<real>, slat: array2<real>, newimg: array2<real>, buf: array<int>, ghost N0: seq<seq<real>>,
                     j: int, ghost v: seq<real>, ghost l: seq<real>, i: int, nbuf: int, llat: real, lval: real)
    requires newimg != simg && newimg != slat
    requires simg.Length0 == slat.Length0 == newimg.Length0 && simg.Length1 == slat.Length1 == newimg.Length1
    requires 0 <= i < simg.Length0 && 0 <= j < simg.Length1
    requires v == Permute.ArrayColumn(simg, j) && l == Permute.ArrayColumn(slat, j) && !IsInvalid(v[i])
    requires RunState(newimg, buf, N0, j, v, l, i, nbuf, llat, lval) && llat != NO_LATITUDE
    modifies newimg
    ensures RunState(newimg, buf, N0, j, v, l, i + 1, 0, l[i], v[i])
  {
    var s := i - nbuf;
    ClosedRun(v, l, s, i);
    InterpRun(simg, slat, newimg, j, buf, s, nbuf, i, llat, lval);
    forall y | 0 <= y < i + 1 ensures newimg[y, j] == Interpolated(v, l, y) {
      if s <= y < i {
        assert slat[y, j] == l[y];
      }
    }
    assert ResampleColumn.LastValid(v, i + 1) == Some(i);
  }

  /**
   * A run of invalid rows s..i closed by valid row i: the rows of the run
   * take the value of row i when no usable valid pixel comes before it,
   * and otherwise the line between that pixel and row i, which lie at
   * different latitudes.
   */
  lemma ClosedRun(v: seq<real>, l: seq<real>, s: int, i: int)
    requires GapsDefined(v, l) && 0 <= s <= i < |v| && !IsInvalid(v[i])
    requires forall y :: s <= y < i ==> IsInvalid(v[y])
    ensures ResampleColumn.LastValid(v, i) == ResampleColumn.LastValid(v, s)
    ensures var p := ResampleColumn.LastValid(v, s);
      (p.None? || l[p.value] == NO_LATITUDE) ==> forall y :: s <= y < i ==> Interpolated(v, l, y) == v[i]
    ensures var p := ResampleColumn.LastValid(v, s);
      p.Some? && l[p.value] != NO_LATITUDE && s < i ==>
        l[i] != l[p.value] && forall y :: s <= y < i ==> Interpolated(v, l, y) == GapValue(l[p.value], v[p.value], l[i], v[i], l[y])
  {
    RunLastValid(v, s, i);
    RunNextValid(v, s, i);
    if s < i {
      assert GapDefined(v, l, s);
    }
  }

  /**
   * The run of invalid rows from s to the bottom of the column: its rows
   * take the last valid pixel when there is a usable one, and otherwise
   * keep their values.
   */
  lemma OpenRun(v: seq<real>, l: seq<real>, s: int)
    requires GapsDefined(v, l) && 0 <= s <= |v| && forall y :: s <= y < |v| ==> IsInvalid(v[y])
    ensures ResampleColumn.LastValid(v, |v|) == ResampleColumn.LastValid(v, s)
    ensures var p := ResampleColumn.LastValid(v, s);
      forall y :: s <= y < |v| ==> Interpolated(v, l, y) == if p.Some? && l[p.value] != NO_LATITUDE then v[p.value] else v[y]
  {
    RunLastValid(v, s, |v|);
    RunNextValid(v, s, |v|);
  }

  /**
   * The loop of resample_interp over column j: column j of newimg, which
   * starts as column j of simg, becomes its interpolation; other columns
   * are unchanged.
   */
  method InterpolateColumn(simg: array2<real>, slat: array2<real>, newimg: array2<real>, buf: array<int>, j: int)
    requires newimg != simg && newimg != slat
    requires simg.Length0 == slat.Length0 == newimg.Length0 == buf.Length && simg.Length1 == slat.Length1 == newimg.Length1
    requires 0 <= j < simg.Length1
    requires GapsDefined(Permute.ArrayColumn(simg, j), Permute.ArrayColumn(slat, j))
    requires forall y :: 0 <= y < simg.Length0 ==> newimg[y, j] == simg[y, j]
    modifies newimg, buf
    ensures forall y :: 0 <= y < simg.Length0 ==>
      newimg[y, j] == InterpColumn(Permute.ArrayColumn(simg, j), Permute.ArrayColumn(slat, j))[y]
    ensures forall y, x :: 0 <= y < simg.Length0 && 0 <= x < simg.Length1 && x != j ==> newimg[y, x] == old(newimg[y, x])
  {
    ghost var v, l := Permute.ArrayColumn(simg, j), Permute.ArrayColumn(slat, j);
    ghost var N0 := Permute.Cells(newimg);
    var nbuf, llat, lval := InterpolateRows(simg, slat, newimg, buf, N0, j, v, l);
    OpenRun(v, l, simg.Length0 - nbuf);
    if llat != NO_LATITUDE {
      FillRun(newimg, j, buf, simg.Length0 - nbuf, nbuf, lval);
    }
  }

  /** The row loop of resample_interp over column j, up to the fill of the trailing run. */
  method InterpolateRows(simg: array2<real>, slat: array2<real>, newimg: array2<real>, buf: array<int>, ghost N0: seq<seq<real>>,
                         j: int, ghost v: seq<real>, ghost l: seq<real>) returns (nbuf: int, llat: real, lval: real)
    requires newimg != simg && newimg != slat
    requires simg.Length0 == slat.Length0 == newimg.Length0 == buf.Length && simg.Length1 == slat.Length1 == newimg.Length1
    requires 0 <= j < simg.Length1 && v == Permute.ArrayColumn(simg, j) && l == Permute.ArrayColumn(slat, j) && GapsDefined(v, l)
    requires N0 == Permute.Cells(newimg) && forall y :: 0 <= y < simg.Length0 ==> newimg[y, j] == simg[y, j]
    modifies newimg, buf
    ensures RunState(newimg, buf, N0, j, v, l, simg.Length0, nbuf, llat, lval)
  {
    nbuf, llat, lval := 0, NO_LATITUDE, 0.0;
    for i := 0 to simg.Length0
      invariant RunState(newimg, buf, N0, j, v, l, i, nbuf, llat, lval)
    {
      nbuf, llat, lval := InterpRow(simg, slat, newimg, buf, N0, j, v, l, i, nbuf, llat, lval);
    }
  }

  /** `simg.clone()`: a fresh image with the same pixels. */
  method CloneImage(src: array2<real>) returns (dst: array2<real>)
    ensures fresh(dst) && dst.Length0 == src.Length0 && dst.Length1 == src.Length1
    ensures forall y, x :: 0 <= y < src.Length0 && 0 <= x < src.Length1 ==> dst[y, x] == src[y, x]
  {
    dst := new real[src.Length0, src.Length1];
    for y := 0 to src.Length0
      invariant forall y', x :: 0 <= y' < y && 0 <= x < src.Length1 ==> dst[y', x] == src[y', x]
    {
      for x := 0 to src.Length1
        invariant forall y', x' :: 0 <= y' < src.Length0 && 0 <= x' < src.Length1 && (y' < y || (y' == y && x' < x)) ==>
          dst[y', x'] == src[y', x']
      {
        dst[y, x] := src[y, x];
      }
    }
  }

  /** resample_interp: the sorted image simg with every column interpolated along the sorted latitudes slat. */
  method ResampleInterp(simg: array2<real>, slat: array2<real>) returns (newimg: array2<real>)
    requires slat.Length0 == simg.Length0 && slat.Length1 == simg.Length1
    requires InterpDefined(Permute.Cells(simg), Permute.Cells(slat), simg.Length1)
    ensures fresh(newimg) && newimg.Length0 == simg.Length0 && newimg.Length1 == simg.Length1
    ensures Permute.Cells(newimg) == InterpGrid(Permute.Cells(simg), Permute.Cells(slat), simg.Length1)
  {
    var rows, cols := simg.Length0, simg.Length1;
    ghost var want := InterpGrid(Permute.Cells(simg), Permute.Cells(slat), cols);
    newimg := CloneImage(simg);
    var buf := new int[rows];
    for j := 0 to cols
      invariant forall y, x :: 0 <= y < rows && 0 <= x < cols ==> newimg[y, x] == if x < j then want[y][x] else simg[y, x]
    {
      assert GapsDefined(Permute.Column(Permute.Cells(simg), j), Permute.Column(Permute.Cells(slat), j));
      InterpolateColumn(simg, slat, newimg, buf, j);
    }
    Permute.GridsEqual(Permute.Cells(newimg), want, rows, cols);
  }

  /** No column of lat repeats a latitude. */
  ghost predicate DistinctLatitudes(lat: seq<seq<real>>, w: int)
    requires Permute.IsGrid(lat, |lat|, w)
  {
    forall a, b, x :: 0 <= a < b < |lat| && 0 <= x < w ==> lat[a][x] != lat[b][x]
  }

  /** A column of distinct latitudes leaves no gap undefined. */
  lemma DistinctGapsDefined(v: seq<real>, l: seq<real>)
    requires |v| == |l| && forall a, b :: 0 <= a < b < |l| ==> l[a] != l[b]
    ensures GapsDefined(v, l)
  {
    forall i | 0 <= i < |v| ensures GapDefined(v, l, i) {
      var p, r := ResampleColumn.LastValid(v, i), NextValid(v, i);
      if IsInvalid(v[i]) && p.Some? && r.Some? {
        assert p.value < r.value;
      }
    }
  }

  /**
   * Sorting the columns of an image of distinct latitudes by an argsortlat
   * result keeps them distinct, so the sorted, filtered image can be
   * interpolated.
   */
  lemma SortedGapsDefined(img: seq<seq<real>>, lat: seq<seq<real>>, g: seq<seq<int>>, w: int)
    requires ArgSort.ArgSorted(lat, g, VIIRS_SWATH_SIZE, w) && Permute.IsGrid(img, |lat|, w) && DistinctLatitudes(lat, w)
    ensures Permute.IsIndexGrid(g, |lat|, w) && Permute.ColumnsArePermutations(g, w)
    ensures InterpDefined(AvgFiltered(Permute.Gather(g, img, w), g, w), Permute.Gather(g, lat, w), w)
  {
    ArgSort.ArgSortedPermutes(lat, g, VIIRS_SWATH_SIZE, w);
    var f, sl := AvgFiltered(Permute.Gather(g, img, w), g, w), Permute.Gather(g, lat, w);
    forall x | 0 <= x < w ensures GapsDefined(Permute.Column(f, x), Permute.Column(sl, x)) {
      var l, gc := Permute.Column(sl, x), Permute.Column(g, x);
      assert Permutation.IsPermutation(gc);
      forall a, b | 0 <= a < b < |l| ensures l[a] != l[b] {
        assert gc[a] != gc[b];
        if gc[a] < gc[b] {
          assert lat[gc[a]][x] != lat[gc[b]][x];
        } else {
          assert lat[gc[b]][x] != lat[gc[a]][x];
        }
      }
      DistinctGapsDefined(Permute.Column(f, x), l);
    }
  }

  /**
   * A column argsortlat sorts as a whole (no pole in it) comes out monotone
   * once sorted, ascending or descending as the plan says, so the
   * interpolation of that column runs over a monotone latitude list.
   */
  lemma WholePlanSortedMonotone(lat: seq<seq<real>>, g: seq<seq<int>>, w: int, x: int)
    requires ArgSort.ArgSorted(lat, g, VIIRS_SWATH_SIZE, w) && 0 <= x < w
    requires ArgSort.ColumnPlan(Permute.Column(lat, x), VIIRS_SWATH_SIZE).Whole?
    ensures Permute.IsIndexGrid(g, |lat|, w)
    ensures Monotone(Permute.Column(Permute.Gather(g, lat, w), x))
  {
    ArgSort.ArgSortedPermutes(lat, g, VIIRS_SWATH_SIZE, w);
    var c, col := Permute.Column(lat, x), Permute.Column(g, x);
    var p := ArgSort.ColumnPlan(c, VIIRS_SWATH_SIZE);
    assert ArgSort.SortsColumn(c, col, p);
    var l := Permute.Column(Permute.Gather(g, lat, w), x);
    if p.ascending {
      forall a, b | 0 <= a <= b < |l| ensures l[a] <= l[b] {
        if a < b {
          assert ArgSort.Before(c[col[a]], c[col[b]], true);
        }
      }
    } else {
      forall a, b | 0 <= a <= b < |l| ensures l[a] >= l[b] {
        if a < b {
          assert ArgSort.Before(c[col[a]], c[col[b]], false);
        }
      }
    }
  }

  /**
   * The image resample_viirs leaves for image img and latitudes lat, when
   * argsortlat chose the sort indices g: img sorted by g, filtered by
   * avgfilter3, interpolated along lat sorted by g, and unsorted by g.
   */
  ghost function LatResampled(img: seq<seq<real>>, lat: seq<seq<real>>, g: seq<seq<int>>, w: int): (out: seq<seq<real>>)
    requires ArgSort.ArgSorted(lat, g, VIIRS_SWATH_SIZE, w) && Permute.IsGrid(img, |lat|, w) && DistinctLatitudes(lat, w)
    ensures Permute.IsGrid(out, |img|, w)
  {
    SortedGapsDefined(img, lat, g, w);
    var simg := AvgFiltered(Permute.Gather(g, img, w), g, w);
    Permute.Scatter(g, InterpGrid(simg, Permute.Gather(g, lat, w), w), 0.0, w)
  }

  /** Where unsorting by a grid of permutations puts row y of column x: the one row sent there. */
  lemma UnsortedFrom(g: seq<seq<int>>, src: seq<seq<real>>, w: int, r: int, x: int) returns (y: int)
    requires Permute.IsIndexGrid(g, |src|, w) && Permute.IsGrid(src, |src|, w) && Permute.ColumnsArePermutations(g, w)
    requires 0 <= r < |src| && 0 <= x < w
    ensures 0 <= y < |src| && g[y][x] == r
    ensures Permute.Scatter(g, src, 0.0, w)[r][x] == src[y][x]
  {
    var col := Permute.Column(g, x);
    Permutation.PermutationCovers(col);
    assert r in col;
    y :| 0 <= y < |col| && col[y] == r;
    Permute.OnlyWriter(g, w, y, x);
  }

  /**
   * resample_viirs never spoils a valid pixel: a pixel of img in the valid
   * range is still in range afterwards, and one that sorting left in place
   * keeps its value.
   */
  lemma LatResampledKeepsValid(img: seq<seq<real>>, lat: seq<seq<real>>, g: seq<seq<int>>, w: int, r: int, x: int)
    requires ArgSort.ArgSorted(lat, g, VIIRS_SWATH_SIZE, w) && Permute.IsGrid(img, |lat|, w) && DistinctLatitudes(lat, w)
    requires 0 <= r < |img| && 0 <= x < w && !IsInvalid(img[r][x])
    ensures !IsInvalid(LatResampled(img, lat, g, w)[r][x])
    ensures g[r][x] == r ==> LatResampled(img, lat, g, w)[r][x] == img[r][x]
  {
    SortedGapsDefined(img, lat, g, w);
    var s := Permute.Gather(g, img, w);
    var f := AvgFiltered(s, g, w);
    var sl := Permute.Gather(g, lat, w);
    var t := InterpGrid(f, sl, w);
    var y := UnsortedFrom(g, t, w, r, x);
    assert !IsInvalid(s[y][x]) && !IsInvalid(f[y][x]);
    assert Permute.Column(f, x)[y] == f[y][x];
    assert t[y][x] == f[y][x];
    if g[r][x] == r {
      Permute.OnlyWriter(g, w, r, x);
      assert y == r;
    }
  }

  /**
   * resample_viirs: argsortlat on the latitudes with swath size 16, then
   * the image sorted, filtered, interpolated along the sorted latitudes,
   * unsorted and copied back. It aborts (ok false, img untouched) when
   * argsortlat finds a pole conflict or the image has no rows; otherwise
   * img becomes LatResampled for the sort indices g argsortlat chose.
   */
  method ResampleViirs(img: array2<real>, lat: array2<real>, nx: int, ny: int) returns (ok: bool, ghost g: seq<seq<int>>)
    requires img.Length0 == lat.Length0 == ny && img.Length1 == lat.Length1 == nx
    requires DistinctLatitudes(Permute.Cells(lat), nx)
    modifies img
    ensures ok <==> ny >= 1 && ArgSort.NoPoleConflict(old(Permute.Cells(lat)), VIIRS_SWATH_SIZE, nx)
    ensures !ok ==> Permute.Cells(img) == old(Permute.Cells(img))
    ensures ok ==> ArgSort.ArgSorted(old(Permute.Cells(lat)), g, VIIRS_SWATH_SIZE, nx) &&
                   Permute.Cells(img) == LatResampled(old(Permute.Cells(img)), old(Permute.Cells(lat)), g, nx)
  {
    ghost var IMG, LAT := Permute.Cells(img), Permute.Cells(lat);
    var sorted, sind := ArgSort.ArgSortLat(lat, VIIRS_SWATH_SIZE);
    g := Permute.Cells(sind);
    if !sorted || ny < 1 {
      return false, g;
    }
    SortedGapsDefined(IMG, LAT, g, nx);
    var simg := Permute.ResampleSort(sind, img, 0.0);
    simg := AvgFilter3(simg, sind);
    var slat := Permute.ResampleSort(sind, lat, 0.0);
    simg := ResampleInterp(simg, slat);
    simg := Permute.ResampleUnsort(sind, simg, 0.0);
    Resample.CopyInto(simg, img);
    ok := true;
  }
}
