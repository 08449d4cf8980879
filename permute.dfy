/**
 * Sorting and unsorting an image by a grid of row indices (resample.cc,
 * resample_sort_ / resample_unsort_ and their type dispatchers). Sorting
 * gathers each pixel from the row its index names, in the same column;
 * unsorting scatters each pixel back to that row. Both work column by
 * column: the index grid never moves a pixel across columns.
 */
module Permute {
  import opened Wrappers
  import Permutation

  /** g has the given number of rows, each of the given length. */
  ghost predicate IsGrid<T>(g: seq<seq<T>>, rows: int, cols: int)
  {
    |g| == rows && cols >= 0 && forall r :: 0 <= r < rows ==> |g[r]| == cols
  }

  /** An index grid for an image of `rows` rows: every entry names one of its rows. */
  ghost predicate IsIndexGrid(sind: seq<seq<int>>, rows: int, cols: int)
  {
    IsGrid(sind, rows, cols) && forall r, c :: 0 <= r < rows && 0 <= c < cols ==> 0 <= sind[r][c] < rows
  }

  /** Two grids of one shape that agree cell by cell are equal. */
  lemma GridsEqual<T>(a: seq<seq<T>>, b: seq<seq<T>>, rows: int, cols: int)
    requires IsGrid(a, rows, cols) && IsGrid(b, rows, cols)
    requires forall r, c :: 0 <= r < rows && 0 <= c < cols ==> a[r][c] == b[r][c]
    ensures a == b
  {
    assert forall r :: 0 <= r < rows ==> a[r] == b[r];
  }

  /** The contents of a two-dimensional array, row by row. */
  ghost function Cells<T>(a: array2<T>): (g: seq<seq<T>>)
    reads a
    ensures IsGrid(g, a.Length0, a.Length1)
    ensures forall r, c :: 0 <= r < a.Length0 && 0 <= c < a.Length1 ==> g[r][c] == a[r, c]
  {
    seq(a.Length0, r requires 0 <= r < a.Length0 reads a =>
      seq(a.Length1, c requires 0 <= c < a.Length1 reads a => a[r, c]))
  }

  /** Column c of a grid, top to bottom. */
  ghost function Column<T>(g: seq<seq<T>>, c: int): (col: seq<T>)
    requires 0 <= c && forall r :: 0 <= r < |g| ==> c < |g[r]|
    ensures |col| == |g| && forall r :: 0 <= r < |g| ==> col[r] == g[r][c]
  {
    seq(|g|, r requires 0 <= r < |g| => g[r][c])
  }

  /** Column j of a two-dimensional array, top to bottom: what `col(j).copyTo` copies out. */
  function ArrayColumn<T>(a: array2<T>, j: int): (col: seq<T>)
    requires 0 <= j < a.Length1
    reads a
    ensures |col| == a.Length0 && forall y :: 0 <= y < a.Length0 ==> col[y] == a[y, j]
    ensures col == Column(Cells(a), j)
  {
    seq(a.Length0, y requires 0 <= y < a.Length0 reads a => a[y, j])
  }

  /** Every column of the index grid is a permutation of the row numbers. */
  ghost predicate ColumnsArePermutations(sind: seq<seq<int>>, cols: int)
    requires forall r :: 0 <= r < |sind| ==> |sind[r]| == cols
  {
    forall c :: 0 <= c < cols ==> Permutation.IsPermutation(Column(sind, c))
  }

  /** The sorted image: pixel (y, x) comes from row sind[y][x] of the same column. */
  ghost function Gather<T>(sind: seq<seq<int>>, src: seq<seq<T>>, cols: int): (dst: seq<seq<T>>)
    requires IsIndexGrid(sind, |src|, cols) && IsGrid(src, |src|, cols)
    ensures IsGrid(dst, |src|, cols)
    ensures forall y, x :: 0 <= y < |src| && 0 <= x < cols ==> dst[y][x] == src[sind[y][x]][x]
  {
    seq(|src|, y requires 0 <= y < |src| =>
      seq(cols, x requires 0 <= x < cols => src[sind[y][x]][x]))
  }

  /**
   * The last of the first n rows whose index in column c is r: the last
   * write into cell (r, c) when the rows are scattered in order.
   */
  ghost function LastWriter(sind: seq<seq<int>>, r: int, c: int, n: int): (w: Option<int>)
    requires 0 <= n <= |sind| && 0 <= c && forall y :: 0 <= y < |sind| ==> c < |sind[y]|
    ensures w.None? ==> forall y :: 0 <= y < n ==> sind[y][c] != r
    ensures w.Some? ==>
      0 <= w.value < n && sind[w.value][c] == r && (forall y :: w.value < y < n ==> sind[y][c] != r)
  {
    if n == 0 then None
    else if sind[n - 1][c] == r then Some(n - 1)
    else LastWriter(sind, r, c, n - 1)
  }

  /** Cell (r, c) after the first n rows of src have been scattered onto a zero image. */
  ghost function ScatteredCell<T>(sind: seq<seq<int>>, src: seq<seq<T>>, zero: T, r: int, c: int, n: int): T
    requires 0 <= n <= |sind| == |src|
    requires 0 <= c && forall y :: 0 <= y < |sind| ==> c < |sind[y]| && c < |src[y]|
  {
    match LastWriter(sind, r, c, n)
    case None => zero
    case Some(y) => src[y][c]
  }

  /**
   * The unsorted image: row y of src is written, column by column, into row
   * sind[y][x]; rows are written in order, so of several rows sent to the
   * same cell the last one wins, and a cell that no row is sent to stays zero.
   */
  ghost function Scatter<T>(sind: seq<seq<int>>, src: seq<seq<T>>, zero: T, cols: int): (dst: seq<seq<T>>)
    requires IsIndexGrid(sind, |src|, cols) && IsGrid(src, |src|, cols)
    ensures IsGrid(dst, |src|, cols)
    ensures forall r, x :: 0 <= r < |src| && 0 <= x < cols ==>
      ((forall y :: 0 <= y < |src| ==> sind[y][x] != r) ==> dst[r][x] == zero)
    ensures forall r, x, y ::
      (0 <= r < |src| && 0 <= x < cols && 0 <= y < |src| && sind[y][x] == r &&
       (forall y' :: y < y' < |src| ==> sind[y'][x] != r)) ==> dst[r][x] == src[y][x]
  {
    seq(|src|, r requires 0 <= r < |src| =>
      seq(cols, x requires 0 <= x < cols => ScatteredCell(sind, src, zero, r, x, |src|)))
  }

  /** In a column that is a permutation, the row sent to r is the only one. */
  lemma OnlyWriter(sind: seq<seq<int>>, cols: int, y: int, x: int)
    requires IsIndexGrid(sind, |sind|, cols) && ColumnsArePermutations(sind, cols)
    requires 0 <= y < |sind| && 0 <= x < cols
    ensures forall y' :: 0 <= y' < |sind| && y' != y ==> sind[y'][x] != sind[y][x]
  {
    var col := Column(sind, x);
    assert Permutation.IsPermutation(col);
    forall y' | 0 <= y' < |sind| && y' != y ensures sind[y'][x] != sind[y][x] {
      if y' < y { assert col[y'] != col[y]; } else { assert col[y] != col[y']; }
    }
  }

  /**
   * When every column of the index grid is a permutation, unsorting undoes
   * sorting: scattering the gathered image gives back the original.
   */
  lemma UnsortAfterSort<T>(sind: seq<seq<int>>, img: seq<seq<T>>, zero: T, cols: int)
    requires IsIndexGrid(sind, |img|, cols) && IsGrid(img, |img|, cols)
    requires ColumnsArePermutations(sind, cols)
    ensures Scatter(sind, Gather(sind, img, cols), zero, cols) == img
  {
    var s := Gather(sind, img, cols);
    var u := Scatter(sind, s, zero, cols);
    forall r, x | 0 <= r < |img| && 0 <= x < cols ensures u[r][x] == img[r][x] {
      var col := Column(sind, x);
      Permutation.PermutationCovers(col);
      assert r in col;
      var y :| 0 <= y < |col| && col[y] == r;
      OnlyWriter(sind, cols, y, x);
      assert u[r][x] == s[y][x];
    }
    assert forall r :: 0 <= r < |img| ==> u[r] == img[r];
  }

  /**
   * And sorting undoes unsorting: every pixel scattered to a distinct row
   * is gathered back from it.
   */
  lemma SortAfterUnsort<T>(sind: seq<seq<int>>, img: seq<seq<T>>, zero: T, cols: int)
    requires IsIndexGrid(sind, |img|, cols) && IsGrid(img, |img|, cols)
    requires ColumnsArePermutations(sind, cols)
    ensures Gather(sind, Scatter(sind, img, zero, cols), cols) == img
  {
    var u := Scatter(sind, img, zero, cols);
    var s := Gather(sind, u, cols);
    forall y, x | 0 <= y < |img| && 0 <= x < cols ensures s[y][x] == img[y][x] {
      OnlyWriter(sind, cols, y, x);
      assert s[y][x] == u[sind[y][x]][x];
    }
    assert forall y :: 0 <= y < |img| ==> s[y] == img[y];
  }

  /**
   * resample_sort_: a new image whose pixel (y, x) is pixel (sind[y, x], x)
   * of img, filled row-major.
   */
  method ResampleSort<T>(sind: array2<int>, img: array2<T>, zero: T) returns (dst: array2<T>)
    requires sind.Length0 == img.Length0 && sind.Length1 == img.Length1
    requires forall y, x :: 0 <= y < sind.Length0 && 0 <= x < sind.Length1 ==> 0 <= sind[y, x] < img.Length0
    ensures dst.Length0 == img.Length0 && dst.Length1 == img.Length1
    ensures forall y, x :: 0 <= y < dst.Length0 && 0 <= x < dst.Length1 ==> dst[y, x] == img[sind[y, x], x]
    ensures Cells(dst) == Gather(Cells(sind), Cells(img), img.Length1)
  {
    dst := new T[img.Length0, img.Length1]((y, x) => zero);
    for i := 0 to img.Length0
      invariant forall y, x :: 0 <= y < i && 0 <= x < img.Length1 ==> dst[y, x] == img[sind[y, x], x]
    {
      for j := 0 to img.Length1
        invariant forall y, x :: 0 <= y < i && 0 <= x < img.Length1 ==> dst[y, x] == img[sind[y, x], x]
        invariant forall x :: 0 <= x < j ==> dst[i, x] == img[sind[i, x], x]
      {
        dst[i, j] := img[sind[i, j], j];
      }
    }
    GridsEqual(Cells(dst), Gather(Cells(sind), Cells(img), img.Length1), img.Length0, img.Length1);
  }

  /**
   * resample_unsort_: a zero image onto which pixel (y, x) of img is
   * written at (sind[y, x], x), row-major, so that the last write wins.
   */
  method ResampleUnsort<T>(sind: array2<int>, img: array2<T>, zero: T) returns (dst: array2<T>)
    requires sind.Length0 == img.Length0 && sind.Length1 == img.Length1
    requires forall y, x :: 0 <= y < sind.Length0 && 0 <= x < sind.Length1 ==> 0 <= sind[y, x] < img.Length0
    ensures dst.Length0 == img.Length0 && dst.Length1 == img.Length1
    ensures Cells(dst) == Scatter(Cells(sind), Cells(img), zero, img.Length1)
  {
    ghost var S := Cells(sind);
    ghost var X := Cells(img);
    dst := new T[img.Length0, img.Length1]((y, x) => zero);
    for i := 0 to img.Length0
      invariant forall r, x :: 0 <= r < img.Length0 && 0 <= x < img.Length1 ==> dst[r, x] == ScatteredCell(S, X, zero, r, x, i)
    {
      for j := 0 to img.Length1
        invariant forall r, x :: 0 <= r < img.Length0 && 0 <= x < img.Length1 ==>
          dst[r, x] == ScatteredCell(S, X, zero, r, x, if x < j then i + 1 else i)
      {
        dst[sind[i, j], j] := img[i, j];
      }
    }
    ghost var D, U := Cells(dst), Scatter(S, X, zero, img.Length1);
    assert forall r, x :: 0 <= r < img.Length0 && 0 <= x < img.Length1 ==> D[r][x] == U[r][x];
    assert forall r :: 0 <= r < img.Length0 ==> D[r] == U[r];
  }

  /** Element types of a single-channel image (the OpenCV CV_xxC1 types). */
  datatype MatType = U8 | S8 | U16 | S16 | S32 | F32 | F64

  /** The element types resample_sort and resample_unsort handle; any other is a fatal error. */
  predicate Resortable(t: MatType)
  {
    t == U8 || t == F32 || t == F64
  }

  /**
   * resample_sort: dispatches on the element type; an unsupported type is
   * fatal (None), a supported one gives the gathered image.
   */
  method ResampleSortTyped<T>(t: MatType, sind: array2<int>, img: array2<T>, zero: T) returns (r: Option<array2<T>>)
    requires sind.Length0 == img.Length0 && sind.Length1 == img.Length1
    requires forall y, x :: 0 <= y < sind.Length0 && 0 <= x < sind.Length1 ==> 0 <= sind[y, x] < img.Length0
    ensures r.Some? <==> Resortable(t)
    ensures r.Some? ==> (r.value.Length0 == img.Length0 && r.value.Length1 == img.Length1 &&
                         Cells(r.value) == Gather(Cells(sind), Cells(img), img.Length1))
  {
    if !Resortable(t) {
      return None;
    }
    var dst := ResampleSort(sind, img, zero);
    return Some(dst);
  }

  /**
   * resample_unsort: dispatches on the element type; an unsupported type is
   * fatal (None), a supported one gives the scattered image.
   */
  method ResampleUnsortTyped<T>(t: MatType, sind: array2<int>, img: array2<T>, zero: T) returns (r: Option<array2<T>>)
    requires sind.Length0 == img.Length0 && sind.Length1 == img.Length1
    requires forall y, x :: 0 <= y < sind.Length0 && 0 <= x < sind.Length1 ==> 0 <= sind[y, x] < img.Length0
    ensures r.Some? <==> Resortable(t)
    ensures r.Some? ==> (r.value.Length0 == img.Length0 && r.value.Length1 == img.Length1 &&
                         Cells(r.value) == Scatter(Cells(sind), Cells(img), zero, img.Length1))
  {
    if !Resortable(t) {
      return None;
    }
    var dst := ResampleUnsort(sind, img, zero);
    return Some(dst);
  }
}
