/**
 * Longitude monotoniser (resample.cc, linearinterp and interplon). Along a
 * sorted column, the rows whose sort index is their own row number keep
 * their sorted longitude; these rows, plus a synthetic point between the
 * two middle detectors of every scan, are the references. Every other row
 * gets the longitude linearly interpolated, at its own row number, between
 * the references on either side of it; rows before the first kept row, and
 * rows after the last reference, are filled flat.
 */
module InterpLon {
  import opened Viirs
  import opened Wrappers
  import opened RealArith

  /**
   * linearinterp: the value at x on the line through (x0, y0) and (x1, y1).
   * It passes through both points, and between them stays between y0 and y1.
   */
  function LinearInterp(x0: real, y0: real, x1: real, y1: real, x: real): (y: real)
    requires x0 != x1
    ensures x == x0 ==> y == y0
    ensures x == x1 ==> y == y1
    ensures (x0 <= x <= x1 || x1 <= x <= x0) ==> (y0 <= y <= y1 || y1 <= y <= y0)
  {
    var lam := (x - x0) / (x1 - x0);
    LerpBetween(x0, y0, x1, y1, x, lam);
    (1.0 - lam) * y0 + lam * y1
  }

  lemma LerpBetween(x0: real, y0: real, x1: real, y1: real, x: real, lam: real)
    requires x0 != x1 && lam == (x - x0) / (x1 - x0)
    ensures x == x0 ==> (1.0 - lam) * y0 + lam * y1 == y0
    ensures x == x1 ==> (1.0 - lam) * y0 + lam * y1 == y1
    ensures (x0 <= x <= x1 || x1 <= x <= x0) ==>
      var y := (1.0 - lam) * y0 + lam * y1; y0 <= y <= y1 || y1 <= y <= y0
  {
    assert lam * (x1 - x0) == x - x0;
    assert (1.0 - lam) * y0 + lam * y1 == y0 + lam * (y1 - y0);
    if x == x0 {
      ProductZero(lam, x1 - x0);
    }
    if x == x1 {
      assert (lam - 1.0) * (x1 - x0) == lam * (x1 - x0) - (x1 - x0);
      ProductZero(lam - 1.0, x1 - x0);
    }
    if x0 <= x <= x1 || x1 <= x <= x0 {
      FractionInUnit(x0, x1, x, lam);
      ScaledWithin(lam, y1 - y0);
    }
  }

  /** The fraction of the way from x0 to x1 at which a point between them lies is in [0, 1]. */
  lemma FractionInUnit(x0: real, x1: real, x: real, lam: real)
    requires x0 != x1 && lam * (x1 - x0) == x - x0
    requires x0 <= x <= x1 || x1 <= x <= x0
    ensures 0.0 <= lam <= 1.0
  {
    var d := x1 - x0;
    ProductSign(lam, d);
    ProductSign(lam - 1.0, d);
    assert (lam - 1.0) * d == x - x1;
    if d > 0.0 {
      assert x0 <= x <= x1;
    } else {
      assert x1 <= x <= x0;
    }
    assert 0.0 <= lam;
  }

  /** A fraction in [0, 1] of d lies between 0 and d. */
  lemma ScaledWithin(lam: real, d: real)
    requires 0.0 <= lam <= 1.0
    ensures 0.0 <= d ==> 0.0 <= lam * d <= d
    ensures d <= 0.0 ==> d <= lam * d <= 0.0
  {
    assert d - lam * d == (1.0 - lam) * d;
    ProductSign(lam, d);
    ProductSign(1.0 - lam, d);
  }

  /** A reference point of the interpolation: a row position and its longitude. */
  datatype Ref = Ref(x: real, y: real)

  /** Row i keeps its place under sorting. */
  predicate IsAnchor(sind: seq<int>, i: int)
    requires 0 <= i < |sind|
  {
    sind[i] == i
  }

  /** Row i is the first row of the lower half of its scan. */
  predicate IsMidScan(i: int)
  {
    i % NDETECTORS == NDETECTORS / 2
  }

  /** The synthetic reference half a row above a mid-scan row: the mean of the two unsorted longitudes around it. */
  function MidScanRef(lon: seq<real>, i: int): (r: Ref)
    requires 1 <= i < |lon|
    ensures r.x == i as real - 0.5
  {
    Ref(i as real - 0.5, (lon[i] + lon[i - 1]) / 2.0)
  }

  /** The first kept row at or after i. */
  function FirstAnchorFrom(sind: seq<int>, i: int): (a: int)
    requires 0 <= i <= |sind| && exists j :: i <= j < |sind| && sind[j] == j
    ensures i <= a < |sind| && IsAnchor(sind, a)
    ensures forall j :: i <= j < a ==> !IsAnchor(sind, j)
    decreases |sind| - i
  {
    if sind[i] == i then i else FirstAnchorFrom(sind, i + 1)
  }

  /** The first kept row of the column. */
  function FirstAnchor(sind: seq<int>): (a: int)
    requires exists j :: 0 <= j < |sind| && sind[j] == j
    ensures 0 <= a < |sind| && IsAnchor(sind, a)
    ensures forall j :: 0 <= j < a ==> !IsAnchor(sind, j)
  {
    FirstAnchorFrom(sind, 0)
  }

  /** Inputs of one column: indices, sorted and unsorted longitudes, all of one length, with a kept row. */
  ghost predicate ValidColumn(sind: seq<int>, slon: seq<real>, lon: seq<real>)
  {
    |sind| == |slon| == |lon| && exists j :: 0 <= j < |sind| && sind[j] == j
  }

  /**
   * The latest reference met while scanning rows a..j in order, where a is
   * the first kept row: at row i the mid-scan point comes before the row
   * itself, so a kept row is later than the mid-scan point of its own row.
   */
  function LastRef(sind: seq<int>, slon: seq<real>, lon: seq<real>, j: int): (r: Ref)
    requires ValidColumn(sind, slon, lon)
    requires FirstAnchor(sind) <= j < |sind|
    ensures r.x <= j as real
    ensures r.x >= FirstAnchor(sind) as real - 0.5
    decreases j
  {
    if IsAnchor(sind, j) then Ref(j as real, slon[j])
    else if IsMidScan(j) then MidScanRef(lon, j)
    else LastRef(sind, slon, lon, j - 1)
  }

  /** The first reference met while scanning rows i, i+1, ... in order, if any. */
  function NextRef(sind: seq<int>, slon: seq<real>, lon: seq<real>, i: int): (r: Option<Ref>)
    requires ValidColumn(sind, slon, lon)
    requires 1 <= i <= |sind|
    ensures r.Some? ==> r.value.x >= i as real - 0.5
    decreases |sind| - i
  {
    if i == |sind| then None
    else if IsMidScan(i) then Some(MidScanRef(lon, i))
    else if IsAnchor(sind, i) then Some(Ref(i as real, slon[i]))
    else NextRef(sind, slon, lon, i + 1)
  }

  /**
   * The interpolated longitude of row k: the first kept row's longitude
   * before it, the sorted longitude at kept rows, and otherwise the line
   * between the references on either side, or the last reference if there
   * is none after.
   */
  function InterpAt(sind: seq<int>, slon: seq<real>, lon: seq<real>, k: int): real
    requires ValidColumn(sind, slon, lon) && 0 <= k < |sind|
  {
    var a := FirstAnchor(sind);
    if k < a then slon[a]
    else if IsAnchor(sind, k) then slon[k]
    else
      var prev := LastRef(sind, slon, lon, k);
      match NextRef(sind, slon, lon, k + 1)
      case None => prev.y
      case Some(next) => LinearInterp(prev.x, prev.y, next.x, next.y, k as real)
  }

  /** The whole interpolated column, row by row. */
  function InterpColumn(sind: seq<int>, slon: seq<real>, lon: seq<real>): (c: seq<real>)
    requires ValidColumn(sind, slon, lon)
    ensures |c| == |sind| && forall k :: 0 <= k < |sind| ==> c[k] == InterpAt(sind, slon, lon, k)
  {
    seq(|sind|, k requires 0 <= k < |sind| => InterpAt(sind, slon, lon, k))
  }

  /**
   * Every interpolated row lies between the two references around it, so
   * the resulting longitude never overshoots its neighbouring references.
   */
  lemma InterpBetweenReferences(sind: seq<int>, slon: seq<real>, lon: seq<real>, k: int)
    requires ValidColumn(sind, slon, lon) && FirstAnchor(sind) <= k < |sind| && !IsAnchor(sind, k)
    requires NextRef(sind, slon, lon, k + 1).Some?
    ensures var prev, next := LastRef(sind, slon, lon, k), NextRef(sind, slon, lon, k + 1).value;
      prev.x < k as real < next.x &&
      (prev.y <= InterpAt(sind, slon, lon, k) <= next.y || next.y <= InterpAt(sind, slon, lon, k) <= prev.y)
  {
    var prev := LastRef(sind, slon, lon, k);
    assert prev.x < k as real by {
      if !IsMidScan(k) {
        assert prev == LastRef(sind, slon, lon, k - 1);
      }
    }
  }

  /** Without references between rows k and j, the latest reference at j is the one at k. */
  lemma {:induction false} LastRefSkips(sind: seq<int>, slon: seq<real>, lon: seq<real>, k: int, j: int)
    requires ValidColumn(sind, slon, lon)
    requires FirstAnchor(sind) <= k <= j < |sind|
    requires forall i :: k < i <= j ==> !IsAnchor(sind, i) && !IsMidScan(i)
    ensures LastRef(sind, slon, lon, j) == LastRef(sind, slon, lon, k)
    decreases j
  {
    if j > k {
      LastRefSkips(sind, slon, lon, k, j - 1);
    }
  }

  /** Without references in rows i..j-1, the next reference from i is the one from j. */
  lemma {:induction false} NextRefSkips(sind: seq<int>, slon: seq<real>, lon: seq<real>, i: int, j: int)
    requires ValidColumn(sind, slon, lon)
    requires 1 <= i <= j <= |sind|
    requires forall r :: i <= r < j ==> !IsAnchor(sind, r) && !IsMidScan(r)
    ensures NextRef(sind, slon, lon, i) == NextRef(sind, slon, lon, j)
    decreases j - i
  {
    if i < j {
      NextRefSkips(sind, slon, lon, i + 1, j);
    }
  }

  /** The loop `for j in buf: dst[buf[j]] = linearinterp(...)` of interplon. */
  method FillInterp(dst: array<real>, buf: seq<int>, from: Ref, to: Ref)
    requires |buf| > 0 ==> from.x != to.x
    requires forall j :: 0 <= j < |buf| ==> 0 <= buf[j] < dst.Length
    modifies dst
    ensures forall j :: 0 <= j < |buf| ==> dst[buf[j]] == LinearInterp(from.x, from.y, to.x, to.y, buf[j] as real)
    ensures forall k :: 0 <= k < dst.Length && k !in buf ==> dst[k] == old(dst[k])
  {
    for j := 0 to |buf|
      invariant forall t :: 0 <= t < j ==> dst[buf[t]] == LinearInterp(from.x, from.y, to.x, to.y, buf[t] as real)
      invariant forall k :: 0 <= k < dst.Length && k !in buf[..j] ==> dst[k] == old(dst[k])
    {
      dst[buf[j]] := LinearInterp(from.x, from.y, to.x, to.y, buf[j] as real);
    }
  }

  /** The loop `for j in buf: dst[buf[j]] = v` of interplon. */
  method FillFlat(dst: array<real>, buf: seq<int>, v: real)
    requires forall j :: 0 <= j < |buf| ==> 0 <= buf[j] < dst.Length
    modifies dst
    ensures forall j :: 0 <= j < |buf| ==> dst[buf[j]] == v
    ensures forall k :: 0 <= k < dst.Length && k !in buf ==> dst[k] == old(dst[k])
  {
    for j := 0 to |buf|
      invariant forall t :: 0 <= t < j ==> dst[buf[t]] == v
      invariant forall k :: 0 <= k < dst.Length && k !in buf[..j] ==> dst[k] == old(dst[k])
    {
      dst[buf[j]] := v;
    }
  }

  /** The rows lo, lo+1, ..., hi-1. */
  function Range(lo: int, hi: int): (s: seq<int>)
    requires lo <= hi
    ensures |s| == hi - lo && forall j :: 0 <= j < |s| ==> s[j] == lo + j
  {
    seq(hi - lo, j requires 0 <= j < hi - lo => lo + j)
  }

  /**
   * interplon: writes the interpolated longitude of every row of the column
   * into dst. The column must have a kept row (row 0 of a granule of whole
   * scans always is one); without it the source reads past the column.
   */
  method InterpLon(sind: seq<int>, slon: seq<real>, lon: seq<real>, n: int, dst: array<real>)
    requires |sind| == |slon| == |lon| == n == dst.Length
    requires exists j :: 0 <= j < n && sind[j] == j
    modifies dst
    ensures forall k :: 0 <= k < n ==> dst[k] == InterpAt(sind, slon, lon, k)
    ensures dst[..] == InterpColumn(sind, slon, lon)
  {
    assert ValidColumn(sind, slon, lon);
    var i, buf := LeadingRows(sind);
    FillFlat(dst, buf, slon[i]);
    forall k | 0 <= k < i ensures dst[k] == InterpAt(sind, slon, lon, k) {
      assert buf[k] == k;
    }
    var lo, prev;
    lo, prev, buf := ScanRows(sind, slon, lon, dst, i);
    forall k | lo <= k < n ensures InterpAt(sind, slon, lon, k) == prev.y {
      LastRefSkips(sind, slon, lon, lo, k);
      NextRefSkips(sind, slon, lon, k + 1, n);
    }
    FillFlat(dst, buf, prev.y);
    forall k | 0 <= k < n ensures dst[k] == InterpAt(sind, slon, lon, k) {
      if k >= lo {
        assert buf[k - lo] == k;
      } else {
        assert k !in buf;
      }
    }
  }

  /** The first loop of interplon: the rows before the first kept row are buffered. */
  method LeadingRows(sind: seq<int>) returns (i: int, buf: seq<int>)
    requires exists j :: 0 <= j < |sind| && sind[j] == j
    ensures i == FirstAnchor(sind) && buf == Range(0, i)
  {
    buf := [];
    i := 0;
    while !IsAnchor(sind, i)
      invariant 0 <= i <= FirstAnchor(sind) && buf == Range(0, i)
      decreases FirstAnchor(sind) - i
    {
      buf := buf + [i];
      i := i + 1;
    }
  }

  /**
   * The main loop of interplon, from the first kept row a: every row up to
   * the last reference gets its interpolated longitude; the rows after it
   * are left buffered, with the last reference they follow.
   */
  method ScanRows(sind: seq<int>, slon: seq<real>, lon: seq<real>, dst: array<real>, a: int)
    returns (lo: int, prev: Ref, buf: seq<int>)
    requires ValidColumn(sind, slon, lon) && dst.Length == |sind| && a == FirstAnchor(sind)
    requires forall k :: 0 <= k < a ==> dst[k] == InterpAt(sind, slon, lon, k)
    modifies dst
    ensures a <= lo <= |sind| && buf == Range(lo, |sind|)
    ensures forall j :: lo <= j < |sind| ==> !IsAnchor(sind, j) && (lo < j ==> !IsMidScan(j))
    ensures lo < |sind| ==> prev == LastRef(sind, slon, lon, lo)
    ensures forall k :: 0 <= k < lo ==> dst[k] == InterpAt(sind, slon, lon, k)
  {
    var n := |sind|;
    var i := a;
    buf := [];
    prev := Ref(i as real, slon[i]);
    lo := i;
    while i < n
      invariant a <= lo <= i <= n && buf == Range(lo, i)
      invariant forall j :: lo <= j < i ==> !IsAnchor(sind, j)
      invariant forall j :: lo < j < i ==> !IsMidScan(j)
      invariant i == a ==> lo == a && prev == Ref(a as real, slon[a])
      invariant i > a ==> prev == LastRef(sind, slon, lon, i - 1)
      invariant lo < i ==> prev == LastRef(sind, slon, lon, lo)
      invariant forall k :: 0 <= k < lo ==> dst[k] == InterpAt(sind, slon, lon, k)
    {
      if IsMidScan(i) {
        var cur := MidScanRef(lon, i);
        Flush(sind, slon, lon, dst, buf, lo, i, prev, cur);
        buf := [];
        prev := cur;
        lo := i;
      }
      if IsAnchor(sind, i) {
        var cur := Ref(i as real, slon[i]);
        Flush(sind, slon, lon, dst, buf, lo, i, prev, cur);
        buf := [];
        prev := cur;
        dst[i] := slon[i];
        lo := i + 1;
      } else {
        buf := buf + [i];
      }
      i := i + 1;
    }
  }

  /**
   * Flushing the buffer at row i towards the reference cur met there: every
   * buffered row gets its interpolated longitude, and no other row changes.
   */
  method Flush(sind: seq<int>, slon: seq<real>, lon: seq<real>, dst: array<real>, buf: seq<int>, ghost lo: int, i: int, prev: Ref, cur: Ref)
    requires ValidColumn(sind, slon, lon) && dst.Length == |sind|
    requires FirstAnchor(sind) <= lo <= i < |sind| && buf == Range(lo, i)
    requires forall j :: lo <= j < i ==> !IsAnchor(sind, j)
    requires forall j :: lo < j < i ==> !IsMidScan(j)
    requires lo < i ==> prev == LastRef(sind, slon, lon, lo) && NextRef(sind, slon, lon, i) == Some(cur)
    requires lo < i ==> prev.x != cur.x
    modifies dst
    ensures forall k :: lo <= k < i ==> dst[k] == InterpAt(sind, slon, lon, k)
    ensures forall k :: 0 <= k < dst.Length && !(lo <= k < i) ==> dst[k] == old(dst[k])
  {
    FillInterp(dst, buf, prev, cur);
    forall k | lo <= k < i ensures dst[k] == InterpAt(sind, slon, lon, k) {
      LastRefSkips(sind, slon, lon, lo, k);
      NextRefSkips(sind, slon, lon, k + 1, i);
      assert buf[k - lo] == k;
    }
    forall k | 0 <= k < dst.Length && !(lo <= k < i) ensures dst[k] == old(dst[k]) {
      assert k !in buf;
    }
  }
}
