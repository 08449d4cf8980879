/**
 * argsortlat of resample_viirs.cc (the same code appears in resample_geo.cc):
 * for every column of a latitude image, a sort order of the rows by
 * latitude. The column is sampled every swath-size rows; when the sampled
 * latitudes first rise and later fall (a north pole) or first fall and later
 * rise (a south pole), the column is split before the reversal and the two
 * parts are sorted in opposite directions.
 */
module ArgSort {
  import Permutation
  import Permute

  datatype Pole = NorthPole | SouthPole | NoPole

  /** The SGN macro. */
  function Sgn(v: real): (s: int)
    ensures s == 1 <==> v > 0.0
    ensures s == -1 <==> v < 0.0
    ensures s == 0 <==> v == 0.0
  {
    if v > 0.0 then 1 else if v < 0.0 then -1 else 0
  }

  /** The direction of the sampled step that ends at row i. */
  function Step(c: seq<real>, sw: int, i: int): int
    requires 1 <= sw <= i < |c|
  {
    Sgn(c[i] - c[i - sw])
  }

  /** The directions of the sampled steps ending at rows i, i+sw, i+2sw, ... inside the column. */
  ghost function Steps(c: seq<real>, sw: int, i: int): (t: seq<int>)
    requires 1 <= sw <= i
    ensures |t| == 0 <==> i >= |c|
    ensures forall a :: 0 <= a < |t| ==> -1 <= t[a] <= 1
    decreases |c| - i
  {
    if i >= |c| then [] else [Step(c, sw, i)] + Steps(c, sw, i + sw)
  }

  /** The first sampled row: off + swathsize with off = swathsize/2. */
  function Start(sw: int): int
  {
    sw / 2 + sw
  }

  /**
   * The first loop of argsortlat from row i: the first non-zero direction
   * and the row where it was found, or direction 0 and the row past the end.
   */
  function DirScan(c: seq<real>, sw: int, i: int): (r: (int, int))
    requires 1 <= sw <= i
    ensures i <= r.1
    ensures -1 <= r.0 <= 1
    ensures r.0 == 0 <==> r.1 >= |c|
    ensures r.0 != 0 ==> Step(c, sw, r.1) == r.0
    decreases |c| - i
  {
    if i >= |c| then (0, i)
    else if Step(c, sw, i) != 0 then (Step(c, sw, i), i)
    else DirScan(c, sw, i + sw)
  }

  /** Direction d turns back against direction dir. */
  predicate Reverses(dir: int, d: int)
  {
    (dir == 1 && d == -1) || (dir == -1 && d == 1)
  }

  /** The second loop of argsortlat from row i: the first row whose step reverses dir, or a row past the end. */
  function ChangeScan(c: seq<real>, sw: int, dir: int, i: int): (k: int)
    requires 1 <= sw <= i
    ensures i <= k
    ensures k < |c| ==> Reverses(dir, Step(c, sw, k))
    decreases |c| - i
  {
    if i >= |c| then i
    else if Reverses(dir, Step(c, sw, i)) then i
    else ChangeScan(c, sw, dir, i + sw)
  }

  /** How argsortlat orders one column: whole, or split before a reversal with the top part north-ascending. */
  datatype ColumnOrder = Whole(ascending: bool) | PoleSplit(north: bool, split: int)

  /** The order argsortlat chooses for column c with swath size sw. */
  function ColumnPlan(c: seq<real>, sw: int): (p: ColumnOrder)
    requires sw >= 1
    ensures p.PoleSplit? ==> sw / 2 <= p.split && p.split + sw < |c|
  {
    var r := DirScan(c, sw, Start(sw));
    var k := ChangeScan(c, sw, r.0, r.1);
    if k >= |c| then Whole(r.0 >= 0) else PoleSplit(r.0 == 1, k - sw)
  }

  /** The pole state argsortlat holds after the column. */
  function PoleOf(p: ColumnOrder): Pole
  {
    match p
    case Whole(_) => NoPole
    case PoleSplit(north, _) => if north then NorthPole else SouthPole
  }

  /** The first loop skips zero steps: the steps from i are zeros followed by the steps from where it stopped. */
  lemma {:induction false} DirScanSteps(c: seq<real>, sw: int, i: int)
    requires 1 <= sw <= i
    ensures var t, u := Steps(c, sw, i), Steps(c, sw, DirScan(c, sw, i).1);
      |u| <= |t| && t[|t| - |u|..] == u && (forall a :: 0 <= a < |t| - |u| ==> t[a] == 0) &&
      (DirScan(c, sw, i).0 != 0 ==> u[0] == DirScan(c, sw, i).0)
    decreases |c| - i
  {
    if i < |c| && Step(c, sw, i) == 0 {
      DirScanSteps(c, sw, i + sw);
      assert DirScan(c, sw, i) == DirScan(c, sw, i + sw);
      var t, t', u := Steps(c, sw, i), Steps(c, sw, i + sw), Steps(c, sw, DirScan(c, sw, i).1);
      assert t == [0] + t';
      assert t[|t| - |u|..] == t'[|t'| - |u|..];
      forall a | 0 <= a < |t| - |u| ensures t[a] == 0 {
        if a > 0 {
          assert t[a] == t'[a - 1];
        }
      }
    }
  }

  /** The second loop passes over steps that do not reverse dir, up to the first one that does. */
  lemma {:induction false} ChangeScanSteps(c: seq<real>, sw: int, dir: int, i: int)
    requires 1 <= sw <= i
    ensures var t, u := Steps(c, sw, i), Steps(c, sw, ChangeScan(c, sw, dir, i));
      |u| <= |t| && t[|t| - |u|..] == u && (forall a :: 0 <= a < |t| - |u| ==> !Reverses(dir, t[a])) &&
      (|u| > 0 ==> Reverses(dir, u[0]))
    decreases |c| - i
  {
    if i < |c| && !Reverses(dir, Step(c, sw, i)) {
      ChangeScanSteps(c, sw, dir, i + sw);
      assert ChangeScan(c, sw, dir, i) == ChangeScan(c, sw, dir, i + sw);
      var t, t', u := Steps(c, sw, i), Steps(c, sw, i + sw), Steps(c, sw, ChangeScan(c, sw, dir, i));
      assert t == [Step(c, sw, i)] + t';
      assert t[|t| - |u|..] == t'[|t'| - |u|..];
      forall a | 0 <= a < |t| - |u| ensures !Reverses(dir, t[a]) {
        if a > 0 {
          assert t[a] == t'[a - 1];
        }
      }
    }
  }

  /**
   * The two loops cut the sampled steps t at m1 (where the first loop
   * stopped) and m2 (where the second stopped): zeros before m1, the first
   * direction d at m1, no reversal of d before m2, and a reversal at m2 if
   * the column did not run out.
   */
  lemma ScanCuts(c: seq<real>, sw: int)
    requires sw >= 1
    ensures var t, r := Steps(c, sw, Start(sw)), DirScan(c, sw, Start(sw));
      var k2 := ChangeScan(c, sw, r.0, r.1);
      var m1, m2 := |t| - |Steps(c, sw, r.1)|, |t| - |Steps(c, sw, k2)|;
      0 <= m1 <= m2 <= |t| &&
      (forall a :: 0 <= a < m1 ==> t[a] == 0) &&
      (r.0 == 0 <==> m1 == |t|) &&
      (r.0 != 0 ==> t[m1] == r.0) &&
      (forall a :: m1 <= a < m2 ==> !Reverses(r.0, t[a])) &&
      (m2 == |t| <==> k2 >= |c|) &&
      (m2 < |t| ==> Reverses(r.0, t[m2]))
  {
    var s := Start(sw);
    var t := Steps(c, sw, s);
    var r := DirScan(c, sw, s);
    var k2 := ChangeScan(c, sw, r.0, r.1);
    DirScanSteps(c, sw, s);
    ChangeScanSteps(c, sw, r.0, r.1);
    var u1, u2 := Steps(c, sw, r.1), Steps(c, sw, k2);
    var m1 := |t| - |u1|;
    assert t[m1..] == u1;
    assert u1[|u1| - |u2|..] == u2;
    forall a | m1 <= a < |t| ensures t[a] == u1[a - m1] {
      assert t[m1..][a - m1] == t[a];
    }
  }

  /**
   * What the chosen order means for the sampled steps t of the column: it
   * is ascending whole exactly when no step falls, and descending whole
   * exactly when no step rises and one falls.
   */
  lemma WholeMeaning(c: seq<real>, sw: int)
    requires sw >= 1
    ensures var t := Steps(c, sw, Start(sw));
      (ColumnPlan(c, sw) == Whole(true) <==> forall a :: 0 <= a < |t| ==> t[a] >= 0) &&
      (ColumnPlan(c, sw) == Whole(false) <==> (forall a :: 0 <= a < |t| ==> t[a] <= 0) && exists a :: 0 <= a < |t| && t[a] < 0)
  {
    var t, r := Steps(c, sw, Start(sw)), DirScan(c, sw, Start(sw));
    var k2 := ChangeScan(c, sw, r.0, r.1);
    var m1, m2 := |t| - |Steps(c, sw, r.1)|, |t| - |Steps(c, sw, k2)|;
    ScanCuts(c, sw);
    if r.0 != 0 {
      if m2 < |t| {
        assert Reverses(r.0, t[m2]);
      }
    }
  }

  /**
   * A north (south) split sits one sample before the first falling
   * (rising) step, and every earlier step is rising (falling) or flat with
   * at least one rising (falling).
   */
  lemma SplitMeaning(c: seq<real>, sw: int)
    requires sw >= 1
    ensures var t, p := Steps(c, sw, Start(sw)), ColumnPlan(c, sw);
      p.PoleSplit? ==>
        var m := |t| - |Steps(c, sw, p.split + sw)|;
        0 <= m < |t| && t[m] == (if p.north then -1 else 1) &&
        (forall a :: 0 <= a < m ==> if p.north then t[a] >= 0 else t[a] <= 0) &&
        exists a :: 0 <= a < m && t[a] == (if p.north then 1 else -1)
  {
    var t, r := Steps(c, sw, Start(sw)), DirScan(c, sw, Start(sw));
    var k2 := ChangeScan(c, sw, r.0, r.1);
    var m1, m2 := |t| - |Steps(c, sw, r.1)|, |t| - |Steps(c, sw, k2)|;
    ScanCuts(c, sw);
    var p := ColumnPlan(c, sw);
    if p.PoleSplit? {
      assert k2 < |c| && p.split + sw == k2;
      assert m1 < m2 && t[m1] == r.0;
    }
  }

  /** `a` comes no later than `b` in the requested direction. */
  predicate Before(a: real, b: real, asc: bool)
  {
    if asc then a <= b else a >= b
  }

  /** Every entry of idx is a row of a column of n rows. */
  ghost predicate IndexesInto(idx: seq<int>, lo: int, hi: int)
  {
    forall k :: 0 <= k < |idx| ==> lo <= idx[k] < hi
  }

  /** Listing c at the rows idx gives values in the requested order. */
  ghost predicate Ordered(c: seq<real>, idx: seq<int>, asc: bool)
    requires IndexesInto(idx, 0, |c|)
  {
    forall a, b :: 0 <= a < b < |idx| ==> Before(c[idx[a]], c[idx[b]], asc)
  }

  /**
   * sortIdx over one column: the rows of c listed so that their values are
   * in the requested order. OpenCV's sort is not part of this model; this
   * insertion sort has the same contract, and nothing depends on how it
   * orders equal values.
   */
  method SortIdx(c: seq<real>, asc: bool) returns (idx: seq<int>)
    ensures |idx| == |c| && Permutation.IsPermutation(idx)
    ensures IndexesInto(idx, 0, |c|) && Ordered(c, idx, asc)
  {
    idx := [];
    for i := 0 to |c|
      invariant |idx| == i && IndexesInto(idx, 0, i) && Permutation.Distinct(idx)
      invariant IndexesInto(idx, 0, |c|) && Ordered(c, idx, asc)
    {
      var p := 0;
      while p < |idx| && Before(c[idx[p]], c[i], asc)
        invariant 0 <= p <= |idx|
        invariant forall k :: 0 <= k < p ==> Before(c[idx[k]], c[i], asc)
      {
        p := p + 1;
      }
      assert forall k :: p <= k < |idx| ==> Before(c[i], c[idx[k]], asc) by {
        forall k | p <= k < |idx| ensures Before(c[i], c[idx[k]], asc) {
          assert !Before(c[idx[p]], c[i], asc);
          if k > p {
            assert Before(c[idx[p]], c[idx[k]], asc);
          }
        }
      }
      Insert(c, idx, i, p, asc);
      idx := idx[..p] + [i] + idx[p..];
    }
  }

  /** Placing a new row i between the rows not after it and the rows after it keeps the list ordered and distinct. */
  lemma Insert(c: seq<real>, idx: seq<int>, i: int, p: int, asc: bool)
    requires 0 <= p <= |idx| && 0 <= i < |c| && IndexesInto(idx, 0, i) && Permutation.Distinct(idx)
    requires IndexesInto(idx, 0, |c|) && Ordered(c, idx, asc)
    requires forall k :: 0 <= k < p ==> Before(c[idx[k]], c[i], asc)
    requires forall k :: p <= k < |idx| ==> Before(c[i], c[idx[k]], asc)
    ensures var n := idx[..p] + [i] + idx[p..];
      IndexesInto(n, 0, i + 1) && Permutation.Distinct(n) && IndexesInto(n, 0, |c|) && Ordered(c, n, asc)
  {
    var n := idx[..p] + [i] + idx[p..];
    assert forall k :: 0 <= k < |n| ==> n[k] == (if k < p then idx[k] else if k == p then i else idx[k - 1]);
    forall a, b | 0 <= a < b < |n| ensures n[a] != n[b] && Before(c[n[a]], c[n[b]], asc) {
      if b < p {
      } else if b == p {
      } else if a < p {
      } else if a == p {
      } else {
      }
    }
  }

  /** The row where order p cuts the column: the split, or 0 for a whole column (an empty top part). */
  function Cut(p: ColumnOrder): int
  {
    if p.Whole? then 0 else p.split
  }

  /** The direction of the part above the cut (ascending for a north pole). */
  function TopAscending(p: ColumnOrder): bool
  {
    p.PoleSplit? && p.north
  }

  /** The direction of the part from the cut down. */
  function BottomAscending(p: ColumnOrder): bool
  {
    if p.Whole? then p.ascending else !p.north
  }

  /** The rows of col above s hold rows above s, and the rows from s on hold rows from s on. */
  ghost predicate Blocks(col: seq<int>, s: int)
  {
    forall k :: 0 <= k < |col| ==> if k < s then 0 <= col[k] < s else s <= col[k] < |col|
  }

  /** Listing c at the rows col[lo..hi] gives values in the requested order. */
  ghost predicate OrderedRange(c: seq<real>, col: seq<int>, lo: int, hi: int, asc: bool)
    requires 0 <= lo <= hi <= |col| && IndexesInto(col, 0, |c|)
  {
    forall a, b :: lo <= a < b < hi ==> Before(c[col[a]], c[col[b]], asc)
  }

  /**
   * What argsortlat writes into a column c with order p: distinct rows;
   * above the cut, the rows above the cut sorted among themselves
   * (ascending for a north pole); from the cut down, the remaining rows
   * sorted the other way (or, for a whole column, in its direction).
   */
  ghost predicate SortsColumn(c: seq<real>, col: seq<int>, p: ColumnOrder)
  {
    var s := Cut(p);
    |col| == |c| && 0 <= s <= |c| && Blocks(col, s) && Permutation.Distinct(col) && IndexesInto(col, 0, |c|) &&
    OrderedRange(c, col, 0, s, TopAscending(p)) && OrderedRange(c, col, s, |c|, BottomAscending(p))
  }

  /** Whatever the order, the column written is a permutation of the rows. */
  lemma SortsColumnPermutation(c: seq<real>, col: seq<int>, p: ColumnOrder)
    requires SortsColumn(c, col, p)
    ensures Permutation.IsPermutation(col)
  {
  }

  /** A whole column sorted by sortIdx is what SortsColumn asks of a whole column. */
  lemma WholeColumnSorts(c: seq<real>, asc: bool, col: seq<int>)
    requires |col| == |c| && IndexesInto(col, 0, |c|) && Permutation.Distinct(col) && Ordered(c, col, asc)
    ensures SortsColumn(c, col, Whole(asc))
  {
  }

  /** argsortlat's pole state after column x of lat. */
  ghost function PoleAt(lat: seq<seq<real>>, sw: int, x: int): Pole
    requires sw >= 1 && 0 <= x && forall r :: 0 <= r < |lat| ==> x < |lat[r]|
  {
    PoleOf(ColumnPlan(Permute.Column(lat, x), sw))
  }

  /** Column cur finds the pole opposite to the one the previous column found: argsortlat's assertion fails. */
  predicate Conflict(prev: Pole, cur: Pole)
  {
    (cur == NorthPole && prev == SouthPole) || (cur == SouthPole && prev == NorthPole)
  }

  /** Column x finds the pole opposite to column x-1. */
  ghost predicate ConflictAt(lat: seq<seq<real>>, sw: int, w: int, x: int)
    requires sw >= 1 && Permute.IsGrid(lat, |lat|, w)
  {
    1 <= x < w && Conflict(PoleAt(lat, sw, x - 1), PoleAt(lat, sw, x))
  }

  /** No column of lat contradicts the pole of the column before it. */
  ghost predicate NoPoleConflict(lat: seq<seq<real>>, sw: int, w: int)
    requires sw >= 1 && Permute.IsGrid(lat, |lat|, w)
  {
    forall x :: 0 <= x < w ==> !ConflictAt(lat, sw, w, x)
  }

  /** g sorts every column of lat in the order argsortlat chooses for it. */
  ghost predicate ArgSorted(lat: seq<seq<real>>, g: seq<seq<int>>, sw: int, w: int)
    requires sw >= 1
  {
    Permute.IsGrid(lat, |lat|, w) && Permute.IsGrid(g, |lat|, w) &&
    forall x {:trigger Permute.Column(g, x)} :: 0 <= x < w ==>
      SortsColumn(Permute.Column(lat, x), Permute.Column(g, x), ColumnPlan(Permute.Column(lat, x), sw))
  }

  /** An argsortlat result is an index grid whose every column is a permutation, so sorting by it can be undone. */
  lemma ArgSortedPermutes(lat: seq<seq<real>>, g: seq<seq<int>>, sw: int, w: int)
    requires sw >= 1 && ArgSorted(lat, g, sw, w)
    ensures Permute.IsIndexGrid(g, |lat|, w) && Permute.ColumnsArePermutations(g, w)
  {
    forall x | 0 <= x < w ensures Permutation.IsPermutation(Permute.Column(g, x)) {
      var c := Permute.Column(lat, x);
      SortsColumnPermutation(c, Permute.Column(g, x), ColumnPlan(c, sw));
    }
    forall y, x | 0 <= y < |lat| && 0 <= x < w ensures 0 <= g[y][x] < |lat| {
      assert Permute.Column(g, x)[y] == g[y][x];
    }
  }

  /** The first loop of argsortlat over column c: it stops at the first non-zero step. */
  method ScanDirection(c: seq<real>, sw: int) returns (dir: int, i: int)
    requires sw >= 1
    ensures (dir, i) == DirScan(c, sw, Start(sw))
  {
    var off := sw / 2;
    dir := 0;
    i := off + sw;
    while i < |c|
      invariant Start(sw) <= i && dir == 0
      invariant DirScan(c, sw, i) == DirScan(c, sw, Start(sw))
      decreases |c| - i
    {
      dir := Sgn(c[i] - c[i - sw]);
      if dir != 0 {
        break;
      }
      i := i + sw;
    }
  }

  /**
   * The second loop of argsortlat: from row i it stops at the first step
   * that reverses dir. (The pole test the source makes on leaving the loop
   * is made by the caller.)
   */
  method ScanChange(c: seq<real>, sw: int, dir: int, i0: int) returns (i: int)
    requires 1 <= sw <= i0
    ensures i == ChangeScan(c, sw, dir, i0)
  {
    i := i0;
    while i < |c|
      invariant i0 <= i
      invariant ChangeScan(c, sw, dir, i) == ChangeScan(c, sw, dir, i0)
      decreases |c| - i
    {
      var d := Sgn(c[i] - c[i - sw]);
      if (dir == 1 && d == -1) || (dir == -1 && d == 1) {
        break;
      }
      i := i + sw;
    }
  }

  /** Writes vals into column j of dst from row `from` on; nothing else changes. */
  method WriteColumn(dst: array2<int>, j: int, from: int, vals: seq<int>)
    requires 0 <= j < dst.Length1 && 0 <= from && from + |vals| <= dst.Length0
    modifies dst
    ensures forall y :: from <= y < from + |vals| ==> dst[y, j] == vals[y - from]
    ensures forall y, x :: 0 <= y < dst.Length0 && 0 <= x < dst.Length1 && !(x == j && from <= y < from + |vals|) ==>
      dst[y, x] == old(dst[y, x])
  {
    for k := 0 to |vals|
      invariant forall y :: from <= y < from + k ==> dst[y, j] == vals[y - from]
      invariant forall y, x :: 0 <= y < dst.Length0 && 0 <= x < dst.Length1 && !(x == j && from <= y < from + k) ==>
        dst[y, x] == old(dst[y, x])
    {
      dst[from + k, j] := vals[k];
    }
  }

  /** `botidx += split`: adds delta to column j of dst from row `from` down; nothing else changes. */
  method AddToColumn(dst: array2<int>, j: int, from: int, delta: int)
    requires 0 <= j < dst.Length1 && 0 <= from <= dst.Length0
    modifies dst
    ensures forall y :: from <= y < dst.Length0 ==> dst[y, j] == old(dst[y, j]) + delta
    ensures forall y, x :: 0 <= y < dst.Length0 && 0 <= x < dst.Length1 && !(x == j && from <= y) ==> dst[y, x] == old(dst[y, x])
  {
    for y := from to dst.Length0
      invariant forall y' :: from <= y' < y ==> dst[y', j] == old(dst[y', j]) + delta
      invariant forall y', x :: 0 <= y' < dst.Length0 && 0 <= x < dst.Length1 && !(x == j && from <= y' < y) ==>
        dst[y', x] == old(dst[y', x])
    {
      dst[y, j] := dst[y, j] + delta;
    }
  }

  /** Sorting the two parts of a column separately, with the bottom offset by the split, gives what SortsColumn asks of a split. */
  lemma SplitColumnSorts(c: seq<real>, s: int, north: bool, top: seq<int>, bot: seq<int>, col: seq<int>)
    requires 0 <= s <= |c| && |top| == s && |bot| == |c| - s
    requires IndexesInto(top, 0, s) && Permutation.Distinct(top) && Ordered(c[..s], top, north)
    requires IndexesInto(bot, 0, |c| - s) && Permutation.Distinct(bot) && Ordered(c[s..], bot, !north)
    requires |col| == |c| && (forall k :: 0 <= k < s ==> col[k] == top[k]) && forall k :: s <= k < |c| ==> col[k] == bot[k - s] + s
    ensures SortsColumn(c, col, PoleSplit(north, s))
  {
    assert forall k :: 0 <= k < s ==> c[..s][top[k]] == c[col[k]];
    assert forall k :: s <= k < |c| ==> c[s..][bot[k - s]] == c[col[k]];
    SplitColumnDistinct(c, s, top, bot, col);
    forall a, b | 0 <= a < b < s ensures Before(c[col[a]], c[col[b]], north) {
      assert Before(c[..s][top[a]], c[..s][top[b]], north);
    }
    forall a, b | s <= a < b < |c| ensures Before(c[col[a]], c[col[b]], !north) {
      assert Before(c[s..][bot[a - s]], c[s..][bot[b - s]], !north);
    }
  }

  /** The two sorted parts of a split column, the bottom offset by the split, repeat no row. */
  lemma SplitColumnDistinct(c: seq<real>, s: int, top: seq<int>, bot: seq<int>, col: seq<int>)
    requires 0 <= s <= |c| && |top| == s && |bot| == |c| - s
    requires IndexesInto(top, 0, s) && Permutation.Distinct(top)
    requires IndexesInto(bot, 0, |c| - s) && Permutation.Distinct(bot)
    requires |col| == |c| && (forall k :: 0 <= k < s ==> col[k] == top[k]) && forall k :: s <= k < |c| ==> col[k] == bot[k - s] + s
    ensures Permutation.Distinct(col)
  {
    forall a, b | 0 <= a < b < |col| ensures col[a] != col[b] {
      if b < s {
        assert top[a] != top[b];
      } else if a >= s {
        assert bot[a - s] != bot[b - s];
      }
    }
  }

  /**
   * argsortlat on column j, whose latitudes are col: finds the order for
   * the column, fails when it finds the pole opposite to prev, the pole of
   * the column before, and otherwise writes the sorted row numbers into
   * column j of sortidx and returns the column's pole.
   */
  method ArgSortColumn(col: seq<real>, j: int, sw: int, prev: Pole, sortidx: array2<int>) returns (ok: bool, pole: Pole)
    requires sw >= 2 && 0 <= j < sortidx.Length1 && |col| == sortidx.Length0
    modifies sortidx
    ensures var p := ColumnPlan(col, sw);
      (ok <==> !Conflict(prev, PoleOf(p))) &&
      (ok ==> pole == PoleOf(p) && SortsColumn(col, Permute.ArrayColumn(sortidx, j), p))
    ensures forall y, x :: 0 <= y < sortidx.Length0 && 0 <= x < sortidx.Length1 && x != j ==> sortidx[y, x] == old(sortidx[y, x])
  {
    var height := |col|;
    ghost var p := ColumnPlan(col, sw);
    var dir, i := ScanDirection(col, sw);
    i := ScanChange(col, sw, dir, i);
    if i >= height {
      assert p == Whole(dir >= 0);
      SortWholeColumn(col, j, dir >= 0, sortidx);
      return true, NoPole;
    }
    assert p == PoleSplit(dir == 1, i - sw);
    if dir == 1 {
      if prev == SouthPole {
        return false, prev;
      }
      pole := NorthPole;
    } else {
      if prev == NorthPole {
        return false, prev;
      }
      pole := SouthPole;
    }
    var split := i - sw;
    SortSplitColumn(col, j, split, pole == NorthPole, sortidx);
    ok := true;
  }

  /** The whole-column branch of argsortlat on column j with latitudes col: the column sorted in direction asc. */
  method SortWholeColumn(col: seq<real>, j: int, asc: bool, sortidx: array2<int>)
    requires 0 <= j < sortidx.Length1 && |col| == sortidx.Length0
    modifies sortidx
    ensures SortsColumn(col, Permute.ArrayColumn(sortidx, j), Whole(asc))
    ensures forall y, x :: 0 <= y < sortidx.Length0 && 0 <= x < sortidx.Length1 && x != j ==> sortidx[y, x] == old(sortidx[y, x])
  {
    var idx := SortIdx(col, asc);
    WriteColumn(sortidx, j, 0, idx);
    assert Permute.ArrayColumn(sortidx, j) == idx;
    WholeColumnSorts(col, asc, idx);
  }

  /**
   * The split branch of argsortlat on column j with latitudes col: the rows
   * above the split sorted one way into the top of the column, the rest
   * sorted the other way into the bottom and offset by the split.
   */
  method SortSplitColumn(col: seq<real>, j: int, split: int, north: bool, sortidx: array2<int>)
    requires 0 <= j < sortidx.Length1 && |col| == sortidx.Length0 && 0 <= split <= |col|
    modifies sortidx
    ensures SortsColumn(col, Permute.ArrayColumn(sortidx, j), PoleSplit(north, split))
    ensures forall y, x :: 0 <= y < sortidx.Length0 && 0 <= x < sortidx.Length1 && x != j ==> sortidx[y, x] == old(sortidx[y, x])
  {
    var top := SortIdx(col[..split], north);
    WriteColumn(sortidx, j, 0, top);
    var bot := SortIdx(col[split..], !north);
    WriteColumn(sortidx, j, split, bot);
    AddToColumn(sortidx, j, split, split);
    var written := Permute.ArrayColumn(sortidx, j);
    SplitColumnSorts(col, split, north, top, bot, written);
  }

  /**
   * argsortlat: the sort indices of every column of lat with swath size sw.
   * It fails (the source's assertion aborts) exactly when some column finds
   * the pole opposite to the one the column before it found; otherwise
   * every column is sorted in the order chosen for it.
   */
  method ArgSortLat(lat: array2<real>, sw: int) returns (ok: bool, sortidx: array2<int>)
    requires sw >= 2
    ensures sortidx.Length0 == lat.Length0 && sortidx.Length1 == lat.Length1
    ensures ok <==> NoPoleConflict(Permute.Cells(lat), sw, lat.Length1)
    ensures ok ==> ArgSorted(Permute.Cells(lat), Permute.Cells(sortidx), sw, lat.Length1)
  {
    sortidx := new int[lat.Length0, lat.Length1]((y, x) => 0);
    ghost var cols, pole;
    ok, cols, pole := ArgSortColumns(lat, sw, sortidx);
    if ok {
      ghost var G := Permute.Cells(sortidx);
      assert forall y, x :: 0 <= y < lat.Length0 && 0 <= x < lat.Length1 ==> G[y][x] == cols[x][y];
      AllColumnsDone(Permute.Cells(lat), G, cols, sw, lat.Length1, pole);
    }
  }

  /** The column loop of argsortlat: every column in turn, stopping at the first conflict. */
  method ArgSortColumns(lat: array2<real>, sw: int, sortidx: array2<int>) returns (ok: bool, ghost cols: seq<seq<int>>, ghost pole: Pole)
    requires sw >= 2 && sortidx.Length0 == lat.Length0 && sortidx.Length1 == lat.Length1
    modifies sortidx
    ensures ok ==> Progress(Permute.Cells(lat), sortidx, cols, sw, lat.Length1, pole)
    ensures !ok ==> !NoPoleConflict(Permute.Cells(lat), sw, lat.Length1)
  {
    ghost var L := Permute.Cells(lat);
    var prev := NoPole;
    cols := [];
    for j := 0 to lat.Length1
      invariant L == Permute.Cells(lat)
      invariant Progress(L, sortidx, cols, sw, j, prev)
    {
      var colOk;
      colOk, prev, cols := ArgSortNext(lat, L, sortidx, cols, sw, j, prev);
      if !colOk {
        ConflictFails(L, sw, lat.Length1, j);
        return false, cols, prev;
      }
    }
    return true, cols, prev;
  }

  /** A conflict at one column is a conflict in the image. */
  lemma ConflictFails(L: seq<seq<real>>, sw: int, w: int, j: int)
    requires sw >= 1 && Permute.IsGrid(L, |L|, w) && 0 <= j < w && ConflictAt(L, sw, w, j)
    ensures !NoPoleConflict(L, sw, w)
  {
  }

  /** Once every column is done, no column conflicted and the grid of sorted columns is an argsortlat result. */
  lemma AllColumnsDone(L: seq<seq<real>>, g: seq<seq<int>>, cols: seq<seq<int>>, sw: int, w: int, pole: Pole)
    requires ColumnsDone(L, cols, sw, w, w, pole) && Permute.IsGrid(g, |L|, w)
    requires forall y, x :: 0 <= y < |L| && 0 <= x < w ==> g[y][x] == cols[x][y]
    ensures NoPoleConflict(L, sw, w) && ArgSorted(L, g, sw, w)
  {
    ColumnsMakeArgSorted(L, g, cols, sw, w);
  }

  /**
   * The state of argsortlat after the first j columns of latitudes L:
   * those columns of sortidx hold the sorted columns cols and the pure
   * part of the state holds.
   */
  ghost predicate Progress(L: seq<seq<real>>, sortidx: array2<int>, cols: seq<seq<int>>, sw: int, j: int, pole: Pole)
    reads sortidx
  {
    |L| == sortidx.Length0 && ColumnsDone(L, cols, sw, sortidx.Length1, j, pole) &&
    forall y, x :: 0 <= y < sortidx.Length0 && 0 <= x < j ==> sortidx[y, x] == cols[x][y]
  }

  /**
   * After the first j columns of L: cols are their sorted columns, no
   * column so far contradicted the one before it, and pole is the pole of
   * column j-1.
   */
  ghost predicate ColumnsDone(L: seq<seq<real>>, cols: seq<seq<int>>, sw: int, w: int, j: int, pole: Pole)
  {
    sw >= 1 && Permute.IsGrid(L, |L|, w) && 0 <= j <= w && |cols| == j &&
    (forall x {:trigger cols[x]} :: 0 <= x < j ==>
       |cols[x]| == |L| && SortsColumn(Permute.Column(L, x), cols[x], ColumnPlan(Permute.Column(L, x), sw)) &&
       !ConflictAt(L, sw, w, x)) &&
    pole == if j == 0 then NoPole else PoleAt(L, sw, j - 1)
  }

  /** A column sorted in its order and without a conflict with the column before extends the state by one column. */
  lemma ColumnsDoneStep(L: seq<seq<real>>, cols: seq<seq<int>>, done: seq<int>, sw: int, w: int, j: int, pole: Pole, pole': Pole)
    requires ColumnsDone(L, cols, sw, w, j, pole) && j < w
    requires SortsColumn(Permute.Column(L, j), done, ColumnPlan(Permute.Column(L, j), sw))
    requires pole' == PoleOf(ColumnPlan(Permute.Column(L, j), sw)) && !Conflict(pole, pole')
    ensures ColumnsDone(L, cols + [done], sw, w, j + 1, pole')
  {
    var cols' := cols + [done];
    forall x | 0 <= x <= j
      ensures |cols'[x]| == |L| && SortsColumn(Permute.Column(L, x), cols'[x], ColumnPlan(Permute.Column(L, x), sw))
    {
      if x < j {
        assert cols'[x] == cols[x];
      }
    }
    forall x | 0 <= x <= j ensures !ConflictAt(L, sw, w, x) {
      if x < j {
        assert cols'[x] == cols[x];
      } else if j > 0 {
        assert pole == PoleAt(L, sw, x - 1) && pole' == PoleAt(L, sw, x);
      }
    }
  }

  /** One pass of the column loop of argsortlat: column j, or the failure it finds there. */
  method ArgSortNext(lat: array2<real>, ghost L: seq<seq<real>>, sortidx: array2<int>, ghost cols: seq<seq<int>>,
                     sw: int, j: int, pole: Pole) returns (ok: bool, pole': Pole, ghost cols': seq<seq<int>>)
    requires sw >= 2 && L == Permute.Cells(lat) && lat.Length0 == sortidx.Length0 && lat.Length1 == sortidx.Length1
    requires 0 <= j < lat.Length1 && Progress(L, sortidx, cols, sw, j, pole)
    modifies sortidx
    ensures ok ==> Progress(L, sortidx, cols', sw, j + 1, pole')
    ensures !ok ==> ConflictAt(L, sw, lat.Length1, j)
  {
    var col := Permute.ArrayColumn(lat, j);
    assert col == Permute.Column(L, j);
    ok, pole' := ArgSortColumn(col, j, sw, pole, sortidx);
    if !ok {
      cols' := cols;
      return;
    }
    ghost var done := Permute.ArrayColumn(sortidx, j);
    ColumnsDoneStep(L, cols, done, sw, lat.Length1, j, pole, pole');
    cols' := cols + [done];
    assert forall y, x :: 0 <= y < sortidx.Length0 && 0 <= x <= j ==> sortidx[y, x] == cols'[x][y];
  }

  /** A grid whose columns are the sorted columns cols is an argsortlat result. */
  lemma ColumnsMakeArgSorted(lat: seq<seq<real>>, g: seq<seq<int>>, cols: seq<seq<int>>, sw: int, w: int)
    requires sw >= 1 && Permute.IsGrid(lat, |lat|, w) && Permute.IsGrid(g, |lat|, w)
    requires |cols| == w && forall x :: 0 <= x < w ==> |cols[x]| == |lat|
    requires forall y, x :: 0 <= y < |lat| && 0 <= x < w ==> g[y][x] == cols[x][y]
    requires forall x :: 0 <= x < w ==> SortsColumn(Permute.Column(lat, x), cols[x], ColumnPlan(Permute.Column(lat, x), sw))
    ensures ArgSorted(lat, g, sw, w)
  {
    forall x | 0 <= x < w ensures Permute.Column(g, x) == cols[x] {
      assert forall y :: 0 <= y < |lat| ==> Permute.Column(g, x)[y] == cols[x][y];
    }
  }
}
