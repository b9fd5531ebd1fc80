/** Rasters, numpy's indexing rules and the accumulator `outputGearImage` (create_gear.py). */
module Raster {
  import opened Wrappers
  import opened PyNum
  import opened Geometry

  /** A raster as a value: a list of rows of pixel values. */
  type Grid = seq<seq<int>>

  /** A (row, col) pair of integer indices, before or after numpy's wrap-around. */
  type Cell = (int, int)

  const Cleared := 255
  const Material := 0

  function Width(g: Grid): nat {
    if |g| == 0 then 0 else |g[0]|
  }

  /** Every row has the same length, as in a 2-D numpy array. */
  predicate Rect(g: Grid) {
    forall i :: 0 <= i < |g| ==> |g[i]| == Width(g)
  }

  predicate SameShape(a: Grid, b: Grid) {
    |a| == |b| && forall i :: 0 <= i < |a| ==> |a[i]| == |b[i]|
  }

  /** The raster held by a 2-D array. */
  ghost function Cells(a: array2<int>): (g: Grid)
    reads a
    ensures |g| == a.Length0 && Rect(g)
    ensures a.Length0 > 0 ==> Width(g) == a.Length1
    ensures forall i, j :: 0 <= i < a.Length0 && 0 <= j < a.Length1 ==> |g[i]| == a.Length1 && g[i][j] == a[i, j]
  {
    seq(a.Length0, i requires 0 <= i < a.Length0 reads a =>
      seq(a.Length1, j requires 0 <= j < a.Length1 reads a => a[i, j]))
  }

  /** Two grids of the same shape that agree on every cell are equal. */
  lemma GridExt(a: Grid, b: Grid)
    requires SameShape(a, b)
    requires forall i, j :: 0 <= i < |a| && 0 <= j < |a[i]| ==> a[i][j] == b[i][j]
    ensures a == b
  {
    forall i | 0 <= i < |a| ensures a[i] == b[i] {
      assert forall j :: 0 <= j < |a[i]| ==> a[i][j] == b[i][j];
    }
  }

  /** How numpy reads one integer index on an axis of length n: [0, n) as is, [-n, -1] from the end,
      anything else raises IndexError. */
  function Wrap(k: int, n: int): (r: Option<int>)
    ensures r.Some? <==> -n <= k < n
    ensures r.Some? ==> 0 <= r.value < n && (r.value == k || r.value == k + n)
  {
    if 0 <= k < n then Some(k) else if -n <= k < 0 then Some(k + n) else None
  }

  /** Indexing a 2-D array with a (row, col) pair: both axes must accept their index. */
  function WrapCell(c: Cell, n0: int, n1: int): (r: Option<Cell>)
    ensures r.Some? <==> Wrap(c.0, n0).Some? && Wrap(c.1, n1).Some?
    ensures r.Some? ==> r.value == (Wrap(c.0, n0).value, Wrap(c.1, n1).value)
  {
    match (Wrap(c.0, n0), Wrap(c.1, n1))
    case (Some(r), Some(k)) => Some((r, k))
    case _ => None
  }

  /** Every index of the list is accepted by numpy (none would raise). */
  predicate AllResolve(cells: seq<Cell>, n0: int, n1: int) {
    forall k :: 0 <= k < |cells| ==> WrapCell(cells[k], n0, n1).Some?
  }

  /** The array cells a list of index pairs writes to, skipping the pairs that would raise. */
  function Resolved(cells: seq<Cell>, n0: int, n1: int): (s: set<Cell>)
    ensures forall c :: c in s ==> 0 <= c.0 < n0 && 0 <= c.1 < n1
  {
    if |cells| == 0 then {}
    else
      var rest := Resolved(cells[..|cells| - 1], n0, n1);
      match WrapCell(cells[|cells| - 1], n0, n1)
      case Some(c) => rest + {c}
      case None => rest
  }

  /** A cell is written exactly when some pair of the list resolves to it. */
  lemma {:induction false} ResolvedIff(cells: seq<Cell>, n0: int, n1: int, c: Cell)
    ensures c in Resolved(cells, n0, n1) <==>
            exists k :: 0 <= k < |cells| && WrapCell(cells[k], n0, n1) == Some(c)
  {
    if |cells| > 0 {
      var init := cells[..|cells| - 1];
      ResolvedIff(init, n0, n1, c);
      if c in Resolved(init, n0, n1) {
        var k :| 0 <= k < |init| && WrapCell(init[k], n0, n1) == Some(c);
        assert cells[k] == init[k];
      }
      if exists k :: 0 <= k < |cells| && WrapCell(cells[k], n0, n1) == Some(c) {
        var k :| 0 <= k < |cells| && WrapCell(cells[k], n0, n1) == Some(c);
        if k < |init| {
          assert init[k] == cells[k];
        }
      }
    }
  }

  /** Writing the pairs of a + b is writing those of a, then those of b. */
  lemma {:induction false} ResolvedAppend(a: seq<Cell>, b: seq<Cell>, n0: int, n1: int)
    ensures Resolved(a + b, n0, n1) == Resolved(a, n0, n1) + Resolved(b, n0, n1)
  {
    if |b| > 0 {
      var ab := a + b;
      assert ab[..|ab| - 1] == a + b[..|b| - 1];
      assert ab[|ab| - 1] == b[|b| - 1];
      ResolvedAppend(a, b[..|b| - 1], n0, n1);
    } else {
      assert a + b == a;
    }
  }

  /** The grid with every cell of s set to v; all other cells keep their value. */
  function Fill(g: Grid, s: set<Cell>, v: int): (r: Grid)
    ensures SameShape(r, g) && Width(r) == Width(g) && (Rect(g) ==> Rect(r))
    ensures forall i, j :: 0 <= i < |g| && 0 <= j < |g[i]| ==>
              r[i][j] == (if (i, j) in s then v else g[i][j])
  {
    seq(|g|, i requires 0 <= i < |g| =>
      seq(|g[i]|, j requires 0 <= j < |g[i]| => if (i, j) in s then v else g[i][j]))
  }

  /** Filling no cell changes nothing. */
  lemma FillNone(g: Grid, v: int)
    ensures Fill(g, {}, v) == g
  {
    GridExt(Fill(g, {}, v), g);
  }

  /** Filling A and then B with the same value is filling their union. */
  lemma FillTwice(g: Grid, a: set<Cell>, b: set<Cell>, v: int)
    ensures Fill(Fill(g, a, v), b, v) == Fill(g, a + b, v)
  {
    GridExt(Fill(Fill(g, a, v), b, v), Fill(g, a + b, v));
  }

  /** A grid of the given shape holding v everywhere (`np.zeros`, `255 * np.ones`). */
  function Constant(rows: nat, cols: nat, v: int): (r: Grid)
    ensures |r| == rows && Rect(r) && (rows > 0 ==> Width(r) == cols)
    ensures forall i, j :: 0 <= i < rows && 0 <= j < cols ==> |r[i]| == cols && r[i][j] == v
  {
    seq(rows, i requires 0 <= i < rows => seq(cols, j requires 0 <= j < cols => v))
  }

  // ---------------------------------------------------------------------------
  // outputGearImage

  /** The pixel indices `int((y+ratio)*size/(2*ratio))`, `int((x+ratio)*size/(2*ratio))` of a point. */
  function RawCell(p: Point, size: int, ratio: int): Cell
    requires ratio != 0
  {
    (PixelIndex(p.y, size, ratio), PixelIndex(p.x, size, ratio))
  }

  /** One coordinate's index `int((u+ratio)*size/(2*ratio))`. */
  function PixelIndex(u: real, size: int, ratio: int): int
    requires ratio != 0
  {
    Trunc(Scaled(u, size, ratio))
  }

  /** `(u+ratio)*size/(2*ratio)`: the coordinate mapped from [-ratio, ratio] onto [0, size]. */
  function Scaled(u: real, size: int, ratio: int): real
    requires ratio != 0
  {
    (u + ratio as real) * size as real / (2.0 * ratio as real)
  }

  function RawCells(pts: seq<Point>, size: int, ratio: int): (cells: seq<Cell>)
    requires ratio != 0
    ensures |cells| == |pts| && forall k :: 0 <= k < |pts| ==> cells[k] == RawCell(pts[k], size, ratio)
  {
    seq(|pts|, k requires 0 <= k < |pts| => RawCell(pts[k], size, ratio))
  }

  /** The cells of an n0 x n1 array that outputGearImage sets for these points. */
  function Targets(pts: seq<Point>, size: int, ratio: int, n0: int, n1: int): set<Cell>
    requires ratio != 0
  {
    Resolved(RawCells(pts, size, ratio), n0, n1)
  }

  /** The raster after outputGearImage(g, pts, size, ratio). */
  function StampGrid(g: Grid, pts: seq<Point>, size: int, ratio: int): Grid
    requires ratio != 0
  {
    Fill(g, Targets(pts, size, ratio, |g|, Width(g)), Cleared)
  }

  /** outputGearImage: for each point in order, set its target pixel to 255, skipping the targets
      numpy would refuse (the try/except). The array is changed in place and is its own result. */
  method OutputGearImage(img: array2<int>, coords: seq<Point>, size: int, ratio: int)
    requires ratio != 0
    modifies img
    ensures Cells(img) == StampGrid(old(Cells(img)), coords, size, ratio)
  {
    ghost var raw := RawCells(coords, size, ratio);
    for k := 0 to |coords|
      invariant forall i, j :: 0 <= i < img.Length0 && 0 <= j < img.Length1 ==>
        img[i, j] == if (i, j) in Resolved(raw[..k], img.Length0, img.Length1) then Cleared else old(img[i, j])
    {
      var row, col := RawCell(coords[k], size, ratio).0, RawCell(coords[k], size, ratio).1;
      assert raw[..k + 1][..k] == raw[..k];
      match WrapCell((row, col), img.Length0, img.Length1)
      case Some(c) => img[c.0, c.1] := Cleared;
      case None =>
    }
    assert raw[..|coords|] == raw;
    GridExt(Cells(img), StampGrid(old(Cells(img)), coords, size, ratio));
  }

  /** Fancy-index writes `a[y, x] = v` of a list of pairs, none of which numpy refuses. */
  method PaintCells(img: array2<int>, cells: seq<Cell>, v: int)
    requires AllResolve(cells, img.Length0, img.Length1)
    modifies img
    ensures Cells(img) == Fill(old(Cells(img)), Resolved(cells, img.Length0, img.Length1), v)
  {
    for k := 0 to |cells|
      invariant forall i, j :: 0 <= i < img.Length0 && 0 <= j < img.Length1 ==>
        img[i, j] == if (i, j) in Resolved(cells[..k], img.Length0, img.Length1) then v else old(img[i, j])
    {
      assert cells[..k + 1][..k] == cells[..k];
      var c := WrapCell(cells[k], img.Length0, img.Length1).value;
      img[c.0, c.1] := v;
    }
    assert cells[..|cells|] == cells;
    GridExt(Cells(img), Fill(old(Cells(img)), Resolved(cells, img.Length0, img.Length1), v));
  }

  // ---------------------------------------------------------------------------
  // Properties of the accumulator

  /** A cell is set exactly when some point's target resolves to it. */
  lemma TargetsIff(pts: seq<Point>, size: int, ratio: int, n0: int, n1: int, c: Cell)
    requires ratio != 0
    ensures c in Targets(pts, size, ratio, n0, n1) <==>
            exists k :: 0 <= k < |pts| && WrapCell(RawCell(pts[k], size, ratio), n0, n1) == Some(c)
  {
    var raw := RawCells(pts, size, ratio);
    ResolvedIff(raw, n0, n1, c);
    if exists k :: 0 <= k < |raw| && WrapCell(raw[k], n0, n1) == Some(c) {
      var k :| 0 <= k < |raw| && WrapCell(raw[k], n0, n1) == Some(c);
      assert WrapCell(RawCell(pts[k], size, ratio), n0, n1) == Some(c);
    }
  }

  /** Values only move to 255: every cell either keeps its value or becomes 255, and it becomes 255
      exactly at the targets. */
  lemma StampMonotone(g: Grid, pts: seq<Point>, size: int, ratio: int)
    requires ratio != 0 && Rect(g)
    ensures SameShape(StampGrid(g, pts, size, ratio), g)
    ensures forall i, j :: 0 <= i < |g| && 0 <= j < |g[i]| ==>
      var r := StampGrid(g, pts, size, ratio)[i][j];
      (r == Cleared || r == g[i][j]) &&
      (r == Cleared <==> (i, j) in Targets(pts, size, ratio, |g|, Width(g)) || g[i][j] == Cleared)
  {
  }

  /** Stamping the same points twice gives the raster stamping them once gives. */
  lemma StampIdempotent(g: Grid, pts: seq<Point>, size: int, ratio: int)
    requires ratio != 0 && Rect(g)
    ensures StampGrid(StampGrid(g, pts, size, ratio), pts, size, ratio) == StampGrid(g, pts, size, ratio)
  {
    var once := StampGrid(g, pts, size, ratio);
    GridExt(StampGrid(once, pts, size, ratio), once);
  }

  /** Stamping a + b is stamping a, then b: the accumulation of a list may be split anywhere. */
  lemma StampAppend(g: Grid, a: seq<Point>, b: seq<Point>, size: int, ratio: int)
    requires ratio != 0 && Rect(g)
    ensures StampGrid(g, a + b, size, ratio) == StampGrid(StampGrid(g, a, size, ratio), b, size, ratio)
  {
    var ra, rb := RawCells(a, size, ratio), RawCells(b, size, ratio);
    assert RawCells(a + b, size, ratio) == ra + rb;
    ResolvedAppend(ra, rb, |g|, Width(g));
    var ta, tb := Resolved(ra, |g|, Width(g)), Resolved(rb, |g|, Width(g));
    assert StampGrid(g, a + b, size, ratio) == Fill(g, ta + tb, Cleared);
    FillTwice(g, ta, tb, Cleared);
  }

  /** Two accumulations commute. */
  lemma StampCommutes(g: Grid, a: seq<Point>, b: seq<Point>, size: int, ratio: int)
    requires ratio != 0 && Rect(g)
    ensures StampGrid(StampGrid(g, a, size, ratio), b, size, ratio) ==
            StampGrid(StampGrid(g, b, size, ratio), a, size, ratio)
  {
    var ab := StampGrid(StampGrid(g, a, size, ratio), b, size, ratio);
    var ba := StampGrid(StampGrid(g, b, size, ratio), a, size, ratio);
    GridExt(ab, ba);
  }

  /** outputGearImage applied to each cloud of a list in turn. */
  function StampAll(g: Grid, clouds: seq<seq<Point>>, size: int, ratio: int): (r: Grid)
    requires ratio != 0
    ensures SameShape(r, g) && Width(r) == Width(g) && (Rect(g) ==> Rect(r))
  {
    if |clouds| == 0 then g
    else StampGrid(StampAll(g, clouds[..|clouds| - 1], size, ratio), clouds[|clouds| - 1], size, ratio)
  }

  /** The cells the clouds of a list write on an n0 x n1 raster. */
  function AllTargets(clouds: seq<seq<Point>>, size: int, ratio: int, n0: int, n1: int): set<Cell>
    requires ratio != 0
  {
    if |clouds| == 0 then {}
    else AllTargets(clouds[..|clouds| - 1], size, ratio, n0, n1) + Targets(clouds[|clouds| - 1], size, ratio, n0, n1)
  }

  /** A cell is written by a list of clouds exactly when one of its clouds writes it. */
  lemma AllTargetsIff(clouds: seq<seq<Point>>, size: int, ratio: int, n0: int, n1: int, c: Cell)
    requires ratio != 0
    ensures c in AllTargets(clouds, size, ratio, n0, n1) <==>
            exists m :: 0 <= m < |clouds| && c in Targets(clouds[m], size, ratio, n0, n1)
  {
    if c in AllTargets(clouds, size, ratio, n0, n1) {
      AllTargetsMember(clouds, size, ratio, n0, n1, c);
    }
    if exists m :: 0 <= m < |clouds| && c in Targets(clouds[m], size, ratio, n0, n1) {
      var m :| 0 <= m < |clouds| && c in Targets(clouds[m], size, ratio, n0, n1);
      AllTargetsHas(clouds, size, ratio, n0, n1, m);
    }
  }

  lemma {:induction false} AllTargetsMember(clouds: seq<seq<Point>>, size: int, ratio: int, n0: int, n1: int, c: Cell)
    requires ratio != 0 && c in AllTargets(clouds, size, ratio, n0, n1)
    ensures exists m :: 0 <= m < |clouds| && c in Targets(clouds[m], size, ratio, n0, n1)
  {
    var init := clouds[..|clouds| - 1];
    if c !in Targets(clouds[|clouds| - 1], size, ratio, n0, n1) {
      AllTargetsMember(init, size, ratio, n0, n1, c);
      var m :| 0 <= m < |init| && c in Targets(init[m], size, ratio, n0, n1);
      assert clouds[m] == init[m];
    }
  }

  lemma {:induction false} AllTargetsHas(clouds: seq<seq<Point>>, size: int, ratio: int, n0: int, n1: int, m: int)
    requires ratio != 0 && 0 <= m < |clouds|
    ensures Targets(clouds[m], size, ratio, n0, n1) <= AllTargets(clouds, size, ratio, n0, n1)
  {
    var init := clouds[..|clouds| - 1];
    if m < |init| {
      AllTargetsHas(init, size, ratio, n0, n1, m);
      assert init[m] == clouds[m];
    }
  }

  /** Stamping a list of clouds sets exactly the cells they write to 255 and leaves the rest. */
  lemma {:induction false} StampAllIsFill(g: Grid, clouds: seq<seq<Point>>, size: int, ratio: int)
    requires ratio != 0
    ensures StampAll(g, clouds, size, ratio) == Fill(g, AllTargets(clouds, size, ratio, |g|, Width(g)), Cleared)
  {
    if |clouds| == 0 {
      FillNone(g, Cleared);
    } else {
      var init := clouds[..|clouds| - 1];
      StampAllIsFill(g, init, size, ratio);
      FillTwice(g, AllTargets(init, size, ratio, |g|, Width(g)),
                Targets(clouds[|clouds| - 1], size, ratio, |g|, Width(g)), Cleared);
    }
  }

  /** The cells a + b write are those a writes and those b writes. */
  lemma {:induction false} AllTargetsAppend(a: seq<seq<Point>>, b: seq<seq<Point>>, size: int, ratio: int, n0: int, n1: int)
    requires ratio != 0
    ensures AllTargets(a + b, size, ratio, n0, n1) == AllTargets(a, size, ratio, n0, n1) + AllTargets(b, size, ratio, n0, n1)
  {
    if |b| == 0 {
      assert a + b == a;
    } else {
      var ab := a + b;
      assert ab[..|ab| - 1] == a + b[..|b| - 1];
      assert ab[|ab| - 1] == b[|b| - 1];
      AllTargetsAppend(a, b[..|b| - 1], size, ratio, n0, n1);
    }
  }

  /** Stamping a + b is stamping a, then b. */
  lemma StampAllAppend(g: Grid, a: seq<seq<Point>>, b: seq<seq<Point>>, size: int, ratio: int)
    requires ratio != 0
    ensures StampAll(g, a + b, size, ratio) == StampAll(StampAll(g, a, size, ratio), b, size, ratio)
  {
    var ga := StampAll(g, a, size, ratio);
    StampAllIsFill(g, a + b, size, ratio);
    StampAllIsFill(g, a, size, ratio);
    StampAllIsFill(ga, b, size, ratio);
    AllTargetsAppend(a, b, size, ratio, |g|, Width(g));
    FillTwice(g, AllTargets(a, size, ratio, |g|, Width(g)), AllTargets(b, size, ratio, |g|, Width(g)), Cleared);
  }

  /** Stamping cs + [c] is stamping cs, then c. */
  lemma StampAllSnoc(g: Grid, cs: seq<seq<Point>>, c: seq<Point>, size: int, ratio: int)
    requires ratio != 0
    ensures StampAll(g, cs + [c], size, ratio) == StampGrid(StampAll(g, cs, size, ratio), c, size, ratio)
  {
    assert (cs + [c])[..|cs|] == cs;
  }

  /** outputGearImage called on each cloud of a list in turn. */
  method StampEach(img: array2<int>, clouds: seq<seq<Point>>, size: int, ratio: int)
    requires ratio != 0
    modifies img
    ensures Cells(img) == StampAll(old(Cells(img)), clouds, size, ratio)
  {
    ghost var g0 := Cells(img);
    for k := 0 to |clouds|
      invariant Cells(img) == StampAll(g0, clouds[..k], size, ratio)
    {
      ghost var cur := Cells(img);
      OutputGearImage(img, clouds[k], size, ratio);
      StampAllPrefix(g0, clouds, k, cur, Cells(img), size, ratio);
    }
    assert clouds[..|clouds|] == clouds;
  }

  /** One more cloud stamped onto the stamping of a prefix is the stamping of the next prefix. */
  lemma StampAllPrefix(g0: Grid, clouds: seq<seq<Point>>, k: nat, cur: Grid, next: Grid, size: int, ratio: int)
    requires ratio != 0 && k < |clouds|
    requires cur == StampAll(g0, clouds[..k], size, ratio)
    requires next == StampGrid(cur, clouds[k], size, ratio)
    ensures next == StampAll(g0, clouds[..k + 1], size, ratio)
  {
    assert clouds[..k + 1] == clouds[..k] + [clouds[k]];
    StampAllSnoc(g0, clouds[..k], clouds[k], size, ratio);
  }

  /** A point strictly inside the square |x| < ratio, |y| < ratio has both indices in [0, size):
      it is written at its own index, never wrapped and never skipped. */
  lemma RawCellInRange(p: Point, size: int, ratio: int)
    requires ratio > 0 && size > 0
    requires -(ratio as real) < p.x < ratio as real && -(ratio as real) < p.y < ratio as real
    ensures 0 <= RawCell(p, size, ratio).0 < size && 0 <= RawCell(p, size, ratio).1 < size
    ensures WrapCell(RawCell(p, size, ratio), size, size) == Some(RawCell(p, size, ratio))
  {
    ScaledIndexInRange(p.y, size, ratio);
    ScaledIndexInRange(p.x, size, ratio);
    var c := RawCell(p, size, ratio);
    assert Wrap(c.0, size) == Some(c.0) && Wrap(c.1, size) == Some(c.1);
  }

  lemma ScaledIndexInRange(u: real, size: int, ratio: int)
    requires ratio > 0 && size > 0 && -(ratio as real) < u < ratio as real
    ensures 0 <= PixelIndex(u, size, ratio) < size
  {
    QuotientBelow(u + ratio as real, size as real, 2.0 * ratio as real);
    var v := Scaled(u, size, ratio);
    assert 0.0 < v < size as real;
    assert 0.0 <= Trunc(v) as real <= v;
  }

  /** 0 < a < d and n > 0 give 0 < a*n/d < n. */
  lemma QuotientBelow(a: real, n: real, d: real)
    requires 0.0 < a < d && 0.0 < n
    ensures 0.0 < a * n / d < n
  {
    var q := a * n / d;
    assert q * d == a * n;
    assert (d - a) * n > 0.0;
    assert a * n > 0.0;
    assert (n - q) * d == d * n - a * n;
  }

  /** int() truncates toward zero: a target just above the top edge lands on row 0. */
  lemma TruncatedTargetRow()
    ensures WrapCell(RawCell(Point(0.0, -1.25), 4, 1), 4, 4) == Some((0, 2))
  {
  }

  /** A target index in [-size, -1] wraps around: a point further above the top edge lands on the
      bottom row. */
  lemma WrappedTargetRow()
    ensures RawCell(Point(0.0, -1.75), 4, 1) == (-1, 2)
    ensures WrapCell(RawCell(Point(0.0, -1.75), 4, 1), 4, 4) == Some((3, 2))
  {
  }
}
