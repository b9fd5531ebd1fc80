/** Profile extraction: create_gear.py `getBlackPixels`. */
module Profile {
  import opened PyNum
  import opened Geometry
  import opened Raster

  /** The zero cells (r, 0) .. (r, c-1) of row r, left to right. */
  function RowZeroCells(g: Grid, r: nat, c: nat): seq<Cell>
    requires r < |g| && c <= |g[r]|
  {
    if c == 0 then []
    else RowZeroCells(g, r, c - 1) + (if g[r][c - 1] == 0 then [(r, c - 1)] else [])
  }

  /** The zero cells of rows 0 .. r-1, in row-major order. */
  function ZeroCellsBefore(g: Grid, r: nat): seq<Cell>
    requires Rect(g) && r <= |g|
  {
    if r == 0 then [] else ZeroCellsBefore(g, r - 1) + RowZeroCells(g, r - 1, Width(g))
  }

  function ZeroCells(g: Grid): seq<Cell>
    requires Rect(g)
  {
    ZeroCellsBefore(g, |g|)
  }

  /** Cell a comes strictly before cell b in row-major order. */
  predicate Before(a: Cell, b: Cell) {
    a.0 < b.0 || (a.0 == b.0 && a.1 < b.1)
  }

  predicate RowMajor(cells: seq<Cell>) {
    forall a, b :: 0 <= a < b < |cells| ==> Before(cells[a], cells[b])
  }

  /** The point of pixel c of a rows x cols image: centred on the image, scaled by 2/max(rows, cols),
      then shifted by offset. */
  function PixelPoint(rows: nat, cols: nat, offset: Point, c: Cell): Point
    requires rows > 0
  {
    var scale := 2.0 / Max(rows, cols) as real;
    Point(Centred(c.1, cols, scale) + offset.x, Centred(c.0, rows, scale) + offset.y)
  }

  /** One coordinate of a pixel, centred on an axis of n pixels and scaled: `scale*(k - (n-1)/2)`. */
  function Centred(k: int, n: int, scale: real): real {
    scale * (k as real - (n as real - 1.0) / 2.0)
  }

  function PointsOf(rows: nat, cols: nat, offset: Point, cells: seq<Cell>): (pts: seq<Point>)
    requires rows > 0
    ensures |pts| == |cells|
  {
    seq(|cells|, k requires 0 <= k < |cells| => PixelPoint(rows, cols, offset, cells[k]))
  }

  /** The coordinate list getBlackPixels returns: one point per zero pixel, in row-major order. */
  function ProfilePoints(g: Grid, offset: Point): seq<Point>
    requires Rect(g) && |g| > 0
  {
    PointsOf(|g|, Width(g), offset, ZeroCells(g))
  }

  /** getBlackPixels: nested row/col loops appending the point of every pixel equal to 0. */
  method GetBlackPixels(image: Grid, offset: Point) returns (coords: seq<Point>, size: int)
    requires Rect(image) && |image| > 0
    ensures size == Max(|image|, Width(image)) && size >= 1
    ensures coords == ProfilePoints(image, offset)
  {
    var rows := |image|;
    var cols := |image[0]|;
    size := Max(rows, cols);
    var scale := 2.0 / size as real;
    coords := [];
    for row := 0 to rows
      invariant coords == PointsOf(rows, cols, offset, ZeroCellsBefore(image, row))
    {
      for col := 0 to cols
        invariant coords == PointsOf(rows, cols, offset, ZeroCellsBefore(image, row) + RowZeroCells(image, row, col))
      {
        ExtendRow(image, offset, row, col);
        if image[row][col] == 0 {
          var x := Centred(col, cols, scale) + offset.x;
          var y := Centred(row, rows, scale) + offset.y;
          coords := coords + [Point(x, y)];
        }
      }
    }
  }

  /** One iteration of the inner loop of getBlackPixels. */
  lemma ExtendRow(g: Grid, offset: Point, r: nat, c: nat)
    requires Rect(g) && r < |g| && c < Width(g)
    ensures PointsOf(|g|, Width(g), offset, ZeroCellsBefore(g, r) + RowZeroCells(g, r, c + 1)) ==
            PointsOf(|g|, Width(g), offset, ZeroCellsBefore(g, r) + RowZeroCells(g, r, c)) +
            (if g[r][c] == 0 then [PixelPoint(|g|, Width(g), offset, (r, c))] else [])
    ensures c + 1 == Width(g) ==> ZeroCellsBefore(g, r + 1) == ZeroCellsBefore(g, r) + RowZeroCells(g, r, c + 1)
  {
    var done := ZeroCellsBefore(g, r) + RowZeroCells(g, r, c);
    if g[r][c] == 0 {
      assert done + [(r, c)] == ZeroCellsBefore(g, r) + RowZeroCells(g, r, c + 1);
      PointsOfAppend(|g|, Width(g), offset, done, (r, c));
    } else {
      assert done == ZeroCellsBefore(g, r) + RowZeroCells(g, r, c + 1);
    }
  }

  lemma PointsOfAppend(rows: nat, cols: nat, offset: Point, cells: seq<Cell>, c: Cell)
    requires rows > 0
    ensures PointsOf(rows, cols, offset, cells + [c]) ==
            PointsOf(rows, cols, offset, cells) + [PixelPoint(rows, cols, offset, c)]
  {
    var l, r := PointsOf(rows, cols, offset, cells + [c]), PointsOf(rows, cols, offset, cells) + [PixelPoint(rows, cols, offset, c)];
    assert |l| == |r|;
    forall k | 0 <= k < |l| ensures l[k] == r[k] {
      if k < |cells| {
        assert (cells + [c])[k] == cells[k];
      }
    }
  }

  // ---------------------------------------------------------------------------
  // Properties of the extracted profile

  lemma {:induction false} RowZeroCellsExact(g: Grid, r: nat, c: nat)
    requires r < |g| && c <= |g[r]|
    ensures RowMajor(RowZeroCells(g, r, c))
    ensures forall e :: e in RowZeroCells(g, r, c) <==> e.0 == r && 0 <= e.1 < c && g[r][e.1] == 0
  {
    if c > 0 {
      RowZeroCellsExact(g, r, c - 1);
    }
  }

  lemma {:induction false} ZeroCellsBeforeExact(g: Grid, r: nat)
    requires Rect(g) && r <= |g|
    ensures RowMajor(ZeroCellsBefore(g, r))
    ensures forall e :: e in ZeroCellsBefore(g, r) <==>
      0 <= e.0 < r && 0 <= e.1 < Width(g) && g[e.0][e.1] == 0
  {
    if r > 0 {
      ZeroCellsBeforeExact(g, r - 1);
      RowZeroCellsExact(g, r - 1, Width(g));
      var a, b := ZeroCellsBefore(g, r - 1), RowZeroCells(g, r - 1, Width(g));
      forall i, j | 0 <= i < j < |a + b| ensures Before((a + b)[i], (a + b)[j]) {
        if j < |a| {
        } else if i >= |a| {
          assert (a + b)[i] == b[i - |a|] && (a + b)[j] == b[j - |a|];
        } else {
          assert (a + b)[i] == a[i] && a[i] in a;
          assert (a + b)[j] == b[j - |a|] && b[j - |a|] in b;
        }
      }
    }
  }

  /** getBlackPixels lists exactly the pixels equal to 0, each once, in row-major order. */
  lemma ZeroCellsExact(g: Grid)
    requires Rect(g)
    ensures RowMajor(ZeroCells(g))
    ensures forall e :: e in ZeroCells(g) <==> 0 <= e.0 < |g| && 0 <= e.1 < Width(g) && g[e.0][e.1] == 0
  {
    ZeroCellsBeforeExact(g, |g|);
  }

  /** An image with no pixel equal to 0 yields the empty list, and only such an image does. */
  lemma ProfileEmptyIff(g: Grid, offset: Point)
    requires Rect(g) && |g| > 0
    ensures ProfilePoints(g, offset) == [] <==>
      forall i, j :: 0 <= i < |g| && 0 <= j < |g[i]| ==> g[i][j] != 0
  {
    ZeroCellsExact(g);
    if ProfilePoints(g, offset) != [] {
      var e := ZeroCells(g)[0];
      assert e in ZeroCells(g);
    }
    if exists i, j :: 0 <= i < |g| && 0 <= j < |g[i]| && g[i][j] == 0 {
      var i, j :| 0 <= i < |g| && 0 <= j < |g[i]| && g[i][j] == 0;
      assert (i, j) in ZeroCells(g);
    }
  }

  /** |c - (n-1)/2| * 2/size < 1 for every index c < n <= size. */
  lemma CentredBelowOne(c: int, n: int, size: int)
    requires 0 <= c < n <= size
    ensures -1.0 < Centred(c, n, 2.0 / size as real) < 1.0
  {
    var S := size as real;
    var a := c as real - (n as real - 1.0) / 2.0;
    assert -(S - 1.0) / 2.0 <= a <= (S - 1.0) / 2.0;
    assert (2.0 / S) * a == 2.0 * a / S;
    assert -(S - 1.0) <= 2.0 * a <= S - 1.0;
  }

  /** Every extracted point lies strictly within 1 of the offset on each axis. */
  lemma ProfileNearOffset(g: Grid, offset: Point)
    requires Rect(g) && |g| > 0
    ensures forall p :: p in ProfilePoints(g, offset) ==>
      -1.0 < p.x - offset.x < 1.0 && -1.0 < p.y - offset.y < 1.0
  {
    ZeroCellsExact(g);
    var rows, cols := |g|, Width(g);
    var size := Max(rows, cols);
    var pts := ProfilePoints(g, offset);
    forall k | 0 <= k < |pts|
      ensures -1.0 < pts[k].x - offset.x < 1.0 && -1.0 < pts[k].y - offset.y < 1.0
    {
      var e := ZeroCells(g)[k];
      assert e in ZeroCells(g);
      PixelPointNear(rows, cols, offset, e);
    }
  }

  lemma PixelPointNear(rows: nat, cols: nat, offset: Point, e: Cell)
    requires 0 <= e.0 < rows && 0 <= e.1 < cols
    ensures -1.0 < PixelPoint(rows, cols, offset, e).x - offset.x < 1.0
    ensures -1.0 < PixelPoint(rows, cols, offset, e).y - offset.y < 1.0
  {
    CentredBelowOne(e.1, cols, Max(rows, cols));
    CentredBelowOne(e.0, rows, Max(rows, cols));
  }
}
