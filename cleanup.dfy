/** Circular clean-up of the accumulated raster: create_gear.py `outputCleanup`. */
module Cleanup {
  import opened Wrappers
  import opened PyNum
  import opened Geometry
  import opened Raster

  /** The first pass's test `dist(row - radius, col - radius) >= radius - .5`, with radius = size/2. */
  predicate OnOrOutsideRim(i: int, j: int, n: int) {
    var radius := n as real / 2.0;
    DistAtLeast(i as real - radius, j as real - radius, radius - 0.5)
  }

  /** The cells of an n x n raster the first pass sets to 255. */
  function RimCells(n: nat): set<Cell> {
    set i, j | 0 <= i < n && 0 <= j < n && OnOrOutsideRim(i, j, n) :: (i, j)
  }

  /** The raster after the first pass of outputCleanup. */
  function ClearRim(g: Grid): Grid {
    Fill(g, RimCells(|g|), Cleared)
  }

  /** The 50 marker directions, at angles i*2*pi/50, i.e. i/50 of a turn. */
  function MarkerDirs(turn: real -> Rot): (dirs: seq<Rot>)
    ensures |dirs| == 50
  {
    seq(50, i requires 0 <= i < 50 => turn(i as real / 50.0))
  }

  /** One coordinate of a ring point: `centre + radius*cos(theta)` or `centre + radius*sin(theta)`. */
  function Along(centre: real, radius: real, u: real): real {
    centre + radius * u
  }

  /** The (y, x) index pairs `int(round(cy + r*sin))`, `int(round(cx + r*cos))` of a marker ring. */
  function RingCells(cx: real, cy: real, markRadius: real, dirs: seq<Rot>): (cells: seq<Cell>)
    ensures |cells| == |dirs|
  {
    seq(|dirs|, i requires 0 <= i < |dirs| =>
      (RoundHalfEven(Along(cy, markRadius, dirs[i].s)), RoundHalfEven(Along(cx, markRadius, dirs[i].c))))
  }

  /** The axle marker of an n x n gear raster: radius max(2, n/200) about (n/2, n/2). */
  function AxleRing(n: nat, turn: real -> Rot): seq<Cell> {
    RingCells(n as real / 2.0, n as real / 2.0, MaxReal(2.0, n as real / 200.0), MarkerDirs(turn))
  }

  /** No write of the marker ring raises IndexError. */
  predicate RingFits(n: nat, turn: real -> Rot) {
    AllResolve(AxleRing(n, turn), n, n)
  }

  /** The raster outputCleanup returns. */
  function Cleaned(g: Grid, turn: real -> Rot): Grid {
    Fill(ClearRim(g), Resolved(AxleRing(|g|, turn), |g|, |g|), Cleared)
  }

  /** outputCleanup, in place: the rim pass over every cell, then the 50-point axle marker. The source
      indexes columns by range(len(image)), so it is a square-raster operation; and its marker writes are
      not guarded, so they must all be accepted by numpy. */
  method OutputCleanup(img: array2<int>, turn: real -> Rot)
    requires img.Length0 == img.Length1
    requires RingFits(img.Length0, turn)
    modifies img
    ensures Cells(img) == Cleaned(old(Cells(img)), turn)
  {
    var size := img.Length0;
    var radius := size as real / 2.0;
    for row := 0 to size
      invariant forall i, j :: 0 <= i < size && 0 <= j < size ==>
        img[i, j] == if i < row && OnOrOutsideRim(i, j, size) then Cleared else old(img[i, j])
    {
      for col := 0 to size
        invariant forall i, j :: 0 <= i < size && 0 <= j < size ==>
          img[i, j] == if (i < row || (i == row && j < col)) && OnOrOutsideRim(i, j, size) then Cleared else old(img[i, j])
      {
        if DistAtLeast(row as real - radius, col as real - radius, radius - 0.5) {
          img[row, col] := Cleared;
        }
      }
    }
    GridExt(Cells(img), ClearRim(old(Cells(img))));
    PaintCells(img, AxleRing(size, turn), Cleared);
  }

  // ---------------------------------------------------------------------------
  // Properties

  /** After the first pass every cell at distance >= size/2 - 0.5 from the centre is 255,
      and every cell strictly inside that circle still holds its old value. */
  lemma ClearRimSpec(g: Grid)
    requires Rect(g) && Width(g) == |g|
    ensures SameShape(ClearRim(g), g)
    ensures forall i, j :: 0 <= i < |g| && 0 <= j < |g| ==>
      ClearRim(g)[i][j] == if OnOrOutsideRim(i, j, |g|) then Cleared else g[i][j]
  {
    forall i, j | 0 <= i < |g| && 0 <= j < |g|
      ensures ClearRim(g)[i][j] == if OnOrOutsideRim(i, j, |g|) then Cleared else g[i][j]
    {
      assert (i, j) in RimCells(|g|) <==> OnOrOutsideRim(i, j, |g|);
    }
  }

  /** The rim test may be done on squares: for a raster of side n >= 1, radius - 0.5 >= 0, so
      dist >= radius - 0.5 is (i - n/2)^2 + (j - n/2)^2 >= (n/2 - 0.5)^2. */
  lemma RimTestOnSquares(i: int, j: int, n: int)
    requires n >= 1
    ensures OnOrOutsideRim(i, j, n) <==>
      SqDist(Point(i as real, j as real), Point(n as real / 2.0, n as real / 2.0)) >=
      (n as real / 2.0 - 0.5) * (n as real / 2.0 - 0.5)
  {
    var r := n as real / 2.0 - 0.5;
    var a, b := i as real - n as real / 2.0, j as real - n as real / 2.0;
    assert a * a >= 0.0 && b * b >= 0.0;
  }

  /** After the whole clean-up (a ring that fits leaves the rim as it is) every cell on or outside
      the rim is 255; the clean-up only ever writes 255. */
  lemma CleanedCircular(g: Grid, turn: real -> Rot)
    requires Rect(g) && Width(g) == |g|
    ensures SameShape(Cleaned(g, turn), g)
    ensures forall i, j :: 0 <= i < |g| && 0 <= j < |g| && OnOrOutsideRim(i, j, |g|) ==> Cleaned(g, turn)[i][j] == Cleared
    ensures forall i, j :: 0 <= i < |g| && 0 <= j < |g| ==>
      Cleaned(g, turn)[i][j] == Cleared || Cleaned(g, turn)[i][j] == g[i][j]
  {
    ClearRimSpec(g);
  }

  /** A cosine or sine of a unit pair lies in [-1, 1]. */
  lemma UnitBounds(r: Rot)
    requires Unit(r)
    ensures -1.0 <= r.c <= 1.0 && -1.0 <= r.s <= 1.0
  {
    assert (1.0 - r.c) * (1.0 + r.c) == 1.0 - r.c * r.c >= 0.0;
    assert (1.0 - r.s) * (1.0 + r.s) == 1.0 - r.s * r.s >= 0.0;
    assert (1.0 - r.c) + (1.0 + r.c) == 2.0;
    assert (1.0 - r.s) + (1.0 + r.s) == 2.0;
  }

  /** A ring coordinate lies within markRadius of the centre when |u| <= 1. */
  lemma ScaledOffset(centre: real, m: real, u: real)
    requires m >= 0.0 && -1.0 <= u <= 1.0
    ensures centre - m <= Along(centre, m, u) <= centre + m
  {
    assert m * (1.0 - u) >= 0.0 && m * (1.0 + u) >= 0.0;
    assert m * (1.0 - u) == m - m * u && m * (1.0 + u) == m + m * u;
  }

  /** For raster sides of at least 7 pixels the axle marker never indexes outside the raster. */
  lemma RingFitsFromSeven(n: nat, turn: real -> Rot)
    requires n >= 7
    requires forall t :: Unit(turn(t))
    ensures RingFits(n, turn)
  {
    var dirs := MarkerDirs(turn);
    forall k | 0 <= k < |dirs| ensures -1.0 <= dirs[k].c <= 1.0 && -1.0 <= dirs[k].s <= 1.0 {
      UnitBounds(dirs[k]);
    }
    MarkerRadiusFits(n);
    RingCellsFit(n as real / 2.0, MaxReal(2.0, n as real / 200.0), dirs, n);
  }

  lemma MarkerRadiusFits(n: nat)
    requires n >= 7
    ensures 0.0 <= MaxReal(2.0, n as real / 200.0) <= n as real / 2.0 - 1.5
  {
  }

  lemma RingCellsFit(half: real, m: real, dirs: seq<Rot>, n: int)
    requires half + half == n as real && 0.0 <= m <= half - 1.5
    requires forall k :: 0 <= k < |dirs| ==> -1.0 <= dirs[k].c <= 1.0 && -1.0 <= dirs[k].s <= 1.0
    ensures AllResolve(RingCells(half, half, m, dirs), n, n)
  {
    var ss := seq(|dirs|, k requires 0 <= k < |dirs| => dirs[k].s);
    var cs := seq(|dirs|, k requires 0 <= k < |dirs| => dirs[k].c);
    RingAxisFits(half, m, ss, n);
    RingAxisFits(half, m, cs, n);
    var ring := RingCells(half, half, m, dirs);
    forall k | 0 <= k < |ring| ensures WrapCell(ring[k], n, n).Some? {
      assert ring[k] == (RoundHalfEven(Along(half, m, ss[k])), RoundHalfEven(Along(half, m, cs[k])));
    }
  }

  lemma RingAxisFits(half: real, m: real, us: seq<real>, n: int)
    requires half + half == n as real && 0.0 <= m <= half - 1.5
    requires forall k :: 0 <= k < |us| ==> -1.0 <= us[k] <= 1.0
    ensures forall k :: 0 <= k < |us| ==> 0 <= RoundHalfEven(Along(half, m, us[k])) < n
  {
    forall k | 0 <= k < |us| ensures 0 <= RoundHalfEven(Along(half, m, us[k])) < n {
      MarkerCoordFits(half, m, us[k], n);
    }
  }

  lemma MarkerCoordFits(half: real, m: real, u: real, n: int)
    requires half + half == n as real && 0.0 <= m <= half - 1.5 && -1.0 <= u <= 1.0
    ensures 0 <= RoundHalfEven(Along(half, m, u)) < n
  {
    ScaledOffset(half, m, u);
    RoundedNear(half, m, Along(half, m, u), n);
  }

  lemma RoundedNear(half: real, m: real, v: real, n: int)
    requires half + half == n as real && 0.0 <= m <= half - 1.5 && half - m <= v <= half + m
    ensures 0 <= RoundHalfEven(v) < n
  {
    assert RoundHalfEven(v) as real <= v + 0.5 <= n as real - 1.0;
    assert RoundHalfEven(v) as real >= v - 0.5 >= 1.0;
  }

  /** A one-pixel raster cannot hold the marker: index round(0.5 + 2*cos 0) = 2 raises. */
  lemma RingMissesTinyRaster(turn: real -> Rot)
    requires turn(0.0) == Rot(1.0, 0.0)
    ensures !RingFits(1, turn)
  {
    var ring := AxleRing(1, turn);
    assert MarkerDirs(turn)[0] == Rot(1.0, 0.0);
    assert RoundHalfEven(2.5) == 2;
    assert ring[0] == (RoundHalfEven(0.5), 2);
    assert WrapCell(ring[0], 1, 1) == None;
  }
}
