/** The crossbar image: create_gear.py `drawCrossbar`, a bar of two outlined holes `distance` pixels apart. */
module Crossbar {
  import opened Wrappers
  import opened PyNum
  import opened Geometry
  import opened Raster
  import opened Cleanup

  /** The numbers drawCrossbar derives from its argument before drawing. */
  datatype Layout = Layout(d: int, height: int, width: int, radius: real, markRadius: real)

  /** `int(distance)`, `int(round(d/6))`, `int(ceil(7d/6))`, `height/2 - 0.5` and `max(2, d/200)`. */
  function LayoutOf(distance: real): Layout {
    var d := Trunc(distance);
    var height := RoundHalfEven(d as real / 6.0);
    Layout(d, height, Ceil(d as real * 7.0 / 6.0), height as real / 2.0 - 0.5, MaxReal(2.0, d as real / 200.0))
  }

  /** Python's clipping of a slice bound a against an axis of length n. */
  function SliceIndex(a: int, n: nat): (k: int)
    ensures 0 <= k <= n
    ensures 0 <= a <= n ==> k == a
    ensures a > n ==> k == n
    ensures -(n as int) <= a < 0 ==> k == a + n
    ensures a < -(n as int) ==> k == 0
  {
    if a < 0 then Max(a + n, 0) else MinInt(a, n)
  }

  /** The bar: rows 0 and height-1, columns of the slice `ceil(holeOne.x) : floor(holeTwo.x) + 1`. */
  function BarCells(L: Layout): set<Cell>
    requires L.width >= 0
  {
    var lo := SliceIndex(Ceil(L.radius), L.width);
    var hi := SliceIndex(Floor(L.d as real + L.radius) + 1, L.width);
    set i, j | 0 <= i < L.height && (i == 0 || i == L.height - 1) && lo <= j < hi :: (i, j)
  }

  /** The angle `pi*i/d - pi/2` of end-cap step i, in turns. */
  function CapAngle(i: int, d: int): real
    requires d != 0
  {
    i as real / (2.0 * d as real) - 0.25
  }

  /** The two cells `(rows[0], cols[0])`, `(rows[1], cols[1])` one end-cap step writes: the point
      `holeOne - radius*(cos, sin)` and the point `holeTwo + radius*(cos, sin)`. The subtraction is
      written as a step of `-sin`, `-cos` along the axis. */
  function CapPair(L: Layout, u: Rot): seq<Cell> {
    [(RoundHalfEven(Along(L.radius, L.radius, -u.s)), RoundHalfEven(Along(L.radius, L.radius, -u.c))),
     (RoundHalfEven(Along(L.radius, L.radius, u.s)), RoundHalfEven(Along(L.d as real + L.radius, L.radius, u.c)))]
  }

  /** The write of every one of the d end-cap steps, in loop order. */
  function CapPairs(L: Layout, turn: real -> Rot): (pairs: seq<seq<Cell>>)
    requires L.d >= 0
    ensures |pairs| == L.d
  {
    seq(L.d, i requires 0 <= i < L.d => CapPair(L, turn(CapAngle(i, L.d))))
  }

  /** The 50 hole-outline steps: a point of the ring of radius markRadius about holeOne, and the same
      point moved d columns right, onto the ring about holeTwo. */
  function HolePairs(L: Layout, turn: real -> Rot): (pairs: seq<seq<Cell>>)
    ensures |pairs| == 50
    ensures forall i :: 0 <= i < 50 ==> |pairs[i]| == 2 && pairs[i][1] == (pairs[i][0].0, pairs[i][0].1 + L.d)
  {
    var ring := RingCells(L.radius, L.radius, L.markRadius, MarkerDirs(turn));
    seq(50, i requires 0 <= i < 50 => [ring[i], (ring[i].0, ring[i].1 + L.d)])
  }

  /** Every write of a list of steps is accepted by numpy. */
  predicate PairsFit(pairs: seq<seq<Cell>>, n0: int, n1: int) {
    forall i :: 0 <= i < |pairs| ==> AllResolve(pairs[i], n0, n1)
  }

  /** The cells the steps of the list write. */
  function PairsUnion(pairs: seq<seq<Cell>>, n0: int, n1: int): set<Cell> {
    if |pairs| == 0 then {}
    else PairsUnion(pairs[..|pairs| - 1], n0, n1) + Resolved(pairs[|pairs| - 1], n0, n1)
  }

  /** No write of the end caps or of the hole outlines raises IndexError. */
  predicate Fits(L: Layout, turn: real -> Rot)
    requires L.d >= 0
  {
    PairsFit(CapPairs(L, turn), L.height, L.width) && PairsFit(HolePairs(L, turn), L.height, L.width)
  }

  /** The cells drawn black (0): the bar, the end caps and the two hole outlines. */
  function Marked(L: Layout, turn: real -> Rot): set<Cell>
    requires L.d >= 0 && L.width >= 0
  {
    BarCells(L) + PairsUnion(CapPairs(L, turn), L.height, L.width) + PairsUnion(HolePairs(L, turn), L.height, L.width)
  }

  /** The image drawCrossbar returns: 255 everywhere but on the marked cells. */
  function CrossbarRaster(L: Layout, turn: real -> Rot): Grid
    requires L.d >= 0 && L.height >= 0 && L.width >= 0
  {
    Fill(Constant(L.height, L.width, Cleared), Marked(L, turn), Material)
  }

  /** drawCrossbar. A negative distance gives a negative width (numpy's ValueError); a height of 0 makes
      the bar write raise IndexError, as does any end-cap or hole write numpy refuses. The image is drawn
      in place and only returned when no write raised. */
  method DrawCrossbar(distance: real, turn: real -> Rot) returns (r: Result<array2<int>>)
    ensures var L := LayoutOf(distance);
      r.Success? <==> L.height >= 0 && L.width >= 0 && L.height > 0 && Fits(L, turn)
    ensures var L := LayoutOf(distance);
      r.Failure? ==> r.error == if L.height < 0 || L.width < 0 then NegativeDimensions else IndexOutOfRange
    ensures var L := LayoutOf(distance);
      r.Success? ==>
        L.d >= 0 && L.height >= 0 && L.width >= 0 && fresh(r.value) && Cells(r.value) == CrossbarRaster(L, turn)
  {
    var d := Trunc(distance);
    var height := RoundHalfEven(d as real / 6.0);
    var width := Ceil(d as real * 7.0 / 6.0);
    var radius := height as real / 2.0 - 0.5;
    if height < 0 || width < 0 {
      return Failure(NegativeDimensions);
    }
    var img := new int[height, width]((i, j) => Cleared);
    if height == 0 {
      return Failure(IndexOutOfRange);
    }
    DistanceNonNegative(distance);
    var L := Layout(d, height, width, radius, MaxReal(2.0, d as real / 200.0));
    assert L == LayoutOf(distance);
    GridExt(Cells(img), Constant(height, width, Cleared));
    ghost var blank := Cells(img);
    DrawBar(img, L);
    var ok := PaintPairs(img, CapPairs(L, turn), Material);
    if !ok {
      return Failure(IndexOutOfRange);
    }
    ok := PaintPairs(img, HolePairs(L, turn), Material);
    if !ok {
      return Failure(IndexOutOfRange);
    }
    FillThrice(blank, BarCells(L), PairsUnion(CapPairs(L, turn), height, width),
      PairsUnion(HolePairs(L, turn), height, width), Material);
    return Success(img);
  }

  /** The bar write `crossbarImage[(0, height-1), lo:hi] = 0`, the slice bounds clipped as numpy clips them. */
  method DrawBar(img: array2<int>, L: Layout)
    requires img.Length0 == L.height > 0 && img.Length1 == L.width
    modifies img
    ensures Cells(img) == Fill(old(Cells(img)), BarCells(L), Material)
  {
    var height, width := L.height, L.width;
    var lo := SliceIndex(Ceil(L.radius), width);
    var hi := Max(lo, SliceIndex(Floor(L.d as real + L.radius) + 1, width));
    for col := lo to hi
      invariant forall i, j :: 0 <= i < height && 0 <= j < width ==>
        img[i, j] == if (i == 0 || i == height - 1) && lo <= j < col then Material else old(img[i, j])
    {
      img[0, col] := Material;
      img[height - 1, col] := Material;
    }
    GridExt(Cells(img), Fill(old(Cells(img)), BarCells(L), Material));
  }

  /** The writes of a list of steps, in order, stopping with false at the first step numpy refuses. */
  method PaintPairs(img: array2<int>, pairs: seq<seq<Cell>>, v: int) returns (ok: bool)
    modifies img
    ensures ok <==> PairsFit(pairs, img.Length0, img.Length1)
    ensures ok ==> Cells(img) == Fill(old(Cells(img)), PairsUnion(pairs, img.Length0, img.Length1), v)
  {
    ghost var g0 := Cells(img);
    FillNone(g0, v);
    assert pairs[..0] == [];
    for i := 0 to |pairs|
      invariant PairsFit(pairs[..i], img.Length0, img.Length1)
      invariant Cells(img) == Fill(g0, PairsUnion(pairs[..i], img.Length0, img.Length1), v)
    {
      if !AllResolve(pairs[i], img.Length0, img.Length1) {
        return false;
      }
      ghost var cur := Cells(img);
      PaintCells(img, pairs[i], v);
      PairsStep(g0, pairs, i, cur, Cells(img), v, img.Length0, img.Length1);
    }
    assert pairs[..|pairs|] == pairs;
    return true;
  }

  /** One step of PaintPairs. */
  lemma PairsStep(g0: Grid, pairs: seq<seq<Cell>>, i: nat, cur: Grid, next: Grid, v: int, n0: int, n1: int)
    requires i < |pairs| && PairsFit(pairs[..i], n0, n1) && AllResolve(pairs[i], n0, n1)
    requires cur == Fill(g0, PairsUnion(pairs[..i], n0, n1), v)
    requires next == Fill(cur, Resolved(pairs[i], n0, n1), v)
    ensures PairsFit(pairs[..i + 1], n0, n1)
    ensures next == Fill(g0, PairsUnion(pairs[..i + 1], n0, n1), v)
  {
    assert pairs[..i + 1][..i] == pairs[..i];
    FillTwice(g0, PairsUnion(pairs[..i], n0, n1), Resolved(pairs[i], n0, n1), v);
  }

  /** Three rounds of filling with one value fill the union of the three sets. */
  lemma FillThrice(g: Grid, a: set<Cell>, b: set<Cell>, c: set<Cell>, v: int)
    ensures Fill(Fill(Fill(g, a, v), b, v), c, v) == Fill(g, a + b + c, v)
  {
    FillTwice(g, a, b, v);
    FillTwice(g, a + b, c, v);
  }

  /** A bar with rows has a non-negative distance. */
  lemma DistanceNonNegative(distance: real)
    requires LayoutOf(distance).height > 0
    ensures LayoutOf(distance).d >= 0
  {
  }

  // ---------------------------------------------------------------------------
  // Properties

  /** A negative distance is refused with numpy's negative-dimensions error, and only a negative one. */
  lemma NegativeDistanceFails(distance: real)
    ensures var L := LayoutOf(distance);
      L.height < 0 || L.width < 0 <==> L.d < 0
  {
    var L := LayoutOf(distance);
    if L.d < 0 {
      assert L.d as real * 7.0 / 6.0 <= -7.0 / 6.0;
    } else {
      assert L.d as real / 6.0 >= 0.0;
    }
  }

  /** Distances below 4 round the height to 0, so the bar write raises IndexError. */
  lemma ShortDistanceFails(distance: real)
    requires 0 <= LayoutOf(distance).d <= 3
    ensures LayoutOf(distance).height == 0 && LayoutOf(distance).width >= 0
  {
    var d := LayoutOf(distance).d;
    var x := d as real / 6.0;
    assert 0.0 <= x <= 0.5;
    if x == 0.5 {
      assert x.Floor == 0;
    }
  }

  /** The sizes drawCrossbar derives once the bar has rows: the radius is (height-1)/2 >= 0, the second
      hole's end cap still fits in the width, and the hole outline is no wider than markRadius. */
  lemma LayoutFacts(distance: real)
    requires LayoutOf(distance).height > 0
    ensures var L := LayoutOf(distance);
      L.d >= 4 && 2.0 * L.radius == (L.height - 1) as real && L.radius >= 0.0 &&
      L.d + L.height <= L.width && L.markRadius >= 2.0
  {
    var L := LayoutOf(distance);
    DistanceNonNegative(distance);
    if L.d <= 3 {
      ShortDistanceFails(distance);
    }
    assert L.height as real <= L.d as real / 6.0 + 0.5;
    assert L.d as real * 7.0 / 6.0 <= L.width as real;
  }

  /** A rounded value between two integers stays between them. */
  lemma RoundBetween(v: real, lo: int, hi: int)
    requires lo as real <= v <= hi as real
    ensures lo <= RoundHalfEven(v) <= hi
  {
  }

  /** One rounded ring coordinate `round(centre + m*u)`, |u| <= 1, lies in [centre - m, centre + m]
      rounded inwards to integers. */
  lemma RingCoordBetween(centre: real, m: real, u: real, lo: int, hi: int)
    requires m >= 0.0 && -1.0 <= u <= 1.0
    requires lo as real <= centre - m && centre + m <= hi as real
    ensures lo <= RoundHalfEven(Along(centre, m, u)) <= hi
  {
    ScaledOffset(centre, m, u);
    RoundBetween(Along(centre, m, u), lo, hi);
  }

  /** With unit-length trigonometry every end cap lands inside the image, whatever the distance. */
  lemma CapsFit(distance: real, turn: real -> Rot)
    requires LayoutOf(distance).height > 0
    requires forall t :: Unit(turn(t))
    ensures LayoutOf(distance).d >= 0
    ensures PairsFit(CapPairs(LayoutOf(distance), turn), LayoutOf(distance).height, LayoutOf(distance).width)
  {
    var L := LayoutOf(distance);
    LayoutFacts(distance);
    var pairs := CapPairs(L, turn);
    forall i | 0 <= i < |pairs| ensures AllResolve(pairs[i], L.height, L.width) {
      var u := turn(CapAngle(i, L.d));
      UnitBounds(u);
      CapLands(L, u);
    }
  }

  lemma CapLands(L: Layout, u: Rot)
    requires 2.0 * L.radius == (L.height - 1) as real && L.radius >= 0.0 && L.d >= 0
    requires L.d + L.height <= L.width
    requires -1.0 <= u.c <= 1.0 && -1.0 <= u.s <= 1.0
    ensures AllResolve(CapPair(L, u), L.height, L.width)
  {
    var r, top := L.radius, L.height - 1;
    RingCoordBetween(r, r, -u.s, 0, top);
    RingCoordBetween(r, r, -u.c, 0, top);
    RingCoordBetween(r, r, u.s, 0, top);
    RingCoordBetween(L.d as real + r, r, u.c, L.d, L.d + top);
  }

  /** Every point of the first hole outline lies in the image, and so does the point d columns to its right. */
  predicate HolesInside(L: Layout, turn: real -> Rot) {
    forall i :: 0 <= i < 50 ==>
      var c := HolePairs(L, turn)[i][0];
      0 <= c.0 < L.height && 0 <= c.1 && c.1 + L.d < L.width
  }

  /** With unit-length trigonometry both hole outlines land inside the image once the outline's radius is
      at most the bar's half-height; the second outline is then the first moved exactly d columns right. */
  lemma HolesFit(distance: real, turn: real -> Rot)
    requires LayoutOf(distance).height > 0
    requires LayoutOf(distance).markRadius <= LayoutOf(distance).radius
    requires forall t :: Unit(turn(t))
    ensures HolesInside(LayoutOf(distance), turn)
    ensures PairsFit(HolePairs(LayoutOf(distance), turn), LayoutOf(distance).height, LayoutOf(distance).width)
  {
    var L := LayoutOf(distance);
    LayoutFacts(distance);
    var dirs := MarkerDirs(turn);
    var ring := RingCells(L.radius, L.radius, L.markRadius, dirs);
    var pairs := HolePairs(L, turn);
    forall i | 0 <= i < 50
      ensures 0 <= ring[i].0 < L.height && 0 <= ring[i].1 && ring[i].1 + L.d < L.width
    {
      UnitBounds(dirs[i]);
      RingCoordBetween(L.radius, L.markRadius, dirs[i].s, 0, L.height - 1);
      RingCoordBetween(L.radius, L.markRadius, dirs[i].c, 0, L.height - 1);
    }
  }

  /** From a distance of 28 pixels on (height 5 and more) drawCrossbar always draws. */
  lemma DrawsFrom28(distance: real, turn: real -> Rot)
    requires LayoutOf(distance).d >= 28
    requires forall t :: Unit(turn(t))
    ensures var L := LayoutOf(distance);
      L.height > 0 && L.width >= 0 && Fits(L, turn) && HolesInside(L, turn)
  {
    var L := LayoutOf(distance);
    var x := L.d as real / 6.0;
    assert x >= 4.6;
    assert L.height >= 5;
    assert L.d as real / 200.0 <= L.radius;
    LayoutFacts(distance);
    CapsFit(distance, turn);
    HolesFit(distance, turn);
  }

  /** With rows, the bar spans exactly the columns between the two hole centres, on the first and last row. */
  lemma BarBetweenHoles(distance: real)
    requires LayoutOf(distance).height > 0
    ensures LayoutOf(distance).width >= 0
    ensures var L := LayoutOf(distance);
      forall i, j :: (i, j) in BarCells(L) <==>
        (i == 0 || i == L.height - 1) && 0 <= i && L.radius <= j as real <= L.d as real + L.radius
  {
    var L := LayoutOf(distance);
    LayoutFacts(distance);
    var a, b := Ceil(L.radius), Floor(L.d as real + L.radius) + 1;
    assert 0 <= a && b <= L.width;
    assert SliceIndex(a, L.width) == a && SliceIndex(b, L.width) == b;
  }

  /** A drawn crossbar is black exactly on the bar, the end caps and the hole outlines. */
  lemma CrossbarCells(distance: real, turn: real -> Rot)
    requires LayoutOf(distance).height > 0
    ensures var L := LayoutOf(distance);
      L.d >= 0 && L.width >= 0 && |CrossbarRaster(L, turn)| == L.height &&
      Rect(CrossbarRaster(L, turn)) && Width(CrossbarRaster(L, turn)) == L.width
    ensures var L := LayoutOf(distance);
      forall i, j :: 0 <= i < L.height && 0 <= j < L.width ==>
        CrossbarRaster(L, turn)[i][j] == (if (i, j) in Marked(L, turn) then Material else Cleared)
  {
    LayoutFacts(distance);
  }

  /** A cell is in the union exactly when some step writes it. */
  lemma PairsUnionIff(pairs: seq<seq<Cell>>, n0: int, n1: int, c: Cell)
    ensures c in PairsUnion(pairs, n0, n1) <==> exists i :: 0 <= i < |pairs| && c in Resolved(pairs[i], n0, n1)
  {
    if c in PairsUnion(pairs, n0, n1) {
      PairsUnionMember(pairs, n0, n1, c);
    }
    if exists i :: 0 <= i < |pairs| && c in Resolved(pairs[i], n0, n1) {
      var i :| 0 <= i < |pairs| && c in Resolved(pairs[i], n0, n1);
      PairsUnionHas(pairs, n0, n1, i);
    }
  }

  lemma {:induction false} PairsUnionMember(pairs: seq<seq<Cell>>, n0: int, n1: int, c: Cell)
    requires c in PairsUnion(pairs, n0, n1)
    ensures exists i :: 0 <= i < |pairs| && c in Resolved(pairs[i], n0, n1)
  {
    var init := pairs[..|pairs| - 1];
    if c in PairsUnion(init, n0, n1) {
      PairsUnionMember(init, n0, n1, c);
      var i :| 0 <= i < |init| && c in Resolved(init[i], n0, n1);
      assert pairs[i] == init[i];
    } else {
      assert c in Resolved(pairs[|pairs| - 1], n0, n1);
    }
  }

  lemma {:induction false} PairsUnionHas(pairs: seq<seq<Cell>>, n0: int, n1: int, i: int)
    requires 0 <= i < |pairs|
    ensures Resolved(pairs[i], n0, n1) <= PairsUnion(pairs, n0, n1)
  {
    var init := pairs[..|pairs| - 1];
    if i < |init| {
      PairsUnionHas(init, n0, n1, i);
      assert init[i] == pairs[i];
    }
  }

  /** Each point of the first hole outline that lies in the image is marked black, and so is the point
      d columns to its right, on the second outline. */
  lemma HolesMarked(L: Layout, turn: real -> Rot)
    requires L.d >= 0 && L.width >= 0
    requires HolesInside(L, turn)
    ensures forall i :: 0 <= i < 50 ==>
      var c := HolePairs(L, turn)[i][0];
      c in Marked(L, turn) && (c.0, c.1 + L.d) in Marked(L, turn)
  {
    var pairs := HolePairs(L, turn);
    var holes := PairsUnion(pairs, L.height, L.width);
    assert holes <= Marked(L, turn);
    PairsCover(pairs, L.height, L.width);
    forall i | 0 <= i < 50
      ensures pairs[i][0] in holes && pairs[i][1] in holes
    {
      assert 0 <= pairs[i][1].0 < L.height && 0 <= pairs[i][1].1 < L.width;
    }
  }

  /** Every written cell that needs no wrapping is among the cells the steps write. */
  lemma PairsCover(pairs: seq<seq<Cell>>, n0: int, n1: int)
    ensures forall i, k :: 0 <= i < |pairs| && 0 <= k < |pairs[i]| && 0 <= pairs[i][k].0 < n0 && 0 <= pairs[i][k].1 < n1 ==>
      pairs[i][k] in PairsUnion(pairs, n0, n1)
  {
    forall i, k | 0 <= i < |pairs| && 0 <= k < |pairs[i]| && 0 <= pairs[i][k].0 < n0 && 0 <= pairs[i][k].1 < n1
      ensures pairs[i][k] in PairsUnion(pairs, n0, n1)
    {
      InUnion(pairs, i, k, n0, n1);
    }
  }

  /** A written cell that needs no wrapping is among the cells the steps write. */
  lemma InUnion(pairs: seq<seq<Cell>>, i: int, k: int, n0: int, n1: int)
    requires 0 <= i < |pairs| && 0 <= k < |pairs[i]|
    requires 0 <= pairs[i][k].0 < n0 && 0 <= pairs[i][k].1 < n1
    ensures pairs[i][k] in PairsUnion(pairs, n0, n1)
  {
    ResolvedIff(pairs[i], n0, n1, pairs[i][k]);
    PairsUnionIff(pairs, n0, n1, pairs[i][k]);
  }

  /** A drawn crossbar holds only the two values 0 and 255. */
  lemma CrossbarBinary(distance: real, turn: real -> Rot)
    requires LayoutOf(distance).height > 0
    ensures var L := LayoutOf(distance);
      L.d >= 0 && L.width >= 0 &&
      forall i, j :: 0 <= i < L.height && 0 <= j < L.width ==>
        CrossbarRaster(L, turn)[i][j] == Material || CrossbarRaster(L, turn)[i][j] == Cleared
  {
    CrossbarCells(distance, turn);
  }

  /** A distance of 60 pixels: a 10 x 70 image, holes centred at (4.5, 4.5) and (64.5, 4.5), outline radius 2. */
  lemma SixtyPixelLayout()
    ensures LayoutOf(60.0) == Layout(60, 10, 70, 4.5, 2.0)
  {
    assert Trunc(60.0) == 60;
    assert RoundHalfEven(10.0) == 10;
    assert Ceil(70.0) == 70;
  }
}
