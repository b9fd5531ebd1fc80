/** The point preparation of animate_gears.py: `cleanGearImage`, `rotatePtsArray` and the downsample and
    scale steps at the start of `animateGears`. */
module Animate {
  import opened Wrappers
  import opened PyNum
  import opened Geometry
  import opened Raster
  import opened Profile
  import Envelope

  // ---------------------------------------------------------------------------
  // cleanGearImage

  /** cleanGearImage's default threshold. */
  const DefaultThreshold := 128

  /** `labeled.ravel()`: the labels row after row. */
  function Ravel(g: Grid): (s: seq<int>)
    ensures |g| > 0 && Rect(g) ==> |s| == |g| * Width(g)
  {
    if |g| == 0 then [] else Ravel(g[..|g| - 1]) + g[|g| - 1]
  }

  /** How often k occurs in s: entry k of `np.bincount(s)`. */
  function Count(s: seq<int>, k: int): nat {
    if |s| == 0 then 0 else Count(s[..|s| - 1], k) + (if s[|s| - 1] == k then 1 else 0)
  }

  /** How many pixels carry label k. */
  function LabelCount(labels: Grid, k: int): nat {
    Count(Ravel(labels), k)
  }

  /** `sizes` after `sizes[0] = 0`: the pixel count of each label 1..n, and 0 for the background label. */
  function Sizes(labels: Grid, n: nat): (sizes: seq<int>)
    ensures |sizes| == n + 1 && sizes[0] == 0
    ensures forall k :: 1 <= k <= n ==> sizes[k] == LabelCount(labels, k)
  {
    seq(n + 1, k requires 0 <= k <= n => if k == 0 then 0 else LabelCount(labels, k))
  }

  /** `np.argmax`: the first index holding the largest entry. */
  function FirstArgmax(s: seq<int>): (m: nat)
    requires |s| > 0
    ensures m < |s|
    ensures forall j :: 0 <= j < |s| ==> s[j] <= s[m]
    ensures forall j :: 0 <= j < m ==> s[j] < s[m]
  {
    if |s| == 1 then 0
    else
      var k := FirstArgmax(s[..|s| - 1]);
      if s[|s| - 1] > s[k] then |s| - 1 else k
  }

  /** What scipy's `label` hands over for the foreground `image < threshold`: an array of the image's shape
      holding 0 exactly on background pixels and a label 1..n on foreground ones, each label used. */
  predicate ValidLabelling(image: Grid, threshold: int, labels: Grid, n: int) {
    Rect(image) && SameShape(labels, image) && n >= 0 &&
    (forall i, j :: 0 <= i < |image| && 0 <= j < |image[i]| ==>
      0 <= labels[i][j] <= n && (labels[i][j] == 0 <==> image[i][j] >= threshold)) &&
    (forall k :: 1 <= k <= n ==> LabelCount(labels, k) > 0)
  }

  /** The label cleanGearImage keeps: the argmax of the label sizes. */
  function Largest(labels: Grid, n: nat): nat {
    FirstArgmax(Sizes(labels, n))
  }

  /** cleanGearImage: with no foreground the image itself; otherwise 0 on the largest region, 255 elsewhere. */
  function CleanGearImage(image: Grid, threshold: int, labels: Grid, n: nat): Grid
    requires ValidLabelling(image, threshold, labels, n)
  {
    if n == 0 then image
    else
      var keep := Largest(labels, n);
      seq(|image|, i requires 0 <= i < |image| =>
        seq(|image[i]|, j requires 0 <= j < |image[i]| => if labels[i][j] == keep then Material else Cleared))
  }

  // Properties of cleanGearImage

  /** The label counted from a cell is one of the raveled labels. */
  lemma {:induction false} RavelHas(g: Grid, i: int, j: int)
    requires 0 <= i < |g| && 0 <= j < |g[i]|
    ensures g[i][j] in Ravel(g)
  {
    var init := g[..|g| - 1];
    if i < |init| {
      RavelHas(init, i, j);
      assert init[i] == g[i];
    } else {
      assert g[i][j] in g[|g| - 1];
    }
  }

  /** Every raveled label comes from a cell. */
  lemma {:induction false} RavelFrom(g: Grid, v: int)
    requires v in Ravel(g)
    ensures exists i, j :: 0 <= i < |g| && 0 <= j < |g[i]| && g[i][j] == v
  {
    var init := g[..|g| - 1];
    if v in Ravel(init) {
      RavelFrom(init, v);
      var i, j :| 0 <= i < |init| && 0 <= j < |init[i]| && init[i][j] == v;
      assert g[i][j] == v;
    } else {
      var last := g[|g| - 1];
      var j :| 0 <= j < |last| && last[j] == v;
      assert g[|g| - 1][j] == v;
    }
  }

  /** A value is counted exactly when it occurs. */
  lemma {:induction false} CountPositive(s: seq<int>, k: int)
    ensures Count(s, k) > 0 <==> k in s
  {
    if |s| > 0 {
      CountPositive(s[..|s| - 1], k);
      assert s == s[..|s| - 1] + [s[|s| - 1]];
    }
  }

  /** A label is used exactly when some pixel carries it. */
  lemma LabelUsed(labels: Grid, k: int)
    ensures LabelCount(labels, k) > 0 <==>
      exists i, j :: 0 <= i < |labels| && 0 <= j < |labels[i]| && labels[i][j] == k
  {
    CountPositive(Ravel(labels), k);
    if LabelCount(labels, k) > 0 {
      RavelFrom(labels, k);
    }
    if exists i, j :: 0 <= i < |labels| && 0 <= j < |labels[i]| && labels[i][j] == k {
      var i, j :| 0 <= i < |labels| && 0 <= j < |labels[i]| && labels[i][j] == k;
      RavelHas(labels, i, j);
    }
  }

  /** The labelling reports no feature exactly when no pixel is below the threshold. */
  lemma NoFeaturesIff(image: Grid, threshold: int, labels: Grid, n: nat)
    requires ValidLabelling(image, threshold, labels, n)
    ensures n == 0 <==> forall i, j :: 0 <= i < |image| && 0 <= j < |image[i]| ==> image[i][j] >= threshold
  {
    if n > 0 {
      LabelUsed(labels, 1);
      var i, j :| 0 <= i < |labels| && 0 <= j < |labels[i]| && labels[i][j] == 1;
      assert image[i][j] < threshold;
    }
  }

  /** An image with no pixel below the threshold comes back unchanged. */
  lemma CleanKeepsFeaturelessImage(image: Grid, threshold: int, labels: Grid, n: nat)
    requires ValidLabelling(image, threshold, labels, n)
    requires forall i, j :: 0 <= i < |image| && 0 <= j < |image[i]| ==> image[i][j] >= threshold
    ensures CleanGearImage(image, threshold, labels, n) == image
  {
    NoFeaturesIff(image, threshold, labels, n);
  }

  /** The kept label is a foreground label of the largest size; every smaller label is strictly smaller,
      so ties go to the smallest label. */
  lemma LargestIsMaximal(image: Grid, threshold: int, labels: Grid, n: nat)
    requires ValidLabelling(image, threshold, labels, n) && n > 0
    ensures 1 <= Largest(labels, n) <= n
    ensures forall k :: 1 <= k <= n ==> LabelCount(labels, k) <= LabelCount(labels, Largest(labels, n))
    ensures forall k :: 1 <= k < Largest(labels, n) ==> LabelCount(labels, k) < LabelCount(labels, Largest(labels, n))
  {
    var sizes := Sizes(labels, n);
    var m := FirstArgmax(sizes);
    assert sizes[1] > 0;
    assert sizes[m] >= sizes[1];
    forall k | 1 <= k <= n ensures LabelCount(labels, k) <= LabelCount(labels, m) {
      assert sizes[k] <= sizes[m];
    }
    forall k | 1 <= k < m ensures LabelCount(labels, k) < LabelCount(labels, m) {
      assert sizes[k] < sizes[m];
    }
  }

  /** With a foreground the result has the image's shape, holds only 0 and 255, is 0 exactly on the kept
      label, and so is 0 only where the image was below the threshold. */
  lemma CleanExact(image: Grid, threshold: int, labels: Grid, n: nat)
    requires ValidLabelling(image, threshold, labels, n) && n > 0
    ensures var r := CleanGearImage(image, threshold, labels, n);
      SameShape(r, image) &&
      forall i, j :: 0 <= i < |image| && 0 <= j < |image[i]| ==>
        (r[i][j] == Material || r[i][j] == Cleared) &&
        (r[i][j] == Material <==> labels[i][j] == Largest(labels, n)) &&
        (r[i][j] == Material ==> image[i][j] < threshold)
  {
    LargestIsMaximal(image, threshold, labels, n);
  }

  // ---------------------------------------------------------------------------
  // rotatePtsArray

  /** The columns `coords[:, 0]` and `coords[:, 1]`. */
  function Xs(pts: seq<Point>): (xs: seq<real>)
    ensures |xs| == |pts|
  {
    seq(|pts|, k requires 0 <= k < |pts| => pts[k].x)
  }

  function Ys(pts: seq<Point>): (ys: seq<real>)
    ensures |ys| == |pts|
  {
    seq(|pts|, k requires 0 <= k < |pts| => pts[k].y)
  }

  /** `np.column_stack((xs, ys))`. */
  function ColumnStack(xs: seq<real>, ys: seq<real>): (pts: seq<Point>)
    requires |xs| == |ys|
    ensures |pts| == |xs|
  {
    seq(|xs|, k requires 0 <= k < |xs| => Point(xs[k], ys[k]))
  }

  /** rotatePtsArray on the angle's (cos, sin): column arithmetic on the coordinate array. An empty list
      becomes a one-dimensional array, and `coords[:, 0]` raises IndexError. */
  function RotatePtsArray(coords: seq<Point>, origin: Point, r: Rot): Result<seq<Point>> {
    if |coords| == 0 then Failure(IndexOutOfRange)
    else
      var xs, ys := Xs(coords), Ys(coords);
      var xNew := seq(|xs|, k requires 0 <= k < |xs| => origin.x + (xs[k] - origin.x) * r.c - (ys[k] - origin.y) * r.s);
      var yNew := seq(|xs|, k requires 0 <= k < |xs| => origin.y + (xs[k] - origin.x) * r.s + (ys[k] - origin.y) * r.c);
      Success(ColumnStack(xNew, yNew))
  }

  /** rotatePtsArray is rotatePts: the same points, in the same order, for every non-empty list. */
  lemma RotatePtsArrayIsRotatePts(coords: seq<Point>, origin: Point, r: Rot)
    ensures RotatePtsArray(coords, origin, r).Success? <==> |coords| > 0
    ensures |coords| > 0 ==> RotatePtsArray(coords, origin, r).value == RotatePts(coords, origin, r)
  {
    if |coords| > 0 {
      var xs, ys := Xs(coords), Ys(coords);
      var xNew := seq(|xs|, k requires 0 <= k < |xs| => origin.x + (xs[k] - origin.x) * r.c - (ys[k] - origin.y) * r.s);
      var yNew := seq(|xs|, k requires 0 <= k < |xs| => origin.y + (xs[k] - origin.x) * r.s + (ys[k] - origin.y) * r.c);
      var a, b := ColumnStack(xNew, yNew), RotatePts(coords, origin, r);
      assert RotatePtsArray(coords, origin, r).value == a;
      forall k | 0 <= k < |coords| ensures a[k] == b[k] {
        var p := coords[k];
        assert xs[k] == p.x && ys[k] == p.y;
        assert xNew[k] == origin.x + (p.x - origin.x) * r.c - (p.y - origin.y) * r.s;
        assert yNew[k] == origin.y + (p.x - origin.x) * r.s + (p.y - origin.y) * r.c;
        assert a[k] == Point(xNew[k], yNew[k]);
        ColumnRotation(p, origin, r);
        assert b[k] == RotatePoint(p, origin, r);
      }
    }
  }

  /** One row of the column arithmetic is rotatePts' formula for that point. */
  lemma ColumnRotation(p: Point, origin: Point, r: Rot)
    ensures Point(origin.x + (p.x - origin.x) * r.c - (p.y - origin.y) * r.s,
                  origin.y + (p.x - origin.x) * r.s + (p.y - origin.y) * r.c) == RotatePoint(p, origin, r)
  {
  }

  // ---------------------------------------------------------------------------
  // Downsampling and scaling (animateGears)

  /** `s[::d]` as Python slices it: the first element, then the slice of what is left after d elements. */
  function Stride<T>(s: seq<T>, d: nat): seq<T>
    requires d >= 1
    decreases |s|
  {
    if |s| == 0 then [] else [s[0]] + Stride(s[MinInt(d, |s|)..], d)
  }

  /** The `if downsample > 1` step. */
  function Downsample<T>(s: seq<T>, d: int): seq<T> {
    if d > 1 then Stride(s, d) else s
  }

  /** `k*d`, the index the k-th kept element comes from. */
  function Picked(k: int, d: int): int {
    k * d
  }

  /** Integer division is pinned down by quotient and remainder. */
  lemma DivUnique(a: int, d: int, q: int, r: int)
    requires d >= 1 && 0 <= r < d && a == q * d + r
    ensures a / d == q
  {
    var q0, r0 := a / d, a % d;
    var e := q - q0;
    assert e * d == r0 - r;
    assert -d < e * d < d;
  }

  /** `s[::d]` keeps ceil(n/d) = (n + d - 1) / d elements. */
  lemma {:induction false} StrideLength<T>(s: seq<T>, d: nat)
    requires d >= 1
    decreases |s|
    ensures |Stride(s, d)| == (|s| + d - 1) / d
  {
    if |s| == 0 {
      DivUnique(d - 1, d, 0, d - 1);
    } else if |s| >= d {
      var rest := s[d..];
      StrideLength(rest, d);
      var q := (|rest| + d - 1) / d;
      DivUnique(|s| + d - 1, d, q + 1, (|rest| + d - 1) % d);
    } else {
      assert s[|s|..] == [];
      DivUnique(|s| + d - 1, d, 1, |s| - 1);
    }
  }

  /** The k-th element `s[::d]` keeps is element k*d, so the kept elements keep their order. */
  lemma {:induction false} StrideAt<T>(s: seq<T>, d: nat)
    requires d >= 1
    decreases |s|
    ensures forall k :: 0 <= k < |Stride(s, d)| ==> 0 <= Picked(k, d) < |s| && Stride(s, d)[k] == s[Picked(k, d)]
  {
    if |s| > 0 {
      var m := MinInt(d, |s|);
      var rest := s[m..];
      StrideAt(rest, d);
      var t := Stride(s, d);
      forall k | 0 <= k < |t| ensures 0 <= Picked(k, d) < |s| && t[k] == s[Picked(k, d)] {
        if k > 0 {
          assert t[k] == Stride(rest, d)[k - 1];
          assert Picked(k - 1, d) + d == Picked(k, d) by {
            assert (k - 1) * d + d == k * d;
          }
          assert Picked(k - 1, d) >= 0;
          assert m == d;
        }
      }
    }
  }

  /** The downsample step: the stride when d > 1, the list itself otherwise. */
  lemma DownsampleSpec<T>(s: seq<T>, d: int)
    ensures d <= 1 ==> Downsample(s, d) == s
    ensures d > 1 ==> |Downsample(s, d)| == (|s| + d - 1) / d
    ensures d > 1 ==> forall k :: 0 <= k < |Downsample(s, d)| ==>
      0 <= Picked(k, d) < |s| && Downsample(s, d)[k] == s[Picked(k, d)]
  {
    if d > 1 {
      StrideLength(s, d);
      StrideAt(s, d);
    }
  }

  /** `[(ratio * x, ratio * y) for (x, y) in pts]`. */
  function ScalePoints(pts: seq<Point>, ratio: real): (out: seq<Point>)
    ensures |out| == |pts|
  {
    seq(|pts|, k requires 0 <= k < |pts| => Point(ratio * pts[k].x, ratio * pts[k].y))
  }

  /** Scaling multiplies both coordinates of each point, in order, and a non-zero ratio can be undone. */
  lemma ScalePointsRoundTrip(pts: seq<Point>, ratio: real)
    requires ratio != 0.0
    ensures ScalePoints(ScalePoints(pts, ratio), 1.0 / ratio) == pts
  {
    var back := ScalePoints(ScalePoints(pts, ratio), 1.0 / ratio);
    forall k | 0 <= k < |pts| ensures back[k] == pts[k] {
      var p := pts[k];
      assert (1.0 / ratio) * (ratio * p.x) == p.x;
      assert (1.0 / ratio) * (ratio * p.y) == p.y;
    }
  }

  /** The driving gear's axle `(ratio + 1 - overlap, 0)`. animateGears takes the ratio as any number, while
      the envelope run needs an integer one for `range(ratio)`, so this is Envelope.Axle over a real ratio. */
  function AnimationAxle(ratio: real, overlap: real): Point {
    Point(ratio + 1.0 - overlap, 0.0)
  }

  /** On an integer ratio the animation's axle is the envelope run's. */
  lemma AnimationAxleIsAxle(ratio: int, overlap: real)
    ensures AnimationAxle(ratio as real, overlap) == Envelope.Axle(ratio, overlap)
  {
  }

  /** Lines 99-108 of animateGears: the profile of the driving gear about its axle, and the cleaned driven
      gear's profile about the origin, both downsampled, the driven one scaled by the ratio. */
  function AnimationPoints(inputGear: Grid, outputGear: Grid, labels: Grid, n: nat,
                           ratio: real, overlap: real, downsample: int): (seq<Point>, seq<Point>)
    requires Rect(inputGear) && |inputGear| > 0
    requires ValidLabelling(outputGear, DefaultThreshold, labels, n) && |outputGear| > 0
  {
    var cleaned := CleanGearImage(outputGear, DefaultThreshold, labels, n);
    CleanShape(outputGear, DefaultThreshold, labels, n);
    var inCoords := ProfilePoints(inputGear, AnimationAxle(ratio, overlap));
    var outCoords := ProfilePoints(cleaned, Origin);
    (Downsample(inCoords, downsample), PrepareDriven(outCoords, downsample, ratio))
  }

  /** cleanGearImage keeps the image's shape. */
  lemma CleanShape(image: Grid, threshold: int, labels: Grid, n: nat)
    requires ValidLabelling(image, threshold, labels, n)
    ensures SameShape(CleanGearImage(image, threshold, labels, n), image)
    ensures Rect(CleanGearImage(image, threshold, labels, n))
  {
  }

  /** The driven list of lines 104-108: downsampled, then scaled by the ratio. */
  function PrepareDriven(outCoords: seq<Point>, d: int, ratio: real): seq<Point> {
    ScalePoints(Downsample(outCoords, d), ratio)
  }

  /** The k-th prepared driven point is the (k*d)-th extracted point (the k-th when d <= 1) scaled by the
      ratio; ceil(n/d) of them are kept. */
  lemma PrepareDrivenSpec(outCoords: seq<Point>, d: int, ratio: real)
    ensures |PrepareDriven(outCoords, d, ratio)| == if d > 1 then (|outCoords| + d - 1) / d else |outCoords|
    ensures forall k :: 0 <= k < |PrepareDriven(outCoords, d, ratio)| ==>
      var src := if d > 1 then Picked(k, d) else k;
      0 <= src < |outCoords| &&
      PrepareDriven(outCoords, d, ratio)[k] == Point(ratio * outCoords[src].x, ratio * outCoords[src].y)
  {
    DownsampleSpec(outCoords, d);
  }

  /** A driven gear with no pixel below 128 has no pixel equal to 0, so the driven point list is empty. */
  lemma FeaturelessDrivenGearHasNoPoints(inputGear: Grid, outputGear: Grid, labels: Grid,
                                         ratio: real, overlap: real, d: int)
    requires Rect(inputGear) && |inputGear| > 0
    requires ValidLabelling(outputGear, DefaultThreshold, labels, 0) && |outputGear| > 0
    ensures AnimationPoints(inputGear, outputGear, labels, 0, ratio, overlap, d).1 == []
  {
    NoFeaturesIff(outputGear, DefaultThreshold, labels, 0);
    ProfileEmptyIff(outputGear, Origin);
    DownsampleSpec(ProfilePoints(outputGear, Origin), d);
  }
}
