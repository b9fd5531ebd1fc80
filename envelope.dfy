/** The envelope simulation: the numeric body of create_gear.py `PygearGUI.runComputationStepwise`,
    run as an ordinary loop over the steps, followed by `outputCleanup`. */
module Envelope {
  import opened Wrappers
  import opened PyNum
  import opened Geometry
  import opened Raster
  import opened Profile
  import opened Cleanup

  /** The driving gear's axle, `(ratio + 1 - overlap, 0)`; the driven gear turns about the origin. */
  function Axle(ratio: int, overlap: real): Point {
    Point((ratio + 1) as real - overlap, 0.0)
  }

  /** `[c for c in coords if dist(*c) < ratio]`: the points within reach of the driven gear's disk. */
  function InReach(pts: seq<Point>, ratio: int): (r: seq<Point>)
    ensures |r| <= |pts|
  {
    if |pts| == 0 then []
    else
      var last := pts[|pts| - 1];
      InReach(pts[..|pts| - 1], ratio) + (if !DistAtLeast(last.x, last.y, ratio as real) then [last] else [])
  }

  /** The filter keeps exactly the points strictly inside the disk of radius ratio. */
  lemma {:induction false} InReachIff(pts: seq<Point>, ratio: int, p: Point)
    ensures p in InReach(pts, ratio) <==> p in pts && !DistAtLeast(p.x, p.y, ratio as real)
  {
    if |pts| > 0 {
      var init := pts[..|pts| - 1];
      InReachIff(init, ratio, p);
      assert pts == init + [pts[|pts| - 1]];
    }
  }

  /** The filter keeps the order of the points it keeps: filtering a + b is filtering a, then b. */
  lemma {:induction false} InReachAppend(a: seq<Point>, b: seq<Point>, ratio: int)
    ensures InReach(a + b, ratio) == InReach(a, ratio) + InReach(b, ratio)
  {
    if |b| > 0 {
      var ab := a + b;
      assert ab[..|ab| - 1] == a + b[..|b| - 1];
      assert ab[|ab| - 1] == b[|b| - 1];
      InReachAppend(a, b[..|b| - 1], ratio);
    } else {
      assert a + b == a;
    }
  }

  /** What one run works with: the driving-gear cloud (already offset to the axle), the parameters,
      the side of the output raster, and the (cos, sin) of an angle given in turns (angle = 2*pi*t). */
  datatype Setup = Setup(pts: seq<Point>, ratio: int, overlap: real, steps: int, size: int, turn: real -> Rot)

  /** The parameters under which the loop body is defined (no division by zero). */
  predicate Runnable(st: Setup) {
    st.ratio >= 1 && st.steps != 0
  }

  /** Angle of the driving gear at step s: theta*s with theta = 2*pi/steps. */
  function DrivingTurn(s: int, steps: int): real
    requires steps != 0
  {
    s as real / steps as real
  }

  /** Angle of copy `extra` of the driven gear at step s: phi*s + 2*pi*extra/ratio, phi = 2*pi/(steps*ratio). */
  function DrivenTurn(s: int, steps: int, ratio: int, extra: int): real
    requires steps != 0 && ratio != 0
  {
    s as real / (steps * ratio) as real + extra as real / ratio as real
  }

  /** addPoints of step s: the driving cloud turned about its axle, cut to the disk of radius ratio. */
  function Reach(st: Setup, s: int): seq<Point>
    requires Runnable(st)
  {
    InReach(RotatePts(st.pts, Axle(st.ratio, st.overlap), st.turn(DrivingTurn(s, st.steps))), st.ratio)
  }

  /** addPointsRot of step s and copy `extra`. */
  function Copy(st: Setup, s: int, extra: int): seq<Point>
    requires Runnable(st)
  {
    RotatePts(Reach(st, s), Origin, st.turn(DrivenTurn(s, st.steps, st.ratio, extra)))
  }

  /** The clouds step s stamps, in order: copy 0 .. ratio-1 of the driven gear's view. */
  function StepClouds(st: Setup, s: int): seq<seq<Point>>
    requires Runnable(st)
  {
    seq(st.ratio, e requires 0 <= e < st.ratio => Copy(st, s, e))
  }

  /** The clouds steps 0 .. k-1 stamp, in order. */
  function SweepClouds(st: Setup, k: nat): seq<seq<Point>>
    requires Runnable(st)
  {
    if k == 0 then [] else SweepClouds(st, k - 1) + StepClouds(st, k - 1)
  }

  /** How many steps the loop runs (`step < steps` fails at once for steps <= 0). */
  function StepCount(steps: int): nat {
    if steps > 0 then steps else 0
  }

  /** The side of the output raster: inputImageSize * ratio. */
  function OutSize(image: Grid, ratio: int): nat
    requires ratio >= 0
  {
    Max(|image|, Width(image)) * ratio
  }

  function SetupFor(image: Grid, ratio: int, overlap: real, steps: int, turn: real -> Rot): Setup
    requires Rect(image) && |image| > 0 && ratio >= 0
  {
    Setup(ProfilePoints(image, Axle(ratio, overlap)), ratio, overlap, steps, OutSize(image, ratio), turn)
  }

  /** The finished gear raster: a zero raster swept by every step, then cleaned up once. */
  function GearRaster(image: Grid, ratio: int, overlap: real, steps: int, turn: real -> Rot): (g: Grid)
    requires Rect(image) && |image| > 0 && ratio >= 1 && steps != 0
    ensures |g| == OutSize(image, ratio) && Rect(g) && Width(g) == OutSize(image, ratio)
  {
    var st := SetupFor(image, ratio, overlap, steps, turn);
    Cleaned(StampAll(Constant(st.size, st.size, Material), SweepClouds(st, StepCount(steps)), st.size, st.ratio), turn)
  }

  /** One call of runComputationStepwise's body for step `step`: the driving cloud is turned to its
      position, cut to the driven disk, and stamped once for each of the `ratio` driven copies. */
  method RunStep(outputGear: array2<int>, st: Setup, step: int)
    requires Runnable(st) && outputGear.Length0 == outputGear.Length1 == st.size
    modifies outputGear
    ensures Cells(outputGear) == StampAll(old(Cells(outputGear)), StepClouds(st, step), st.size, st.ratio)
  {
    var coords := RotatePts(st.pts, Axle(st.ratio, st.overlap), st.turn(DrivingTurn(step, st.steps)));
    var addPoints := InReach(coords, st.ratio);
    var clouds := seq(st.ratio, extra requires 0 <= extra < st.ratio =>
      RotatePts(addPoints, Origin, st.turn(DrivenTurn(step, st.steps, st.ratio, extra))));
    assert clouds == StepClouds(st, step);
    StampEach(outputGear, clouds, st.size, st.ratio);
  }

  lemma SweepCloudsNext(g0: Grid, st: Setup, step: nat, cur: Grid, next: Grid)
    requires Runnable(st)
    requires cur == StampAll(g0, SweepClouds(st, step), st.size, st.ratio)
    requires next == StampAll(cur, StepClouds(st, step), st.size, st.ratio)
    ensures next == StampAll(g0, SweepClouds(st, step + 1), st.size, st.ratio)
  {
    StampAllAppend(g0, SweepClouds(st, step), StepClouds(st, step), st.size, st.ratio);
  }

  /** The rescheduling of runComputationStepwise (`self.after(..)` while step < steps), as a loop. */
  method RunSteps(outputGear: array2<int>, st: Setup)
    requires Runnable(st) && outputGear.Length0 == outputGear.Length1 == st.size
    modifies outputGear
    ensures Cells(outputGear) == StampAll(old(Cells(outputGear)), SweepClouds(st, StepCount(st.steps)), st.size, st.ratio)
  {
    ghost var g0 := Cells(outputGear);
    for step := 0 to StepCount(st.steps)
      invariant Cells(outputGear) == StampAll(g0, SweepClouds(st, step), st.size, st.ratio)
    {
      ghost var cur := Cells(outputGear);
      RunStep(outputGear, st, step);
      SweepCloudsNext(g0, st, step, cur, Cells(outputGear));
    }
  }

  /** runComputationStepwise from step 0 to the end. The run fails the way the Python does:
      np.zeros refuses a negative side, theta or phi divides by zero, or a marker write of
      outputCleanup raises IndexError (the raster it was writing is then discarded). */
  method RunEnvelope(image: Grid, ratio: int, overlap: real, steps: int, turn: real -> Rot)
    returns (r: Result<array2<int>>)
    requires Rect(image) && |image| > 0
    ensures r.Success? <==> ratio >= 1 && steps != 0 && RingFits(OutSize(image, ratio), turn)
    ensures r.Failure? ==> r.error == (if ratio < 0 then NegativeDimensions
                                       else if ratio == 0 || steps == 0 then DivisionByZero
                                       else IndexOutOfRange)
    ensures r.Success? ==> Cells(r.value) == GearRaster(image, ratio, overlap, steps, turn)
  {
    var offset := Axle(ratio, overlap);
    var inputCoords, inputImageSize := GetBlackPixels(image, offset);
    if ratio < 0 {
      return Failure(NegativeDimensions);
    }
    var outputImageSize := inputImageSize * ratio;
    var outputGear := new int[outputImageSize, outputImageSize]((i, j) => Material);
    if steps == 0 || ratio == 0 {
      return Failure(DivisionByZero);
    }
    var st := Setup(inputCoords, ratio, overlap, steps, outputImageSize, turn);
    assert st == SetupFor(image, ratio, overlap, steps, turn);
    GridExt(Cells(outputGear), Constant(st.size, st.size, Material));
    RunSteps(outputGear, st);
    if !RingFits(outputImageSize, turn) {
      return Failure(IndexOutOfRange);
    }
    OutputCleanup(outputGear, turn);
    return Success(outputGear);
  }

  // ---------------------------------------------------------------------------
  // Properties

  /** The cells the whole run writes on an n x n raster: the swept area. */
  function Swept(st: Setup, n: int): set<Cell>
    requires Runnable(st)
  {
    AllTargets(SweepClouds(st, StepCount(st.steps)), st.size, st.ratio, n, n)
  }

  /** The clouds stamped by steps 0 .. k-1 are exactly the copies e < ratio of the steps s < k. */
  lemma SweepCloudsIff(st: Setup, k: nat, cloud: seq<Point>)
    requires Runnable(st)
    ensures cloud in SweepClouds(st, k) <==>
            exists s, e :: 0 <= s < k && 0 <= e < st.ratio && cloud == StepClouds(st, s)[e]
  {
    if cloud in SweepClouds(st, k) {
      SweepCloudsMember(st, k, cloud);
    }
    if exists s, e :: 0 <= s < k && 0 <= e < st.ratio && cloud == StepClouds(st, s)[e] {
      var s, e :| 0 <= s < k && 0 <= e < st.ratio && cloud == StepClouds(st, s)[e];
      SweepCloudsHas(st, k, s, e);
    }
  }

  lemma {:induction false} SweepCloudsMember(st: Setup, k: nat, cloud: seq<Point>)
    requires Runnable(st) && cloud in SweepClouds(st, k)
    ensures exists s, e :: 0 <= s < k && 0 <= e < st.ratio && cloud == StepClouds(st, s)[e]
  {
    var last := StepClouds(st, k - 1);
    if cloud in last {
      var e :| 0 <= e < |last| && last[e] == cloud;
    } else {
      SweepCloudsMember(st, k - 1, cloud);
    }
  }

  lemma {:induction false} SweepCloudsHas(st: Setup, k: nat, s: int, e: int)
    requires Runnable(st) && 0 <= s < k && 0 <= e < st.ratio
    ensures StepClouds(st, s)[e] in SweepClouds(st, k)
  {
    if s < k - 1 {
      SweepCloudsHas(st, k - 1, s, e);
    }
  }

  /** A cell is swept exactly when some copy e of the driven gear's view at some step s writes it. */
  lemma SweptIff(st: Setup, n: int, c: Cell)
    requires Runnable(st)
    ensures c in Swept(st, n) <==>
            exists s, e :: 0 <= s < StepCount(st.steps) && 0 <= e < st.ratio &&
                           c in Targets(Copy(st, s, e), st.size, st.ratio, n, n)
  {
    if c in Swept(st, n) {
      SweptByCopy(st, n, c);
    }
    if exists s, e :: 0 <= s < StepCount(st.steps) && 0 <= e < st.ratio &&
                      c in Targets(Copy(st, s, e), st.size, st.ratio, n, n) {
      var s, e :| 0 <= s < StepCount(st.steps) && 0 <= e < st.ratio &&
                  c in Targets(Copy(st, s, e), st.size, st.ratio, n, n);
      CopySwept(st, n, s, e);
    }
  }

  lemma SweptByCopy(st: Setup, n: int, c: Cell)
    requires Runnable(st) && c in Swept(st, n)
    ensures exists s, e :: 0 <= s < StepCount(st.steps) && 0 <= e < st.ratio &&
                           c in Targets(Copy(st, s, e), st.size, st.ratio, n, n)
  {
    var clouds := SweepClouds(st, StepCount(st.steps));
    AllTargetsMember(clouds, st.size, st.ratio, n, n, c);
    var m :| 0 <= m < |clouds| && c in Targets(clouds[m], st.size, st.ratio, n, n);
    SweepCloudsMember(st, StepCount(st.steps), clouds[m]);
    var s, e :| 0 <= s < StepCount(st.steps) && 0 <= e < st.ratio && clouds[m] == StepClouds(st, s)[e];
    assert clouds[m] == Copy(st, s, e);
  }

  lemma CopySwept(st: Setup, n: int, s: int, e: int)
    requires Runnable(st) && 0 <= s < StepCount(st.steps) && 0 <= e < st.ratio
    ensures Targets(Copy(st, s, e), st.size, st.ratio, n, n) <= Swept(st, n)
  {
    var clouds := SweepClouds(st, StepCount(st.steps));
    SweepCloudsHas(st, StepCount(st.steps), s, e);
    var m :| 0 <= m < |clouds| && clouds[m] == StepClouds(st, s)[e];
    AllTargetsHas(clouds, st.size, st.ratio, n, n, m);
  }

  /** A cell of the finished gear raster is 255 exactly when it is on or outside the rim, on the axle
      marker, or swept by some copy of the driving gear at some step; every other cell is 0. */
  lemma GearRasterCells(image: Grid, ratio: int, overlap: real, steps: int, turn: real -> Rot)
    requires Rect(image) && |image| > 0 && ratio >= 1 && steps != 0
    ensures var n := OutSize(image, ratio);
      var g := GearRaster(image, ratio, overlap, steps, turn);
      var st := SetupFor(image, ratio, overlap, steps, turn);
      n >= 1 && |g| == n && Rect(g) && Width(g) == n &&
      forall i, j :: 0 <= i < n && 0 <= j < n ==>
        g[i][j] == if OnOrOutsideRim(i, j, n) || (i, j) in Resolved(AxleRing(n, turn), n, n) ||
                      (i, j) in Swept(st, n)
                   then Cleared else Material
  {
    var n := OutSize(image, ratio);
    var st := SetupFor(image, ratio, overlap, steps, turn);
    assert Max(|image|, Width(image)) >= 1;
    assert n >= ratio;
    var zero := Constant(n, n, Material);
    var swept := StampAll(zero, SweepClouds(st, StepCount(steps)), n, ratio);
    StampAllIsFill(zero, SweepClouds(st, StepCount(steps)), n, ratio);
    ClearRimSpec(swept);
  }

  /** The gear raster is binary: every cell is 0 or 255. */
  lemma GearRasterBinary(image: Grid, ratio: int, overlap: real, steps: int, turn: real -> Rot)
    requires Rect(image) && |image| > 0 && ratio >= 1 && steps != 0
    ensures var g := GearRaster(image, ratio, overlap, steps, turn);
      forall i, j :: 0 <= i < |g| && 0 <= j < |g[i]| ==> g[i][j] == Material || g[i][j] == Cleared
  {
    GearRasterCells(image, ratio, overlap, steps, turn);
  }

  /** The gear raster is circular: every cell on or outside the rim circle is 255. */
  lemma GearRasterCircular(image: Grid, ratio: int, overlap: real, steps: int, turn: real -> Rot)
    requires Rect(image) && |image| > 0 && ratio >= 1 && steps != 0
    ensures var g := GearRaster(image, ratio, overlap, steps, turn); var n := OutSize(image, ratio);
      forall i, j :: 0 <= i < n && 0 <= j < n && OnOrOutsideRim(i, j, n) ==> g[i][j] == Cleared
  {
    GearRasterCells(image, ratio, overlap, steps, turn);
  }

  /** Every point kept at a step lies strictly inside the driven gear's disk of radius ratio. */
  lemma ReachInsideDisk(st: Setup, s: int)
    requires Runnable(st)
    ensures forall p :: p in Reach(st, s) ==> !DistAtLeast(p.x, p.y, st.ratio as real)
  {
    var coords := RotatePts(st.pts, Axle(st.ratio, st.overlap), st.turn(DrivingTurn(s, st.steps)));
    forall p | p in Reach(st, s) ensures !DistAtLeast(p.x, p.y, st.ratio as real) {
      InReachIff(coords, st.ratio, p);
    }
  }

  /** With a true rotation (cos^2 + sin^2 = 1) every stamped point hits its own pixel: no target of
      outputGearImage is skipped by the try/except and none wraps around. */
  lemma CopyHitsOwnPixel(st: Setup, s: int, e: int)
    requires Runnable(st) && st.size > 0
    requires forall t :: Unit(st.turn(t))
    ensures forall q :: q in Copy(st, s, e) ==>
      WrapCell(RawCell(q, st.size, st.ratio), st.size, st.size) == Some(RawCell(q, st.size, st.ratio))
  {
    var reach := Reach(st, s);
    var rot := st.turn(DrivenTurn(s, st.steps, st.ratio, e));
    var copy := Copy(st, s, e);
    ReachInsideDisk(st, s);
    forall k | 0 <= k < |copy|
      ensures WrapCell(RawCell(copy[k], st.size, st.ratio), st.size, st.size) == Some(RawCell(copy[k], st.size, st.ratio))
    {
      assert reach[k] in reach;
      PointHitsOwnPixel(reach[k], rot, st.size, st.ratio);
    }
  }

  lemma PointHitsOwnPixel(p: Point, rot: Rot, size: int, ratio: int)
    requires ratio > 0 && size > 0 && Unit(rot) && !DistAtLeast(p.x, p.y, ratio as real)
    ensures var q := RotatePoint(p, Origin, rot);
      WrapCell(RawCell(q, size, ratio), size, size) == Some(RawCell(q, size, ratio))
  {
    var q := RotatePoint(p, Origin, rot);
    RotateKeepsDistance(p, Origin, rot);
    assert SqDist(q, Origin) == q.x * q.x + q.y * q.y;
    assert SqDist(p, Origin) == p.x * p.x + p.y * p.y;
    InsideDiskInsideSquare(q, ratio as real);
    RawCellInRange(q, size, ratio);
  }

  /** A run in which no step keeps a point cuts nothing: the gear is a solid disk, 0 inside the rim
      except on the axle marker. */
  lemma NothingKeptSolidDisk(image: Grid, ratio: int, overlap: real, steps: int, turn: real -> Rot)
    requires Rect(image) && |image| > 0 && ratio >= 1 && steps != 0
    requires forall s :: 0 <= s < StepCount(steps) ==> Reach(SetupFor(image, ratio, overlap, steps, turn), s) == []
    ensures var n := OutSize(image, ratio);
      var g := GearRaster(image, ratio, overlap, steps, turn);
      forall i, j :: 0 <= i < n && 0 <= j < n ==>
        g[i][j] == if OnOrOutsideRim(i, j, n) || (i, j) in Resolved(AxleRing(n, turn), n, n) then Cleared else Material
  {
    var n := OutSize(image, ratio);
    var st := SetupFor(image, ratio, overlap, steps, turn);
    GearRasterCells(image, ratio, overlap, steps, turn);
    forall c ensures c !in Swept(st, n) {
      SweptIff(st, n, c);
      forall s, e | 0 <= s < StepCount(st.steps) && 0 <= e < st.ratio
        ensures c !in Targets(Copy(st, s, e), st.size, st.ratio, n, n)
      {
        assert Copy(st, s, e) == [];
      }
    }
  }

  /** An input with no black pixel gives a solid disk: nothing is cut away. */
  lemma EmptyProfileSolidDisk(image: Grid, ratio: int, overlap: real, steps: int, turn: real -> Rot)
    requires Rect(image) && |image| > 0 && ratio >= 1 && steps != 0
    requires forall i, j :: 0 <= i < |image| && 0 <= j < |image[i]| ==> image[i][j] != 0
    ensures var n := OutSize(image, ratio);
      var g := GearRaster(image, ratio, overlap, steps, turn);
      forall i, j :: 0 <= i < n && 0 <= j < n ==>
        g[i][j] == if OnOrOutsideRim(i, j, n) || (i, j) in Resolved(AxleRing(n, turn), n, n) then Cleared else Material
  {
    ProfileEmptyIff(image, Axle(ratio, overlap));
    NothingKeptSolidDisk(image, ratio, overlap, steps, turn);
  }

  /** A 3 x 3 driving gear whose only black pixel is the centre one. */
  const CentrePixel: Grid := [[255, 255, 255], [255, 0, 255], [255, 255, 255]]

  /** With ratio 1 and overlap 1 the centre pixel maps onto the driving axle (1, 0). */
  lemma CentrePixelProfile()
    ensures ProfilePoints(CentrePixel, Axle(1, 1.0)) == [Axle(1, 1.0)]
  {
    var axle := Axle(1, 1.0);
    assert axle == Point(1.0, 0.0);
    assert ZeroCells(CentrePixel) == [(1, 1)] by {
      assert RowZeroCells(CentrePixel, 0, 3) == [] && RowZeroCells(CentrePixel, 2, 3) == [];
      assert RowZeroCells(CentrePixel, 1, 3) == [(1, 1)];
    }
    assert PixelPoint(3, 3, axle, (1, 1)) == axle;
  }

  /** A cloud that is just the driving axle never moves, so if the axle is not within reach nothing
      is kept at any step. */
  lemma AxleOnlyKeepsNothing(st: Setup, s: int)
    requires Runnable(st)
    requires st.pts == [Axle(st.ratio, st.overlap)]
    requires DistAtLeast(st.pts[0].x, st.pts[0].y, st.ratio as real)
    ensures Reach(st, s) == []
  {
    var axle := Axle(st.ratio, st.overlap);
    var rot := st.turn(DrivingTurn(s, st.steps));
    RotateFixesAxis(axle, rot);
    assert RotatePts(st.pts, axle, rot) == [axle];
  }

  /** The centre pixel with ratio 1 and overlap 1 lies at distance exactly 1 = ratio from the origin,
      so `dist < ratio` drops it at every step and the gear is a solid disk. */
  lemma CentrePixelCutsNothing(steps: int, turn: real -> Rot)
    requires steps != 0
    ensures var g := GearRaster(CentrePixel, 1, 1.0, steps, turn);
      forall i, j :: 0 <= i < 3 && 0 <= j < 3 ==>
        g[i][j] == if OnOrOutsideRim(i, j, 3) || (i, j) in Resolved(AxleRing(3, turn), 3, 3) then Cleared else Material
  {
    CentrePixelProfile();
    var st := SetupFor(CentrePixel, 1, 1.0, steps, turn);
    assert DistAtLeast(1.0, 0.0, 1.0);
    forall s | 0 <= s < StepCount(steps) ensures Reach(st, s) == [] {
      AxleOnlyKeepsNothing(st, s);
    }
    NothingKeptSolidDisk(CentrePixel, 1, 1.0, steps, turn);
  }
}
