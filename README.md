# pygear: a verified model of the gear-envelope engine

pygear takes the silhouette of a "driving" gear as a grayscale raster. It builds the outline of a "driven"
gear that meshes with it by rotating the two gears against each other in small steps. At each step it
clears every output pixel that the driving gear's material sweeps through. The result is cut to a circle
and a small ring marks the axle. A second raster generator draws the crossbar, the rigid link that holds
the two axles at their distance. The animation script reuses the profile extractor. It first keeps only
the largest dark region of the generated gear, then thins both point clouds and scales the driven one by
the ratio.

The Dafny modules follow the program's pieces:

| module | file | models |
|---|---|---|
| `Wrappers` | wrappers.dfy | `Option`, `Result` and the Python exceptions the core can raise |
| `PyNum` | numeric.dfy | `int()` truncation, `floor`, `ceil` and Python's round-half-to-even on exact reals |
| `Geometry` | geometry.dfy | points, `rotatePts`, `dist` |
| `Raster` | raster.dfy | rasters, numpy's negative-index wrap, `outputGearImage` |
| `Profile` | profile.dfy | `getBlackPixels` |
| `Cleanup` | cleanup.dfy | `outputCleanup` |
| `Envelope` | envelope.dfy | the numeric body of `runComputationStepwise`: setup, the step loop, cleanup |
| `Crossbar` | crossbar.dfy | `drawCrossbar` |
| `CrossbarPage` | crossbar_page.dfy | the distance `showCrossbarPage` gives `drawCrossbar` |
| `Animate` | animate.dfy | `cleanGearImage`, `rotatePtsArray` and the point preparation of `animateGears` |

Modelling conventions:

- A raster the program changes in place (`outputGear`, `crossbarImage`) is an `array2<int>`. Its value is
  the ghost grid `Cells(a)`. Each method that changes it ensures `Cells(a) == F(old(Cells(a)))` for a pure
  grid function `F`, and the lemmas about `F` carry the properties.
- Pixel values are integers: 0 is material (black), 255 is cleared (white).
- Reals are exact. `cos` and `sin` are not computed. Every operation that needs them takes a parameter
  `turn: real -> Rot`: it maps an angle measured in turns (angle = 2·π·t) to a `(cos, sin)` pair.
  Lemmas that need `cos² + sin² = 1` require it of `turn`.
- `dist(x, y) < r` is `!DistAtLeast(x, y, r)`: a comparison of squares, which
  `Geometry.DistAtLeastIsDist` shows equal to comparing the square root.
- An exception that ends the computation is a `Result` failure. `ValueError` on a negative array shape
  becomes `NegativeDimensions`, `ZeroDivisionError` becomes `DivisionByZero` and `IndexError` becomes
  `IndexOutOfRange`.
- An index `k` into an axis of length `n` is accepted when `-n <= k < n`, and negative indices wrap, as
  numpy does (`Raster.Wrap`).

Where the code's behaviour is surprising, the model follows the code:

- An input with no black pixel gives an empty profile. The driven gear is then a solid disk, with only the
  rim and the axle ring cleared, not an entirely cleared square (`Envelope.EmptyProfileSolidDisk`).
- The accumulator truncates toward zero with `int()`, not `floor`. An index just below 0 is therefore
  written to row or column 0. Indices from -n to -1 wrap to the far side instead of being dropped
  (`Raster.TruncatedTargetRow`, `Raster.WrappedTargetRow`). Only indices outside [-n, n) are skipped.
- `drawCrossbar` with distance 0 does not divide by zero: the end-cap loop runs zero times. It fails
  earlier, with an `IndexError` on the bar, because the height rounds to 0. The same holds for every
  distance up to 3 (`Crossbar.ShortDistanceFails`). A negative distance fails on the negative shape
  (`Crossbar.NegativeDistanceFails`).
- The crossbar height is `round(distance/6)`, rounding half to even, not `distance/6`.
- `cleanGearImage` on an image with no pixel below the threshold returns the image unchanged, not a
  binarised copy (`Animate.CleanKeepsFeaturelessImage`).
- A single black pixel at the centre of the input, with ratio 1 and overlap 1, lies at distance exactly 1.
  That is not below the ratio, so it is filtered out and cuts nothing (`Envelope.CentrePixelCutsNothing`).

## Model

| member | source | states |
|---|---|---|
| PyNum.Trunc | create_gear.py:60-61 | `int()` of a real: the integer next to it toward zero, from below for non-negative and from above for negative values |
| PyNum.RoundHalfEven | create_gear.py:99 | `round()` gives an integer within 1/2 of its argument |
| PyNum.RoundHalfEvenTies | create_gear.py:99 | a tie (exactly 1/2 away) is rounded to the even neighbour |
| PyNum.RoundHalfEvenUnique | create_gear.py:82-83 | the integer within 1/2 that is even on a tie is the only possible result of `round()` |
| PyNum.Ceil | create_gear.py:100 | `np.ceil` gives the least integer not below its argument |
| PyNum.Floor | create_gear.py:108 | `np.floor` gives the greatest integer not above its argument |
| PyNum.MaxReal | create_gear.py:79 | `max` of two reals is one of them and not below either; `PyNum.MaxRealIsMax` ties it to `Max` |
| PyNum.Max | create_gear.py:41 | `max` of two integers is one of them and not below either |
| PyNum.MaxRealIsMax | create_gear.py:41 | on integer arguments the real and the integer maximum agree |
| Geometry.RotatePts | create_gear.py:52-55 | one output point per input point, in order, each the rotation of its input about the axis |
| Geometry.RotatePtsKeepsDistances | create_gear.py:52-55 | with a unit (cos, sin) pair, every rotated point keeps its distance from the axis |
| Geometry.RotateRoundTrip | create_gear.py:52-55 | rotating by an angle and then by its negative restores the point |
| Geometry.RotatePtsRoundTrip | create_gear.py:52-55 | rotating a point list by an angle and then by its negative restores the list |
| Geometry.RotateFixesAxis | create_gear.py:52-55 | the axis itself is left where it is |
| Geometry.DistAtLeastIsDist | create_gear.py:68-69 | comparing `sqrt(x²+y²)` with r is exactly the comparison of squares the model uses |
| Geometry.InsideDiskInsideSquare | create_gear.py:299 | a point closer than r to the origin has both coordinates strictly between -r and r |
| Raster.Wrap | create_gear.py:62-65 | an index is accepted exactly when it lies in [-n, n), and then names cell k or k+n in [0, n) |
| Raster.Resolved | create_gear.py:62-65 | the cells a list of writes reaches all lie inside the array |
| Raster.ResolvedIff | create_gear.py:62-65 | a cell is written exactly when some index pair in the list wraps to it |
| Raster.Fill | create_gear.py:63 | setting a set of cells to v changes exactly those cells and keeps the shape |
| Raster.FillTwice | create_gear.py:59-65 | two rounds of writes with the same value equal one round over the union |
| Raster.StampGrid | create_gear.py:57-66 | the raster `outputGearImage` leaves: its meaning is stated by `Raster.StampMonotone` (only 255 is written, exactly at the targets) and `Raster.TargetsIff` |
| Raster.OutputGearImage | create_gear.py:57-66 | the raster becomes the stamp of the point list onto its old contents |
| Raster.TargetsIff | create_gear.py:59-65 | a cell is set to 255 exactly when some point's truncated (row, col) pair wraps to it |
| Raster.StampMonotone | create_gear.py:57-66 | stamping only turns cells to 255, and a cell ends 255 exactly when it was already 255 or is a target |
| Raster.StampIdempotent | create_gear.py:57-66 | stamping the same points twice changes nothing the first stamp did not |
| Raster.StampAppend | create_gear.py:59-65 | stamping a concatenated list is stamping its two parts one after the other |
| Raster.StampCommutes | create_gear.py:57-66 | the order in which two point lists are stamped does not matter |
| Raster.StampAllIsFill | create_gear.py:300-303 | stamping a series of point clouds sets exactly the union of their targets to 255 |
| Raster.AllTargetsIff | create_gear.py:300-303 | a cell is a target of the series exactly when it is a target of one of its clouds |
| Raster.AllTargetsAppend | create_gear.py:300-303 | the targets of two series joined are the union of their targets |
| Raster.StampAllAppend | create_gear.py:300-303 | stamping two series joined is stamping one and then the other |
| Raster.StampEach | create_gear.py:300-303 | the raster becomes its old contents with every cloud of the series stamped in order |
| Raster.RawCellInRange | create_gear.py:60-61 | a point strictly inside the square of half-side `ratio` maps to a cell inside the raster, with no wrap |
| Raster.TruncatedTargetRow | create_gear.py:60-63 | y = -1.25, size 4, ratio 1 truncates to row 0 and is written there, not dropped |
| Raster.WrappedTargetRow | create_gear.py:60-63 | y = -1.75, size 4, ratio 1 gives row -1, which numpy writes to row 3 |
| Profile.ProfilePoints | create_gear.py:38-50 | the point list `getBlackPixels` returns: `Profile.ZeroCellsExact` fixes its cells (exactly the 0 pixels, row-major), `Profile.PointsOfAppend` each point's formula, `Profile.ProfileEmptyIff` and `Profile.ProfileNearOffset` its emptiness and bounds |
| Profile.GetBlackPixels | create_gear.py:38-50 | returns size = max(rows, cols) >= 1 and the profile points of the black pixels in scan order |
| Profile.ZeroCellsExact | create_gear.py:44-46 | the scanned cells are in row-major order and are exactly the pixels whose value is 0 |
| Profile.ProfileEmptyIff | create_gear.py:44-49 | the profile is empty exactly when no pixel is 0 |
| Profile.ProfileNearOffset | create_gear.py:41-48 | every profile point lies strictly within 1 of the offset on both axes |
| Profile.PointsOfAppend | create_gear.py:47-49 | one more black pixel appends exactly its centred, scaled point |
| Cleanup.RimTestOnSquares | create_gear.py:77 | the rim test is `dist(row-radius, col-radius) >= radius-0.5` with radius = size/2 |
| Cleanup.ClearRim | create_gear.py:75-78 | the raster after the rim pass: `Cleanup.ClearRimSpec` states it cell by cell |
| Cleanup.ClearRimSpec | create_gear.py:75-78 | after the rim pass a cell is 255 when it is on or outside the rim and unchanged otherwise |
| Cleanup.Cleaned | create_gear.py:71-85 | the raster `outputCleanup` returns: `Cleanup.CleanedCircular` states its circularity, `Cleanup.RingFitsFromSeven` when the marker fits |
| Cleanup.OutputCleanup | create_gear.py:71-85 | the raster becomes its rim-cleared old contents with the 50 marker cells set to 255 |
| Cleanup.CleanedCircular | create_gear.py:71-85 | after cleanup every cell on or outside the rim is 255, and others are 255 or unchanged |
| Cleanup.RingFitsFromSeven | create_gear.py:79-84 | on a square raster of side 7 or more, with unit trigonometry, no marker write raises IndexError |
| Cleanup.RingCellsFit | create_gear.py:80-84 | a ring of radius at most half-1.5 about the centre lands inside the raster |
| Cleanup.RingMissesTinyRaster | create_gear.py:79-84 | on a 1x1 raster a marker write raises IndexError |
| Envelope.InReach | create_gear.py:299 | the filter keeps at most the points it is given; `Envelope.InReachIff` states exactly which |
| Envelope.InReachIff | create_gear.py:299 | a point is kept exactly when it is a rotated profile point closer than `ratio` to the origin |
| Envelope.InReachAppend | create_gear.py:299 | filtering a joined list joins the two filtered lists |
| Envelope.StepClouds | create_gear.py:300-303 | the `ratio` point clouds that one step stamps, copy `extra` rotated by phi·step + 2π·extra/ratio: `Envelope.SweepCloudsIff` and `Envelope.SweptIff` state what they cover |
| Envelope.RunStep | create_gear.py:297-303 | one step stamps the `ratio` rotated copies of the kept points, in order |
| Envelope.SweepCloudsNext | create_gear.py:297-309 | after step s the raster carries the copies of steps 0 to s |
| Envelope.RunSteps | create_gear.py:281-309 | after all steps the raster carries the copies of every step 0 to steps-1 |
| Envelope.RunEnvelope | create_gear.py:281-313 | succeeds exactly when ratio >= 1, steps != 0 and the marker ring fits; `ValueError` on a negative ratio, `ZeroDivisionError` on ratio or steps 0, `IndexError` otherwise; the result is the gear raster |
| Envelope.SweepCloudsIff | create_gear.py:297-303 | the clouds stamped are exactly the copies (s, e) for s below the step count and e below `ratio` |
| Envelope.SweptIff | create_gear.py:297-303 | a cell is swept exactly when it is a target of some copy of some step |
| Envelope.GearRaster | create_gear.py:281-311 | the finished gear is square with side size·ratio; `Envelope.GearRasterCells` describes it cell by cell and `Envelope.RunEnvelope` produces it |
| Envelope.GearRasterCells | create_gear.py:287-311 | the gear is n x n with n = size·ratio; a cell is 255 exactly when it is on or outside the rim, on the axle ring or swept, and 0 otherwise |
| Envelope.GearRasterBinary | create_gear.py:290-311 | every cell of the gear is 0 or 255 |
| Envelope.GearRasterCircular | create_gear.py:310-311 | every cell on or outside the rim is 255 |
| Envelope.ReachInsideDisk | create_gear.py:298-299 | every kept point lies strictly inside the driven gear's disk |
| Envelope.CopyHitsOwnPixel | create_gear.py:300-303 | with unit trigonometry every rotated copy of a kept point maps to a cell inside the raster, with no wrap and no skip |
| Envelope.NothingKeptSolidDisk | create_gear.py:297-311 | if no step keeps a point, the gear is the solid disk: 0 inside the rim except the axle ring |
| Envelope.EmptyProfileSolidDisk | create_gear.py:286-311 | an input with no black pixel yields the solid disk |
| Envelope.CentrePixelProfile | create_gear.py:38-50 | a 3x3 image with one black centre pixel has exactly one profile point, the driving gear's axle |
| Envelope.AxleOnlyKeepsNothing | create_gear.py:298-299 | a profile that is only the axle, at distance at least `ratio`, keeps nothing at any step |
| Envelope.CentrePixelCutsNothing | create_gear.py:281-311 | ratio 1, overlap 1 and a single centre pixel give the solid disk |
| Crossbar.LayoutOf | create_gear.py:96-104 | the crossbar's d, height, width, hole radius and marker radius; `Crossbar.LayoutFacts` and `Crossbar.SixtyPixelLayout` state what they are |
| Crossbar.BarCells | create_gear.py:107-108 | the bar's cells; `Crossbar.BarBetweenHoles` states them exactly |
| Crossbar.SliceIndex | create_gear.py:108 | a slice bound a on an axis of length n is a itself in [0, n], n above it, a + n in [-n, 0), and 0 below -n |
| Crossbar.CapPairs | create_gear.py:110-114 | the end-cap loop makes `distance` writes |
| Crossbar.HolePairs | create_gear.py:117-122 | the hole loop makes 50 writes per hole, and the second hole's cell is the first's moved `distance` columns right |
| Crossbar.DrawBar | create_gear.py:108 | the raster becomes its old contents with the bar cells set to 0 |
| Crossbar.PaintPairs | create_gear.py:110-122 | succeeds exactly when no write raises IndexError, and then sets exactly the cells written to the colour |
| Crossbar.DrawCrossbar | create_gear.py:95-123 | succeeds exactly when height and width are non-negative, height > 0 and every cap and hole write fits; `ValueError` on a negative shape, `IndexError` otherwise; the result is a fresh crossbar raster |
| Crossbar.NegativeDistanceFails | create_gear.py:96-100 | the shape is negative exactly when the truncated distance is negative |
| Crossbar.ShortDistanceFails | create_gear.py:96-108 | a distance from 0 to 3 gives height 0, so the bar write raises IndexError |
| Crossbar.LayoutFacts | create_gear.py:96-116 | with height > 0: distance >= 4, twice the radius is height-1, radius >= 0, distance+height <= width, hole radius >= 2 |
| Crossbar.CapsFit | create_gear.py:110-114 | with unit trigonometry and height > 0, no end-cap write raises IndexError |
| Crossbar.HolesFit | create_gear.py:116-122 | with unit trigonometry, when the hole radius is at most the bar radius, both hole outlines lie inside the image |
| Crossbar.DrawsFrom28 | create_gear.py:95-123 | every distance of 28 or more, with unit trigonometry, draws without error and both holes lie inside the image |
| Crossbar.BarBetweenHoles | create_gear.py:107-108 | the bar is exactly the top and bottom rows between the two hole centres' x coordinates |
| Crossbar.CrossbarRaster | create_gear.py:105-123 | the raster `drawCrossbar` returns: `Crossbar.CrossbarCells` describes it cell by cell, `Crossbar.HolesMarked` and `Crossbar.CrossbarBinary` add what the holes and values are |
| Crossbar.CrossbarCells | create_gear.py:105-123 | the crossbar is height x width; a cell is 0 exactly when the bar, a cap or a hole writes it, and 255 otherwise |
| Crossbar.PairsUnionIff | create_gear.py:110-122 | a cell is painted exactly when one of the loop steps writes it |
| Crossbar.HolesMarked | create_gear.py:117-122 | when the holes lie inside the image, every cell of both hole outlines is black |
| Crossbar.CrossbarBinary | create_gear.py:105-123 | every cell of the crossbar is 0 or 255 |
| Crossbar.SixtyPixelLayout | create_gear.py:96-104 | distance 60 gives height 10, width 70, hole centres (4.5, 4.5) and (64.5, 4.5), hole radius 2 |
| CrossbarPage.CrossbarDistanceAsWritten | create_gear.py:340-341 | the distance the page computes from the row count; `CrossbarPage.AsWrittenShortForWideImage` shows it short of the axle separation |
| CrossbarPage.CrossbarDistance | create_gear.py:340-341 | the distance from max(rows, cols); `CrossbarPage.CrossbarDistanceIsAxleSeparation` proves it is the axle separation |
| CrossbarPage.AsWrittenShortForWideImage | create_gear.py:340-341 | a one-row, two-column image with ratio 2 and overlap 1 gets distance 1, though its axles are 2 pixels apart |
| CrossbarPage.AsWrittenAgreesWhenTall | create_gear.py:340-341 | for an image at least as tall as it is wide the distance as written is the corrected one |
| CrossbarPage.CrossbarDistanceIsAxleSeparation | create_gear.py:287-289 | the corrected distance is the separation of the two axles on the output raster |
| CrossbarPage.CrossbarFor | create_gear.py:337-341 | the page's crossbar is `drawCrossbar` at the corrected distance, with the same success condition |
| Animate.Sizes | animate_gears.py:55-56 | entry 0 is 0, and entry k is the number of pixels labelled k |
| Animate.FirstArgmax | animate_gears.py:57 | the index of a maximum, and the first one: every earlier entry is strictly smaller |
| Animate.LabelUsed | animate_gears.py:55 | a label has a positive count exactly when some pixel carries it |
| Animate.CleanGearImage | animate_gears.py:47-60 | the cleaned image: `Animate.CleanKeepsFeaturelessImage`, `Animate.CleanExact` and `Animate.LargestIsMaximal` state it |
| Animate.NoFeaturesIff | animate_gears.py:49-52 | no region is found exactly when no pixel is below the threshold |
| Animate.CleanKeepsFeaturelessImage | animate_gears.py:52-53 | with no pixel below the threshold the image is returned unchanged |
| Animate.LargestIsMaximal | animate_gears.py:55-57 | the kept label is a region label, no region is larger, and every lower label is strictly smaller |
| Animate.CleanExact | animate_gears.py:59-60 | the cleaned image has the input's shape, is 0 exactly on the largest region and 255 elsewhere, and a 0 pixel was below the threshold |
| Animate.RotatePtsArray | animate_gears.py:67-79 | the column arithmetic on the coordinate array; `Animate.RotatePtsArrayIsRotatePts` states its result |
| Animate.RotatePtsArrayIsRotatePts | animate_gears.py:67-79 | the array rotation fails exactly on an empty list and otherwise gives the same points as rotatePts |
| Animate.Stride | animate_gears.py:105-106 | the slice `[::d]`; `Animate.StrideLength` and `Animate.StrideAt` state its length and elements |
| Animate.Downsample | animate_gears.py:104-106 | the `if downsample > 1` thinning; `Animate.DownsampleSpec` states both branches |
| Animate.ScalePoints | animate_gears.py:108 | one scaled point per input point; `Animate.ScalePointsRoundTrip` states it can be undone |
| Animate.StrideLength | animate_gears.py:104-106 | a slice with step d keeps ceil(n/d) elements |
| Animate.StrideAt | animate_gears.py:104-106 | the k-th kept element is element k·d |
| Animate.DownsampleSpec | animate_gears.py:104-106 | a factor of 1 or less keeps the list; a larger factor keeps ceil(n/d) elements, the k-th being element k·d |
| Animate.ScalePointsRoundTrip | animate_gears.py:108 | scaling by ratio and then by 1/ratio restores every point |
| Animate.AnimationAxle | animate_gears.py:99 | the driving gear's axle for a real ratio; `Animate.AnimationAxleIsAxle` ties it to `Envelope.Axle` |
| Animate.AnimationAxleIsAxle | animate_gears.py:99 | on an integer ratio the animation's axle is the envelope run's (create_gear.py:287) |
| Animate.AnimationPoints | animate_gears.py:99-108 | the driving and driven point lists the animation starts from; `Animate.FeaturelessDrivenGearHasNoPoints` and `Animate.PrepareDrivenSpec` state the driven list |
| Animate.PrepareDriven | animate_gears.py:104-108 | the driven list, thinned and scaled; `Animate.PrepareDrivenSpec` states its length and points |
| Animate.PrepareDrivenSpec | animate_gears.py:102-108 | the k-th driven point is the (k·d)-th extracted point (the k-th when d <= 1) scaled by the ratio; ceil(n/d) of them are kept |
| Animate.FeaturelessDrivenGearHasNoPoints | animate_gears.py:99-108 | a generated gear with no dark region gives an empty driven point list |

## Left out

- The tkinter window, its pages, the progress bar and the `after` rescheduling. The model runs the steps of
  `runComputationStepwise` as one loop (`Envelope.RunSteps`) with the same order of writes.
- Image loading, saving and download (`loadGearImage`, `writeOutputGear`, `download_all`), the previews and
  the RGB conversion: file and display I/O.
- The median over multi-channel pixels at image load: it belongs to loading, and the model starts from a
  single-channel grid.
- `scipy.ndimage.label`: a foreign library. Its result is an input to `Animate.CleanGearImage` that must
  satisfy `Animate.ValidLabelling` (shape, background exactly at threshold or above, every label 1..n
  used). Connectivity is not modelled, so the lemmas speak of "the labelled regions", not of their
  connectedness.
- The matplotlib figure, the frame updates of `animateGears` and GIF/MP4 export. The indexing of an empty
  point array at line 117 is not modelled.
- Floating point: reals are exact, so no rounding error of `cos`, `sin`, division or `sqrt` is modelled.
  Trigonometry is the `turn` parameter, and no lemma assumes a specific value of `cos` or `sin` beyond
  `cos² + sin² = 1`, except `Cleanup.RingMissesTinyRaster`, which assumes angle 0 gives (1, 0).
- Pixel values are integers; the program stores 255.0 in float64 arrays, and `cleanGearImage` returns uint8.
  No value other than 0 and 255 is written, so the difference does not show.
- `Profile.GetBlackPixels`: requires a non-empty image, since `image[0]` raises on an empty one and an
  image file always has a pixel.
- `Cleanup.OutputCleanup`: requires a square raster because the source runs columns over the row count.
  The only caller passes the square `outputGear`.
- `Cleanup.OutputCleanup` and `Crossbar.DrawCrossbar`: when a marker, cap or hole write raises IndexError,
  the program leaves a partly written array behind an exception. The model decides the error before any
  write that would raise and returns no raster, since the program discards it.
- `Envelope.RunEnvelope` decides the ring-fit condition after the steps and before the cleanup; the
  program runs the rim pass first and then raises. The raster is lost either way.
- `Animate.RotatePtsArray`: on an empty list the program raises IndexError (`np.array([])[:, 0]`); the model
  returns that failure and does not model numpy's 2-D array type, only the list of points it holds.
- `Animate.Sizes`: `np.bincount` has one entry per label up to the largest one present; since every label
  1..n is used, that length is n+1, and the model assumes it through `Animate.ValidLabelling`.
- `Animate.AnimationPoints` uses the offset with a real `ratio`, as `animateGears` accepts any number; the
  envelope model uses an integer ratio, as `range(ratio)` demands.

## Findings

| source | as written | input that shows it | evidently intended | confidence | as-written member | corrected member |
|---|---|---|---|---|---|---|
| create_gear.py:340-341 | the crossbar distance uses `len(inputGearArray)`, the row count, as the input size | an image 1 row by 2 columns, ratio 2, overlap 1: distance 1, but the axles are 2 pixels apart on the output raster | the input size is max(rows, cols), the size the output raster is built from (lines 41 and 288-289) | not executed | CrossbarPage.CrossbarDistanceAsWritten, with CrossbarPage.AsWrittenShortForWideImage | CrossbarPage.CrossbarDistance, with CrossbarPage.CrossbarDistanceIsAxleSeparation and CrossbarPage.CrossbarFor |
