/** The crossbar length chosen by create_gear.py `PygearGUI.showCrossbarPage`: the distance between the two
    gears' axles, in pixels of the output gear raster. */
module CrossbarPage {
  import opened Wrappers
  import opened PyNum
  import opened Geometry
  import opened Raster
  import opened Envelope
  import opened Crossbar

  /** The distance as the page computes it, `len(inputGearArray) * (ratio + 1 - overlap) / 2`: the image's
      row count stands for the input size. */
  function CrossbarDistanceAsWritten(image: Grid, ratio: int, overlap: real): real {
    |image| as real * ((ratio + 1) as real - overlap) / 2.0
  }

  /** The distance measured with the input size the gear raster is built from, max(rows, cols). */
  function CrossbarDistance(image: Grid, ratio: int, overlap: real): real {
    Max(|image|, Width(image)) as real * ((ratio + 1) as real - overlap) / 2.0
  }

  /** The output raster maps the driven gear's axle (the origin) to its centre, size/2, and the driving
      gear's axle (ratio + 1 - overlap, 0) to a point CrossbarDistance further along: the corrected
      distance is the axle separation on the raster. */
  lemma CrossbarDistanceIsAxleSeparation(image: Grid, ratio: int, overlap: real)
    requires ratio >= 1
    ensures Scaled(0.0, OutSize(image, ratio), ratio) == OutSize(image, ratio) as real / 2.0
    ensures Scaled(Axle(ratio, overlap).x, OutSize(image, ratio), ratio) - Scaled(0.0, OutSize(image, ratio), ratio)
      == CrossbarDistance(image, ratio, overlap)
  {
    var m, R := Max(|image|, Width(image)) as real, ratio as real;
    var n := OutSize(image, ratio) as real;
    var a := (ratio + 1) as real - overlap;
    assert n == m * R;
    assert Scaled(0.0, OutSize(image, ratio), ratio) == R * n / (2.0 * R);
    assert Scaled(a, OutSize(image, ratio), ratio) == (a + R) * n / (2.0 * R);
    Separation(a, m, R, n);
  }

  /** The arithmetic of the separation: with n = m * R, the images of 0 and a are n/2 and a*m/2 apart. */
  lemma Separation(a: real, m: real, R: real, n: real)
    requires R > 0.0 && n == m * R
    ensures R * n / (2.0 * R) == n / 2.0
    ensures (a + R) * n / (2.0 * R) - R * n / (2.0 * R) == a * m / 2.0
  {
    QuotientDifference((a + R) * n, R * n, 2.0 * R);
    assert (a + R) * n - R * n == a * n;
    assert a * n == (a * m) * R;
    HalfOfDouble(a * m, R);
    HalfOfDouble(n, R);
    assert R * n == n * R;
  }

  /** Two quotients over one divisor subtract as their numerators do. */
  lemma QuotientDifference(x: real, y: real, d: real)
    requires d != 0.0
    ensures x / d - y / d == (x - y) / d
  {
  }

  /** `(x * R) / (2 * R)` is half of x. */
  lemma HalfOfDouble(x: real, R: real)
    requires R != 0.0
    ensures (x * R) / (2.0 * R) == x / 2.0
  {
    assert (x * R) / (2.0 * R) * (2.0 * R) == x * R;
    assert (x / 2.0) * (2.0 * R) == x * R;
  }

  /** For images at least as tall as they are wide, the page's distance is the axle separation. */
  lemma AsWrittenAgreesWhenTall(image: Grid, ratio: int, overlap: real)
    requires |image| >= Width(image)
    ensures CrossbarDistanceAsWritten(image, ratio, overlap) == CrossbarDistance(image, ratio, overlap)
  {
  }

  /** A one-row, two-column profile with ratio 2 and overlap 1: the axles are 2 pixels apart, but the page
      draws a crossbar for a distance of 1. */
  lemma AsWrittenShortForWideImage()
    ensures var image := [[0, 255]];
      CrossbarDistanceAsWritten(image, 2, 1.0) == 1.0 &&
      CrossbarDistance(image, 2, 1.0) == 2.0 &&
      Scaled(Axle(2, 1.0).x, OutSize(image, 2), 2) - Scaled(0.0, OutSize(image, 2), 2) == 2.0
  {
    var image := [[0, 255]];
    assert Width(image) == 2;
    CrossbarDistanceIsAxleSeparation(image, 2, 1.0);
  }

  /** The page's crossbar, drawn for the corrected distance. */
  method CrossbarFor(image: Grid, ratio: int, overlap: real, turn: real -> Rot) returns (r: Result<array2<int>>)
    ensures var L := LayoutOf(CrossbarDistance(image, ratio, overlap));
      r.Success? <==> L.height > 0 && L.width >= 0 && Fits(L, turn)
    ensures var L := LayoutOf(CrossbarDistance(image, ratio, overlap));
      r.Success? ==>
        L.d >= 0 && L.height >= 0 && L.width >= 0 && fresh(r.value) && Cells(r.value) == CrossbarRaster(L, turn)
  {
    r := DrawCrossbar(CrossbarDistance(image, ratio, overlap), turn);
  }
}
