/** The pixels of the gauge (apps/menubar/status.go), distances compared by their squares. */
module TrayIcon {
  import opened Gauge

  const ICON_SIZE := 36
  const ICON_SAMPLES := 4
  const RING_FROM := 14.2
  const RING_TO := 16.8
  const TANK_RADIUS := 11.6
  const DOT_RADIUS := 3.0

  function Square(x: real): real { x * x }

  /** Distance from the centre, squared. */
  function Distance2(px: real, py: real): real { Square(px - 18.0) + Square(py - 18.0) }

  predicate OnOutline(px: real, py: real) {
    Square(RING_FROM) <= Distance2(px, py) <= Square(RING_TO)
  }

  /** The opacity at a point. */
  function GaugeAlpha(px: real, py: real, level: int): real {
    if OnOutline(px, py) then 1.0
    else if level == GAUGE_UNKNOWN then (if Distance2(px, py) <= Square(DOT_RADIUS) then 1.0 else 0.0)
    else if Distance2(px, py) <= Square(TANK_RADIUS)
            && py - 18.0 >= TANK_RADIUS - 2.0 * TANK_RADIUS * (level as real) / 8.0 then 1.0
    else 0.0
  }

  function SampleAt(pixel: nat, sub: nat): real { pixel as real + (sub as real + 0.5) / 4.0 }

  /** The sum of the first `k` of a pixel's sixteen samples, row by row. */
  function SampleSum(x: nat, y: nat, level: int, k: nat): real {
    if k == 0 then 0.0
    else SampleSum(x, y, level, k - 1) + GaugeAlpha(SampleAt(x, (k - 1) % 4), SampleAt(y, (k - 1) / 4), level)
  }

  function Round(x: real): int { (x + 0.5).Floor }

  /** The alpha byte of a pixel. */
  function PixelAlpha(x: nat, y: nat, level: int): int {
    var a := SampleSum(x, y, level, 16) / 16.0;
    if a > 0.0 then Round(a * 255.0) else 0
  }

  method DrawTrayIcon(level: int) returns (img: array2<int>)
    ensures fresh(img) && img.Length0 == ICON_SIZE && img.Length1 == ICON_SIZE
    ensures forall x, y | 0 <= x < ICON_SIZE && 0 <= y < ICON_SIZE :: img[x, y] == PixelAlpha(x, y, level)
  {
    img := new int[ICON_SIZE, ICON_SIZE]((_, _) => 0);
    for y := 0 to ICON_SIZE
      invariant forall i, j | 0 <= i < ICON_SIZE && 0 <= j < y :: img[i, j] == PixelAlpha(i, j, level)
      invariant forall i, j | 0 <= i < ICON_SIZE && y <= j < ICON_SIZE :: img[i, j] == 0
    {
      for x := 0 to ICON_SIZE
        invariant forall i, j | 0 <= i < ICON_SIZE && 0 <= j < y :: img[i, j] == PixelAlpha(i, j, level)
        invariant forall i | 0 <= i < x :: img[i, y] == PixelAlpha(i, y, level)
        invariant forall i, j | 0 <= i < ICON_SIZE && y <= j < ICON_SIZE && (j > y || i >= x) :: img[i, j] == 0
      {
        var sum := MeasurePixel(x, y, level);
        var a := sum / 16.0;
        if a > 0.0 {
          img[x, y] := Round(a * 255.0);
        }
      }
    }
  }

  /** The sampling loop of one pixel. */
  method MeasurePixel(x: nat, y: nat, level: int) returns (sum: real)
    ensures sum == SampleSum(x, y, level, 16)
  {
    sum := 0.0;
    for sy := 0 to ICON_SAMPLES
      invariant sum == SampleSum(x, y, level, 4 * sy)
    {
      for sx := 0 to ICON_SAMPLES
        invariant sum == SampleSum(x, y, level, 4 * sy + sx)
      {
        assert (4 * sy + sx) % 4 == sx && (4 * sy + sx) / 4 == sy;
        sum := sum + GaugeAlpha(SampleAt(x, sx), SampleAt(y, sy), level);
      }
    }
  }

  // ----- fuller is darker --------------------------------------------------

  lemma {:induction false} SumRises(x: nat, y: nat, a: int, b: int, k: nat)
    requires 0 <= a <= b <= GAUGE_STEPS
    ensures 0.0 <= SampleSum(x, y, a, k) <= SampleSum(x, y, b, k) <= k as real
  {
    if k > 0 {
      SumRises(x, y, a, b, k - 1);
    }
  }

  /** No pixel gets lighter as the tank fills, and none leaves the byte range. */
  lemma FullerIsDarker(x: nat, y: nat, a: int, b: int)
    requires 0 <= a <= b <= GAUGE_STEPS
    ensures 0 <= PixelAlpha(x, y, a) <= PixelAlpha(x, y, b) <= 255
  {
    SumRises(x, y, a, b, 16);
    var s, t := SampleSum(x, y, a, 16) / 16.0, SampleSum(x, y, b, 16) / 16.0;
    assert 0.0 <= s <= t <= 1.0;
    RoundRises(s * 255.0, t * 255.0);
    RoundRises(0.0, s * 255.0);
    RoundRises(t * 255.0, 255.0);
    assert Round(0.0) == 0 && Round(255.0) == 255;
  }

  lemma RoundRises(x: real, y: real)
    requires x <= y
    ensures Round(x) <= Round(y)
  {
  }

  /** Points no fill reaches: the outline, and everything beyond the tank. */
  predicate OffTank(px: real, py: real) { OnOutline(px, py) || Distance2(px, py) > Square(TANK_RADIUS) }

  lemma {:induction false} OffTankSum(x: nat, y: nat, a: int, b: int, k: nat)
    requires k <= 16
    requires forall sx, sy | 0 <= sx < 4 && 0 <= sy < 4 :: OffTank(SampleAt(x, sx), SampleAt(y, sy))
    ensures SampleSum(x, y, a, k) == SampleSum(x, y, b, k)
  {
    hide OnOutline, Distance2, SampleAt;
    if k > 0 {
      OffTankSum(x, y, a, b, k - 1);
      var sx, sy := (k - 1) % 4, (k - 1) / 4;
      assert 0 <= sx < 4 && 0 <= sy < 4;
      assert OffTank(SampleAt(x, sx), SampleAt(y, sy));
    }
  }

  /**
    A pixel whose samples are all off the tank is drawn alike at every level, the unknown one
    included, and is solid where they are all on the outline.
  */
  lemma OutlineIsConstant(x: nat, y: nat, a: int, b: int)
    requires forall sx, sy | 0 <= sx < 4 && 0 <= sy < 4 :: OffTank(SampleAt(x, sx), SampleAt(y, sy))
    ensures PixelAlpha(x, y, a) == PixelAlpha(x, y, b)
    ensures (forall sx, sy | 0 <= sx < 4 && 0 <= sy < 4 :: OnOutline(SampleAt(x, sx), SampleAt(y, sy))) ==> PixelAlpha(x, y, a) == 255
  {
    OffTankSum(x, y, a, b, 16);
    if forall sx, sy | 0 <= sx < 4 && 0 <= sy < 4 :: OnOutline(SampleAt(x, sx), SampleAt(y, sy)) {
      UniformPixel(x, y, a, true);
    }
  }

  lemma RingSample(x: nat, sx: nat, sy: nat)
    requires sx < 4 && sy < 4
    ensures var px, py := SampleAt(x, sx), SampleAt(18, sy);
            (x == 33 ==> OnOutline(px, py)) && (x == 30 || x == 35 ==> !OnOutline(px, py) && Distance2(px, py) > Square(TANK_RADIUS))
  {
    var dx, dy := SampleAt(x, sx) - 18.0, SampleAt(18, sy) - 18.0;
    assert 0.125 <= dy <= 0.875;
    SquareBound(dy, 0.875);
    if x == 33 {
      assert 15.125 <= dx <= 15.875;
      SquareAbove(dx, 15.125);
      SquareBound(dx, 15.875);
    } else if x == 30 {
      assert 12.125 <= dx <= 12.875;
      SquareAbove(dx, 12.125);
      SquareBound(dx, 12.875);
    } else if x == 35 {
      assert 17.125 <= dx <= 17.875;
      SquareAbove(dx, 17.125);
    }
  }

  /** The outline is there at every level: solid on the ring, clear on either side of it. */
  lemma OutlineShows(level: int)
    ensures PixelAlpha(33, 18, level) == 255 && PixelAlpha(30, 18, level) == 0 && PixelAlpha(35, 18, level) == 0
  {
    forall x, sx, sy | 0 <= sx < 4 && 0 <= sy < 4 && x in {30, 33, 35}
      ensures GaugeAlpha(SampleAt(x, sx), SampleAt(18, sy), level) == if x == 33 then 1.0 else 0.0
    {
      RingSample(x, sx, sy);
    }
    UniformPixel(33, 18, level, true);
    UniformPixel(30, 18, level, false);
    UniformPixel(35, 18, level, false);
  }

  /** One row of a pixel's samples. */
  function RowSum(x: nat, y: nat, level: int, sy: nat): real {
    GaugeAlpha(SampleAt(x, 0), SampleAt(y, sy), level) + GaugeAlpha(SampleAt(x, 1), SampleAt(y, sy), level)
    + GaugeAlpha(SampleAt(x, 2), SampleAt(y, sy), level) + GaugeAlpha(SampleAt(x, 3), SampleAt(y, sy), level)
  }

  lemma NextSample(x: nat, y: nat, level: int, sx: nat, sy: nat)
    requires sx < 4
    ensures SampleSum(x, y, level, 4 * sy + sx + 1)
            == SampleSum(x, y, level, 4 * sy + sx) + GaugeAlpha(SampleAt(x, sx), SampleAt(y, sy), level)
  {
    hide GaugeAlpha, SampleAt;
    RowAndColumn(sx, sy);
  }

  lemma RowAndColumn(sx: nat, sy: nat)
    requires sx < 4
    ensures (4 * sy + sx) % 4 == sx && (4 * sy + sx) / 4 == sy
  {
  }

  lemma RowIsSummed(x: nat, y: nat, level: int, sy: nat)
    ensures SampleSum(x, y, level, 4 * sy + 4) == SampleSum(x, y, level, 4 * sy) + RowSum(x, y, level, sy)
  {
    hide GaugeAlpha, SampleAt, SampleSum;
    NextSample(x, y, level, 0, sy);
    NextSample(x, y, level, 1, sy);
    NextSample(x, y, level, 2, sy);
    NextSample(x, y, level, 3, sy);
    var k := 4 * sy;
    assert k + 0 + 1 == k + 1 && k + 1 + 1 == k + 2 && k + 2 + 1 == k + 3 && k + 3 + 1 == k + 4 && k + 0 == k;
  }

  /** A pixel is the mean of its sixteen samples, four to a row, at the nearest of the 256 alphas. */
  lemma PixelIsTheMean(x: nat, y: nat, level: int)
    ensures var mean := (RowSum(x, y, level, 0) + RowSum(x, y, level, 1) + RowSum(x, y, level, 2) + RowSum(x, y, level, 3)) / 16.0;
            -0.5 < PixelAlpha(x, y, level) as real - 255.0 * mean <= 0.5
  {
    RowIsSummed(x, y, level, 0);
    RowIsSummed(x, y, level, 1);
    RowIsSummed(x, y, level, 2);
    RowIsSummed(x, y, level, 3);
    hide RowSum;
    assert SampleSum(x, y, level, 0) == 0.0;
    var sum := SampleSum(x, y, level, 16);
    assert sum == RowSum(x, y, level, 0) + RowSum(x, y, level, 1) + RowSum(x, y, level, 2) + RowSum(x, y, level, 3);
    SumIsNonNegative(x, y, level, 16);
    RoundIsNearest(sum / 16.0 * 255.0);
  }

  lemma RoundIsNearest(x: real)
    ensures -0.5 < Round(x) as real - x <= 0.5
  {
  }

  lemma {:induction false} SumIsNonNegative(x: nat, y: nat, level: int, k: nat)
    ensures SampleSum(x, y, level, k) >= 0.0
  {
    hide SampleAt;
    if k > 0 {
      SumIsNonNegative(x, y, level, k - 1);
    }
  }

  // ----- every level looks different ---------------------------------------

  /** A pixel row that fills in one go between two levels. */
  function StepRow(level: nat): nat
    requires level < GAUGE_STEPS
  {
    [27, 24, 21, 18, 15, 13, 10, 7][level]
  }

  lemma ColumnSample(y: nat, sx: nat, sy: nat)
    requires 7 <= y <= 27 && sx < 4 && sy < 4
    ensures var px, py := SampleAt(18, sx), SampleAt(y, sy);
            Distance2(px, py) <= Square(TANK_RADIUS) && !OnOutline(px, py)
            && y as real - 18.0 + 0.125 <= py - 18.0 <= y as real - 18.0 + 0.875
            && (y >= 21 ==> Distance2(px, py) > Square(DOT_RADIUS))
            && (y == 18 ==> Distance2(px, py) <= Square(DOT_RADIUS))
  {
    var dx, dy := SampleAt(18, sx) - 18.0, SampleAt(y, sy) - 18.0;
    assert 0.125 <= dx <= 0.875;
    assert y as real - 18.0 + 0.125 <= dy <= y as real - 18.0 + 0.875;
    SquareBound(dx, 0.875);
    SquareBound(dy, 10.875);
    if y >= 21 {
      SquareAbove(dy, 3.125);
    }
    if y == 18 {
      SquareBound(dy, 0.875);
    }
  }

  lemma SquareBound(x: real, b: real)
    requires -b <= x <= b
    ensures 0.0 <= Square(x) <= Square(b)
  {
    assert (b - x) * (b + x) >= 0.0;
    assert (b - x) * (b + x) == b * b - x * x;
  }

  lemma SquareAbove(x: real, b: real)
    requires 0.0 <= b <= x
    ensures Square(x) >= Square(b)
  {
    assert (x - b) * (x + b) >= 0.0;
    assert (x - b) * (x + b) == x * x - b * b;
  }

  lemma StepRowSample(step: nat, level: int, sx: nat, sy: nat)
    requires step < GAUGE_STEPS && 0 <= level <= GAUGE_STEPS && sx < 4 && sy < 4
    ensures GaugeAlpha(SampleAt(18, sx), SampleAt(StepRow(step), sy), level) == if level > step then 1.0 else 0.0
  {
    ColumnSample(StepRow(step), sx, sy);
  }

  lemma {:induction false} UniformSum(x: nat, y: nat, level: int, k: nat, solid: bool)
    requires k <= 16
    requires forall sx, sy | 0 <= sx < 4 && 0 <= sy < 4 :: GaugeAlpha(SampleAt(x, sx), SampleAt(y, sy), level) == if solid then 1.0 else 0.0
    ensures SampleSum(x, y, level, k) == if solid then k as real else 0.0
  {
    if k > 0 {
      UniformSum(x, y, level, k - 1, solid);
      var sx, sy := (k - 1) % 4, (k - 1) / 4;
      assert 0 <= sx < 4 && 0 <= sy < 4;
      assert GaugeAlpha(SampleAt(x, sx), SampleAt(y, sy), level) == if solid then 1.0 else 0.0;
    }
  }

  lemma UniformPixel(x: nat, y: nat, level: int, solid: bool)
    requires forall sx, sy | 0 <= sx < 4 && 0 <= sy < 4 :: GaugeAlpha(SampleAt(x, sx), SampleAt(y, sy), level) == if solid then 1.0 else 0.0
    ensures PixelAlpha(x, y, level) == if solid then 255 else 0
  {
    UniformSum(x, y, level, 16, solid);
    assert Round(255.0) == 255;
  }

  /** Each level blackens a pixel the level below leaves clear. */
  lemma EachStepShows(step: nat, level: int)
    requires step < GAUGE_STEPS && 0 <= level <= GAUGE_STEPS
    ensures PixelAlpha(18, StepRow(step), level) == if level > step then 255 else 0
  {
    forall sx, sy | 0 <= sx < 4 && 0 <= sy < 4
      ensures GaugeAlpha(SampleAt(18, sx), SampleAt(StepRow(step), sy), level) == if level > step then 1.0 else 0.0
    {
      StepRowSample(step, level, sx, sy);
    }
    UniformPixel(18, StepRow(step), level, level > step);
  }

  lemma UnknownPixels()
    ensures PixelAlpha(18, 18, GAUGE_UNKNOWN) == 255 && PixelAlpha(18, 27, GAUGE_UNKNOWN) == 0
  {
    forall sx, sy | 0 <= sx < 4 && 0 <= sy < 4
      ensures GaugeAlpha(SampleAt(18, sx), SampleAt(18, sy), GAUGE_UNKNOWN) == 1.0
      ensures GaugeAlpha(SampleAt(18, sx), SampleAt(27, sy), GAUGE_UNKNOWN) == 0.0
    {
      ColumnSample(18, sx, sy);
      ColumnSample(27, sx, sy);
    }
    UniformPixel(18, 18, GAUGE_UNKNOWN, true);
    UniformPixel(18, 27, GAUGE_UNKNOWN, false);
  }

  predicate SamePixel(x: nat, y: nat, a: int, b: int) { PixelAlpha(x, y, a) == PixelAlpha(x, y, b) }

  predicate SameIcon(a: int, b: int) {
    forall x, y | 0 <= x < ICON_SIZE && 0 <= y < ICON_SIZE :: SamePixel(x, y, a, b)
  }

  lemma FullerDiffers(a: int, b: int)
    requires 0 <= a < b <= GAUGE_STEPS
    ensures !SamePixel(18, StepRow(a), a, b) && StepRow(a) < ICON_SIZE
  {
    EachStepShows(a, a);
    EachStepShows(a, b);
  }

  lemma UnknownDiffers(level: int)
    requires 0 <= level <= GAUGE_STEPS
    ensures !SamePixel(18, 18, GAUGE_UNKNOWN, level) || !SamePixel(18, 27, GAUGE_UNKNOWN, level)
  {
    UnknownPixels();
    EachStepShows(0, level);
    EachStepShows(3, level);
  }

  /** The icon tells the ten states apart: two levels with the same pixels are the same level. */
  lemma IconTellsLevelsApart(a: int, b: int)
    requires GAUGE_UNKNOWN <= a <= b <= GAUGE_STEPS && a != b
    ensures !SameIcon(a, b)
  {
    if a == GAUGE_UNKNOWN {
      UnknownDiffers(b);
    } else {
      FullerDiffers(a, b);
    }
  }
}
