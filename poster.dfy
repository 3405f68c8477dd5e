/**
 * The poster script's top level: a 10 x 10 grid of circles, one per year,
 * whose diameter comes from the year's precipitation and whose fill colour
 * comes from the year's average temperature. The drawing calls are replaced
 * by the values they would receive: one Mark per circle, holding the four
 * arguments of the ellipse call and the RGB fill.
 */
module Poster {
  import opened LinearMap
  import opened HslColor

  /** Width and height (in pixels) inside the poster's margins. */
  const InWidth: real := 1692.0
  const InHeight: real := 2556.0
  const Margin: real := 18.0

  /** Side of one grid cell; the script writes it out as inWidth / 10 each time. */
  const CellSize: real := InWidth / 10.0

  /** Saturation and lightness of every fill colour, in percent. */
  const Saturation: real := 100.0
  const Lightness: real := 40.0

  /** The arguments of one ellipse call (top, left, width, height) and the fill colour. */
  datatype Mark = Mark(top: real, left: real, width: real, height: real, fill: Rgb)

  /** Precipitation in inches, range 11.85..25.52, onto a diameter in pixels, range 78.5..169.2. */
  function Diameter(precipAmount: real): real
  {
    Rescale(precipAmount, 11.85, 25.52, 78.5, 169.2)
  }

  /** Average temperature in degrees, range 42.5..48.3, onto a hue in degrees, range 242..360. */
  function Hue(yrTemp: real): real
  {
    Rescale(yrTemp, 42.5, 48.3, 242.0, 360.0)
  }

  /** y of the cell in row i: a sixth of the height down, then one cell width per row. */
  function CellTop(i: int): real
  {
    InHeight / 6.0 + (i as real) * InWidth / 10.0
  }

  /** x of the cell in column j. */
  function CellLeft(j: int): real
  {
    Margin + (j as real) * InWidth / 10.0
  }

  /** The offset that centres a circle of the given diameter in its cell, on both axes. */
  function CenteringOffset(diameter: real): real
  {
    (InWidth / 10.0 - diameter) / 2.0
  }

  /** The mark drawn for grid cell (i, j) from that year's precipitation and temperature. */
  function CellMark(i: int, j: int, precipAmount: real, yrTemp: real): Mark
  {
    var diameter := Diameter(precipAmount);
    var y := CellTop(i);
    var x := CellLeft(j);
    var add := CenteringOffset(diameter);
    var rgb := Hsl2Rgb(Hue(yrTemp), Saturation, Lightness);
    Mark((y + add) * -1.0, x + add, diameter, diameter, rgb)
  }

  /** Row and column of the k-th mark in row-major order. */
  function Row(k: int): int { k / 10 }
  function Col(k: int): int { k % 10 }

  /** Row-major numbering: i * 10 + j gives row i and column j back. */
  lemma RowMajor(i: int, j: int)
    requires 0 <= i && 0 <= j < 10
    ensures Row(i * 10 + j) == i && Col(i * 10 + j) == j
  {
  }

  /**
   * The nested loop of the script. It reads the two data sequences with the
   * running index indexCounter and emits one mark per cell, row by row.
   * Mark k is made from precipData[k] and tempData[k] and sits in row k / 10,
   * column k % 10; indexCounter ends at 100.
   */
  method DrawGrid(precipData: seq<real>, tempData: seq<real>) returns (marks: seq<Mark>, indexCounter: int)
    requires |precipData| >= 100 && |tempData| >= 100
    ensures indexCounter == 100 && |marks| == 100
    ensures forall k :: 0 <= k < 100 ==> marks[k] == CellMark(Row(k), Col(k), precipData[k], tempData[k])
  {
    marks := [];
    indexCounter := 0;
    for i := 0 to 10
      invariant indexCounter == i * 10 && |marks| == indexCounter
      invariant forall k :: 0 <= k < indexCounter ==> marks[k] == CellMark(Row(k), Col(k), precipData[k], tempData[k])
    {
      for j := 0 to 10
        invariant indexCounter == i * 10 + j && |marks| == indexCounter
        invariant forall k :: 0 <= k < indexCounter ==> marks[k] == CellMark(Row(k), Col(k), precipData[k], tempData[k])
      {
        var precipAmount := precipData[indexCounter];
        var diameter := Diameter(precipAmount);
        var y := CellTop(i);
        var x := CellLeft(j);
        var add := CenteringOffset(diameter);
        var yrTemp := tempData[indexCounter];
        var hueMap := Hue(yrTemp);
        var rgb := Hsl2Rgb(hueMap, Saturation, Lightness);
        RowMajor(i, j);
        marks := marks + [Mark((y + add) * -1.0, x + add, diameter, diameter, rgb)];
        indexCounter := indexCounter + 1;
      }
    }
  }

  // ---------------------------------------------------------------------
  // The two maps

  /** The diameter map's ends: 78.5 at 11.85 inches and 169.2 at 25.52 inches. */
  lemma DiameterEndpoints()
    ensures Diameter(11.85) == 78.5 && Diameter(25.52) == 169.2
  {
    RescaleEndpoints(11.85, 25.52, 78.5, 169.2);
  }

  /** More precipitation always draws a strictly larger circle. */
  lemma DiameterStrictlyIncreasing(p: real, q: real)
    requires p < q
    ensures Diameter(p) < Diameter(q)
  {
    RescaleStrictlyIncreasing(p, q, 11.85, 25.52, 78.5, 169.2);
  }

  /**
   * The diameter is not clamped: inside 11.85..25.52 it lies in 78.5..169.2,
   * outside it runs past those ends along the same line.
   */
  lemma DiameterUnclamped(p: real)
    ensures 11.85 <= p <= 25.52 ==> 78.5 <= Diameter(p) <= 169.2
    ensures p < 11.85 ==> Diameter(p) < 78.5
    ensures p > 25.52 ==> Diameter(p) > 169.2
  {
    RescaleUnclamped(p, 11.85, 25.52, 78.5, 169.2);
  }

  /** The hue map's ends: 242 at 42.5 degrees and 360 at 48.3 degrees. */
  lemma HueEndpoints()
    ensures Hue(42.5) == 242.0 && Hue(48.3) == 360.0
  {
    RescaleEndpoints(42.5, 48.3, 242.0, 360.0);
  }

  /** A warmer year always gets a strictly larger hue. */
  lemma HueStrictlyIncreasing(t: real, u: real)
    requires t < u
    ensures Hue(t) < Hue(u)
  {
    RescaleStrictlyIncreasing(t, u, 42.5, 48.3, 242.0, 360.0);
  }

  /** The hue is not clamped either. */
  lemma HueUnclamped(t: real)
    ensures 42.5 <= t <= 48.3 ==> 242.0 <= Hue(t) <= 360.0
    ensures t < 42.5 ==> Hue(t) < 242.0
    ensures t > 48.3 ==> Hue(t) > 360.0
  {
    RescaleUnclamped(t, 42.5, 48.3, 242.0, 360.0);
  }

  // ---------------------------------------------------------------------
  // Geometry

  /** Adjacent columns are exactly one cell (169.2 pixels) apart, and so are adjacent rows. */
  lemma GridSpacing(i: int, j: int)
    ensures CellLeft(j + 1) - CellLeft(j) == CellSize == 169.2
    ensures CellTop(i + 1) - CellTop(i) == CellSize
  {
  }

  /** Whatever the diameter, the circle's centre is the centre of its cell. */
  lemma MarkCentred(i: int, j: int, precipAmount: real, yrTemp: real)
    ensures var m := CellMark(i, j, precipAmount, yrTemp);
      m.left + m.width / 2.0 == CellLeft(j) + CellSize / 2.0 &&
      -m.top + m.height / 2.0 == CellTop(i) + CellSize / 2.0
  {
  }

  /**
   * For precipitation in the data range the diameter is at most one cell,
   * so the centring offset is non-negative and the circle's bounding box
   * lies inside its cell on both axes.
   */
  lemma MarkInsideCell(i: int, j: int, precipAmount: real, yrTemp: real)
    requires 11.85 <= precipAmount <= 25.52
    ensures CenteringOffset(Diameter(precipAmount)) >= 0.0
    ensures var m := CellMark(i, j, precipAmount, yrTemp);
      CellLeft(j) <= m.left && m.left + m.width <= CellLeft(j) + CellSize &&
      CellTop(i) <= -m.top && -m.top + m.height <= CellTop(i) + CellSize
  {
    DiameterUnclamped(precipAmount);
  }

  /** Above 25.52 inches the circle is wider than its cell and spills into its neighbours. */
  lemma MarkOverflowsAboveRange(i: int, j: int, precipAmount: real, yrTemp: real)
    requires precipAmount > 25.52
    ensures CenteringOffset(Diameter(precipAmount)) < 0.0
    ensures CellMark(i, j, precipAmount, yrTemp).left < CellLeft(j)
  {
    DiameterUnclamped(precipAmount);
  }

  /** Two bounding boxes that do not overlap (they may touch). */
  predicate Apart(a: Mark, b: Mark)
  {
    a.left + a.width <= b.left || b.left + b.width <= a.left ||
    -a.top + a.height <= -b.top || -b.top + b.height <= -a.top
  }

  /** Circles of two different cells never overlap while precipitation stays in the data range. */
  lemma MarksApart(i1: int, j1: int, p1: real, t1: real, i2: int, j2: int, p2: real, t2: real)
    requires (i1, j1) != (i2, j2)
    requires 11.85 <= p1 <= 25.52 && 11.85 <= p2 <= 25.52
    ensures Apart(CellMark(i1, j1, p1, t1), CellMark(i2, j2, p2, t2))
  {
    MarkInsideCell(i1, j1, p1, t1);
    MarkInsideCell(i2, j2, p2, t2);
    if j1 < j2 {
      assert CellLeft(j1) + CellSize <= CellLeft(j2);
    } else if j2 < j1 {
      assert CellLeft(j2) + CellSize <= CellLeft(j1);
    } else if i1 < i2 {
      assert CellTop(i1) + CellSize <= CellTop(i2);
    } else {
      assert CellTop(i2) + CellSize <= CellTop(i1);
    }
  }

  /**
   * With precipitation in the data range, every circle of the 10 x 10 grid
   * lies within x in [18, 1710] and y in [426, 2118], inside the 1692 x 2556 area.
   */
  lemma MarkOnPoster(i: int, j: int, precipAmount: real, yrTemp: real)
    requires 0 <= i < 10 && 0 <= j < 10
    requires 11.85 <= precipAmount <= 25.52
    ensures var m := CellMark(i, j, precipAmount, yrTemp);
      Margin <= m.left && m.left + m.width <= Margin + InWidth &&
      InHeight / 6.0 <= -m.top && -m.top + m.height <= InHeight / 6.0 + InWidth &&
      InHeight / 6.0 + InWidth <= InHeight
  {
    MarkInsideCell(i, j, precipAmount, yrTemp);
    assert CellLeft(j) + CellSize <= CellLeft(10);
    assert CellTop(i) + CellSize <= CellTop(10);
  }

  // ---------------------------------------------------------------------
  // Colour

  /** The warmest year of the range (48.3, hue 360) is filled like hue 0: pure red at 40% lightness. */
  lemma WarmestIsRed(i: int, j: int, precipAmount: real)
    ensures CellMark(i, j, precipAmount, 48.3).fill == Rgb(204.0, 0.0, 0.0)
  {
    HueEndpoints();
    Hue360IsHue0(Saturation, Lightness);
    PureRed(Lightness);
  }

  /** The coldest year of the range (42.5, hue 242) is a blue with a trace of red. */
  lemma ColdestIsBlue(i: int, j: int, precipAmount: real)
    ensures CellMark(i, j, precipAmount, 42.5).fill == Rgb(6.8, 0.0, 204.0)
  {
    HueEndpoints();
    var m1, m2 := M1(100.0 / 100.0, 40.0 / 100.0), M2(100.0 / 100.0, 40.0 / 100.0);
    assert m1 == 0.0 && m2 == 0.8;
    var hue := 242.0 / 360.0;
    assert WrapOnce(hue + 1.0 / 3.0) == 1.0 / 180.0;
    assert HueToRgb(m1, m2, hue + 1.0 / 3.0) == 6.8;
    assert HueToRgb(m1, m2, hue) == 0.0;
    assert HueToRgb(m1, m2, hue - 1.0 / 3.0) == 204.0;
  }

  /**
   * Every fill of a year in the temperature range has its channels in
   * [0, 204]: with saturation 100 and lightness 40, m1 = 0 and m2 = 0.8.
   */
  lemma FillBounds(i: int, j: int, precipAmount: real, yrTemp: real)
    requires 42.5 <= yrTemp <= 48.3
    ensures var c := CellMark(i, j, precipAmount, yrTemp).fill;
      0.0 <= c.r <= 204.0 && 0.0 <= c.g <= 204.0 && 0.0 <= c.b <= 204.0
  {
    HueUnclamped(yrTemp);
    var h := Hue(yrTemp);
    var m1, m2 := M1(100.0 / 100.0, 40.0 / 100.0), M2(100.0 / 100.0, 40.0 / 100.0);
    assert m1 == 0.0 && m2 == 0.8;
    assert h / 360.0 >= 0.0;
    HueToRgbBounds(m1, m2, h / 360.0 + 1.0 / 3.0);
    HueToRgbBounds(m1, m2, h / 360.0);
    HueToRgbBounds(m1, m2, h / 360.0 - 1.0 / 3.0);
  }
}
