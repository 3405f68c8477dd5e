# Precipitation poster: a Dafny model of the data-to-visual mapping

The repository holds one Adobe ExtendScript script, `precipitation.jsx`. It
turns a century of Colorado climate data into a 10 x 10 grid of circles on
an Illustrator poster. Each year gets one circle:

- its diameter is the year's precipitation, rescaled from 11.85..25.52 inches
  onto 78.5..169.2 pixels;
- its fill colour comes from the year's average temperature, rescaled from
  42.5..48.3 degrees onto the hue range 242..360. The hue is then turned into
  RGB at saturation 100 and lightness 40 by `color_hsl2rgb` and
  `color_HueToRgb`, which follow section 4.2.4 of CSS Color Module Level 3;
- its position is its grid cell: column j starts at `margin + j*inWidth/10`,
  row i at `inHeight/6 + i*inWidth/10`. The circle is moved by
  `add = (inWidth/10 - diameter)/2` on both axes, and the ellipse call gets
  `top = -(y+add)`, `left = x+add`.

The model is three modules:

- `LinearMap` (`linear_map.dfy`) is the rescaling written once, `Rescale`,
  with its endpoint, affinity, monotonicity and no-clamping lemmas.
- `HslColor` (`hsl_color.dfy`) models `color_hsl2rgb` as `Hsl2Rgb` and
  `color_HueToRgb` as `HueToRgb`. `HueToRgb` is split into the single-step
  wrap `WrapOnce` and the four-branch `Channel`, and `m1`/`m2` are `M1`/`M2`.
  As an independent partner, `LightnessOf` and `SaturationOf` read HSL
  lightness and saturation back from an RGB colour. The round-trip lemmas
  show that they recover the inputs.
- `Poster` (`poster.dfy`) holds the script's constants, the two rescalings
  instantiated (`Diameter`, `Hue`), the cell geometry, and `CellMark`, the
  mark of one cell. `DrawGrid` is the nested `for` loop with its running
  `indexCounter`. It is a method over the two data sequences and returns
  the marks in drawing order, plus the final counter. Its postcondition
  ties mark k to `CellMark(k / 10, k % 10, precip[k], temp[k])`.

All quantities are `real`. The script's constants are written as in the
source (`1/3`, `2/3`, `inWidth/10`), and they are exact.

The script hard-codes every range, the grid size and the canvas size. It
checks no lengths and raises no errors. The model follows the code rather
than a design that would lift these into configuration and add
length-mismatch or degenerate-range errors. The code also normalises the
hue with a single wrap step, not a full modulo 360, and the model keeps
that single step (`WrapOnceIsSingleStep`, `Hsl2RgbFullTurn`).

## Model

| member | source | states |
|---|---|---|
| `LinearMap.RescaleEndpoints` | precipitation.jsx:36 | the rescaling sends inMin to outMin and inMax to outMax |
| `LinearMap.RescaleAffine` | precipitation.jsx:36 | for all inputs, in range or not, the output difference is the input difference times the fixed slope (outMax-outMin)/(inMax-inMin) |
| `LinearMap.RescaleStrictlyIncreasing` | precipitation.jsx:49 | with increasing input and output ranges, a larger value gives a strictly larger result |
| `LinearMap.RescaleUnclamped` | precipitation.jsx:49 | the input range lands inside the output range; values below or above it land strictly below or above it (no clamping) |
| `Poster.DiameterEndpoints` | precipitation.jsx:36 | the diameter is exactly 78.5 at 11.85 inches and 169.2 at 25.52 inches |
| `Poster.DiameterStrictlyIncreasing` | precipitation.jsx:36 | more precipitation always gives a strictly larger diameter |
| `Poster.DiameterUnclamped` | precipitation.jsx:36 | inside 11.85..25.52 the diameter is in 78.5..169.2; outside, it extrapolates past those ends |
| `Poster.HueEndpoints` | precipitation.jsx:49 | the hue is exactly 242 at 42.5 degrees and 360 at 48.3 degrees |
| `Poster.HueStrictlyIncreasing` | precipitation.jsx:49 | a warmer year always gives a strictly larger hue |
| `Poster.HueUnclamped` | precipitation.jsx:49 | inside 42.5..48.3 the hue is in 242..360; outside, it extrapolates past those ends |
| `HslColor.WrapOnce` | precipitation.jsx:96-100 | any hue in [-1, 2] is in [0, 1] after the wrap; a hue already in [0, 1] is left alone |
| `HslColor.WrapOnceIsSingleStep` | precipitation.jsx:96-100 | the wrap is one step, not a modulo: -1.5 becomes -0.5 and 2.5 becomes 1.5 |
| `HslColor.HueToRgbBounds` | precipitation.jsx:93-113 | for any channel hue not below -1, the result lies between 255*min(m1,m2) and 255*max(m1,m2) |
| `HslColor.HueToRgbPeriodic` | precipitation.jsx:96-110 | for hues in [-1, 1), hue and hue+1 give the same channel value |
| `HslColor.M1M2InUnit` | precipitation.jsx:78-83 | for saturation and lightness fractions in [0, 1], 0 <= m1 <= m2 <= 1 |
| `HslColor.M1M2Chroma` | precipitation.jsx:78-83 | m1 and m2 average to the lightness, and differ by the chroma (1 - abs(2l - 1)) * s |
| `HslColor.Achromatic` | precipitation.jsx:73-76 | saturation 0 gives r = g = b = l/100*255 for every hue |
| `HslColor.Hue0IsRed` | precipitation.jsx:84-87 | at hue 0 and any non-zero saturation, r is 255*m2 and g = b = 255*m1 |
| `HslColor.Hue120IsGreen` | precipitation.jsx:84-87 | at hue 120, g is 255*m2 and r = b = 255*m1 |
| `HslColor.Hue240IsBlue` | precipitation.jsx:84-87 | at hue 240, b is 255*m2 and r = g = 255*m1 |
| `HslColor.PureRed` | precipitation.jsx:78-87 | at saturation 100 and lightness l <= 50, hue 0 gives (5.1*l, 0, 0) |
| `HslColor.PureGreen` | precipitation.jsx:78-87 | at saturation 100 and lightness l <= 50, hue 120 gives (0, 5.1*l, 0) |
| `HslColor.PureBlue` | precipitation.jsx:78-87 | at saturation 100 and lightness l <= 50, hue 240 gives (0, 0, 5.1*l) |
| `HslColor.PrimaryRed` | precipitation.jsx:70-90 | hsl(0, 100, 50) is (255, 0, 0) |
| `HslColor.PrimaryGreen` | precipitation.jsx:70-90 | hsl(120, 100, 50) is (0, 255, 0) |
| `HslColor.PrimaryBlue` | precipitation.jsx:70-90 | hsl(240, 100, 50) is (0, 0, 255) |
| `HslColor.Hsl2RgbInGamut` | precipitation.jsx:70-112 | saturation and lightness in [0, 100] and a hue from -240 up give every channel in [0, 255] |
| `HslColor.Hsl2RgbFullTurn` | precipitation.jsx:84-110 | for hues in [-240, 240), adding 360 degrees leaves the colour unchanged |
| `HslColor.Hue360IsHue0` | precipitation.jsx:84-110 | hue 360 and hue 0 give the same colour, for every saturation and lightness |
| `HslColor.Hsl2RgbExtremes` | precipitation.jsx:70-113 | for hues in [0, 360) and positive saturation, the largest channel is 255*m2 and the smallest 255*m1 |
| `HslColor.LightnessRoundTrip` | precipitation.jsx:70-90 | the HSL lightness read back from the result equals the input lightness |
| `HslColor.SaturationRoundTrip` | precipitation.jsx:70-90 | for lightness strictly between 0 and 100, the HSL saturation read back from the result equals the input saturation |
| `Poster.RowMajor` | precipitation.jsx:30-33 | cell number i*10 + j has row i and column j |
| `Poster.DrawGrid` | precipitation.jsx:29-66 | the loop makes exactly 100 marks and ends with indexCounter = 100; mark k is built from precip[k] and temp[k] and sits in row k/10, column k%10 |
| `Poster.GridSpacing` | precipitation.jsx:39-40 | adjacent columns, and adjacent rows, are exactly inWidth/10 = 169.2 apart |
| `Poster.MarkCentred` | precipitation.jsx:39-60 | whatever the diameter, the circle's centre is the centre of its cell |
| `Poster.MarkInsideCell` | precipitation.jsx:36-60 | for precipitation in 11.85..25.52, the offset add is non-negative and the circle's box lies within its cell on both axes |
| `Poster.MarkOverflowsAboveRange` | precipitation.jsx:36-41 | above 25.52 inches the offset is negative and the circle starts left of its cell |
| `Poster.MarksApart` | precipitation.jsx:36-60 | for precipitation in range, the circles of two different cells never overlap |
| `Poster.MarkOnPoster` | precipitation.jsx:11-60 | for precipitation in range, every circle lies within x in [18, 1710] and y in [426, 2118], inside the 2556-pixel height |
| `Poster.WarmestIsRed` | precipitation.jsx:49-57 | the warmest year of the range, 48.3 degrees (hue 360), is filled (204, 0, 0), the same as hue 0 |
| `Poster.ColdestIsBlue` | precipitation.jsx:49-57 | the coldest year of the range, 42.5 degrees (hue 242), is filled (6.8, 0, 204) |
| `Poster.FillBounds` | precipitation.jsx:49-57 | for temperatures in range, every fill channel lies in [0, 204], because m1 = 0 and m2 = 0.8 |

## Left out

- Reading the two XML files (`readTempXMLFile`, `readPrecipXMLFile`), with their encoding and line-feed setup, is host I/O. The model takes the parsed `data[k].value` lists as two `seq<real>` inputs.
- Folder and path resolution through `Folder`, `File` and `$.fileName` is host environment plumbing and is not modelled.
- The Illustrator document, `pathItems`, `p.ellipse` and `fillColor` are foreign host calls. Each call is replaced by a `Mark` that holds the values it would receive: top, left, width, height and the RGB fill.
- `makeColor` and the `RGBColor` object it fills are a thin wrapper over a host class. The model keeps the `{r, g, b}` record itself.
- IEEE-754 rounding is not modelled. Every value is an exact `real`, including `1/3`, `2/3` and `inWidth/10`, and the test `s == 0` is real equality.
- Data length: the model requires both data lists to hold at least 100 values. The script checks nothing: a shorter list makes `data[k]` undefined, and reading `.value` from it throws. The model states this as a precondition instead of modelling the exception.
- The loop counters `i` and `j` are implicit globals in the script. In the model they are loop variables, and the global `indexCounter` is returned as an out-parameter.
