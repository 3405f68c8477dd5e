/**
 * The HSL to RGB conversion of the poster script (color_hsl2rgb and
 * color_HueToRgb), which follows the pseudocode of section 4.2.4 of CSS
 * Color Module Level 3: hue in degrees, saturation and lightness in
 * percent, channels on the 0..255 scale.
 */
module HslColor {

  /** The colour record returned by color_hsl2rgb. */
  datatype Rgb = Rgb(r: real, g: real, b: real)
  {
    function Max(): real { if r >= g && r >= b then r else if g >= b then g else b }
    function Min(): real { if r <= g && r <= b then r else if g <= b then g else b }
  }

  function MinOf(x: real, y: real): real { if x <= y then x else y }
  function MaxOf(x: real, y: real): real { if x <= y then y else x }

  /**
   * The single-step hue wrap of color_HueToRgb: one unit is added to a
   * negative hue or taken from a hue above 1, once; it is not a modulo.
   */
  function WrapOnce(hue: real): (w: real)
    ensures -1.0 <= hue <= 2.0 ==> 0.0 <= w <= 1.0
    ensures 0.0 <= hue <= 1.0 ==> w == hue
  {
    if hue < 0.0 then hue + 1.0
    else if hue > 1.0 then hue - 1.0
    else hue
  }

  /** The four-branch piecewise-linear channel of color_HueToRgb, on a wrapped hue. */
  function Channel(m1: real, m2: real, hue: real): real
  {
    if 6.0 * hue < 1.0 then m1 + (m2 - m1) * hue * 6.0
    else if 2.0 * hue < 1.0 then m2
    else if 3.0 * hue < 2.0 then m1 + (m2 - m1) * (2.0 / 3.0 - hue) * 6.0
    else m1
  }

  /** color_HueToRgb: wrap the hue once, take the channel and scale it to 0..255. */
  function HueToRgb(m1: real, m2: real, hue: real): real
  {
    255.0 * Channel(m1, m2, WrapOnce(hue))
  }

  /** m2 of color_hsl2rgb, from saturation and lightness already divided by 100. */
  function M2(s: real, l: real): real
  {
    if l <= 0.5 then l * (s + 1.0) else l + s - l * s
  }

  /** m1 of color_hsl2rgb. */
  function M1(s: real, l: real): real
  {
    l * 2.0 - M2(s, l)
  }

  /** color_hsl2rgb(h, s, l) with h in degrees and s, l in percent. */
  function Hsl2Rgb(h: real, s: real, l: real): Rgb
  {
    var s' := s / 100.0;
    var l' := l / 100.0;
    if s' == 0.0 then
      Rgb(l' * 255.0, l' * 255.0, l' * 255.0)
    else
      var m2 := M2(s', l');
      var m1 := M1(s', l');
      var hue := h / 360.0;
      Rgb(HueToRgb(m1, m2, hue + 1.0 / 3.0), HueToRgb(m1, m2, hue), HueToRgb(m1, m2, hue - 1.0 / 3.0))
  }

  // ---------------------------------------------------------------------
  // The channel helper

  /** The product of two non-negative reals is non-negative. */
  lemma MulNonNeg(a: real, b: real)
    requires a >= 0.0 && b >= 0.0
    ensures a * b >= 0.0
  {
  }

  /** m1 + (m2 - m1) * t stays between m1 and m2 for t in [0, 1]. */
  lemma BetweenEnds(m1: real, m2: real, t: real)
    requires 0.0 <= t <= 1.0
    ensures MinOf(m1, m2) <= m1 + (m2 - m1) * t <= MaxOf(m1, m2)
  {
    MulNonNeg(if m1 <= m2 then m2 - m1 else m1 - m2, t);
    MulNonNeg(if m1 <= m2 then m2 - m1 else m1 - m2, 1.0 - t);
    assert (m2 - m1) * (1.0 - t) == (m2 - m1) - (m2 - m1) * t;
  }

  /**
   * Once the hue is not below -1 (so one wrap makes it non-negative), every
   * branch of the channel gives a value between m1 and m2, and the result is
   * that value times 255.
   */
  lemma HueToRgbBounds(m1: real, m2: real, hue: real)
    requires hue >= -1.0
    ensures 255.0 * MinOf(m1, m2) <= HueToRgb(m1, m2, hue) <= 255.0 * MaxOf(m1, m2)
  {
    var w := WrapOnce(hue);
    assert w >= 0.0;
    if 6.0 * w < 1.0 {
      BetweenEnds(m1, m2, w * 6.0);
      assert Channel(m1, m2, w) == m1 + (m2 - m1) * (w * 6.0);
    } else if 2.0 * w < 1.0 {
    } else if 3.0 * w < 2.0 {
      BetweenEnds(m1, m2, (2.0 / 3.0 - w) * 6.0);
      assert Channel(m1, m2, w) == m1 + (m2 - m1) * ((2.0 / 3.0 - w) * 6.0);
    }
  }

  /**
   * The single-step wrap makes the channel periodic with period 1 for hues
   * in [-1, 1): the hue and the hue plus one give the same value.
   */
  lemma HueToRgbPeriodic(m1: real, m2: real, hue: real)
    requires -1.0 <= hue < 1.0
    ensures HueToRgb(m1, m2, hue + 1.0) == HueToRgb(m1, m2, hue)
  {
    if hue < 0.0 {
      assert WrapOnce(hue) == hue + 1.0 == WrapOnce(hue + 1.0);
    } else if hue == 0.0 {
      assert Channel(m1, m2, WrapOnce(hue)) == m1;
      assert Channel(m1, m2, WrapOnce(hue + 1.0)) == m1;
    } else {
      assert WrapOnce(hue + 1.0) == hue == WrapOnce(hue);
    }
  }

  /** The effect of the wrap is lost for hues below -1: hue -1.5 is not brought into [0, 1]. */
  lemma WrapOnceIsSingleStep()
    ensures WrapOnce(-1.5) == -0.5
    ensures WrapOnce(2.5) == 1.5
  {
  }

  // ---------------------------------------------------------------------
  // m1 and m2

  /** For saturation and lightness fractions in [0, 1], 0 <= m1 <= m2 <= 1. */
  lemma M1M2InUnit(s: real, l: real)
    requires 0.0 <= s <= 1.0 && 0.0 <= l <= 1.0
    ensures 0.0 <= M1(s, l) <= M2(s, l) <= 1.0
  {
    MulNonNeg(l, s);
    MulNonNeg(l, 1.0 - s);
    MulNonNeg(s, 1.0 - l);
    MulNonNeg(1.0 - s, 1.0 - l);
    if l <= 0.5 {
      assert M2(s, l) == l + l * s;
      assert M1(s, l) == l - l * s;
    } else {
      assert M2(s, l) == l + s * (1.0 - l);
      assert M1(s, l) == l - s * (1.0 - l);
    }
  }

  /** The chroma of full saturation at lightness fraction l: 1 - |2l - 1|. */
  function Spread(l: real): real
  {
    1.0 - (if 2.0 * l - 1.0 < 0.0 then 1.0 - 2.0 * l else 2.0 * l - 1.0)
  }

  /**
   * m1 and m2 agree with the chroma form of HSL: their midpoint is the
   * lightness, and their distance is the chroma (1 - |2l - 1|) * s.
   */
  lemma M1M2Chroma(s: real, l: real)
    ensures (M1(s, l) + M2(s, l)) / 2.0 == l
    ensures M2(s, l) - M1(s, l) == Spread(l) * s
  {
    if l <= 0.5 {
      assert M2(s, l) - M1(s, l) == 2.0 * l * s;
    } else {
      assert M2(s, l) - M1(s, l) == 2.0 * s - 2.0 * l * s;
    }
  }

  // ---------------------------------------------------------------------
  // color_hsl2rgb

  /** With saturation 0 every hue gives the grey r = g = b = l / 100 * 255. */
  lemma Achromatic(h: real, l: real)
    ensures Hsl2Rgb(h, 0.0, l) == Rgb(l / 100.0 * 255.0, l / 100.0 * 255.0, l / 100.0 * 255.0)
  {
  }

  /** At hue 0 the colour is a red: r sits on m2, g and b on m1. */
  lemma Hue0IsRed(s: real, l: real)
    requires s != 0.0
    ensures Hsl2Rgb(0.0, s, l) == Rgb(255.0 * M2(s / 100.0, l / 100.0), 255.0 * M1(s / 100.0, l / 100.0), 255.0 * M1(s / 100.0, l / 100.0))
  {
    assert WrapOnce(0.0 - 1.0 / 3.0) == 2.0 / 3.0;
  }

  /** At hue 120 the colour is a green: g sits on m2, r and b on m1. */
  lemma Hue120IsGreen(s: real, l: real)
    requires s != 0.0
    ensures Hsl2Rgb(120.0, s, l) == Rgb(255.0 * M1(s / 100.0, l / 100.0), 255.0 * M2(s / 100.0, l / 100.0), 255.0 * M1(s / 100.0, l / 100.0))
  {
    assert 120.0 / 360.0 == 1.0 / 3.0;
  }

  /** At hue 240 the colour is a blue: b sits on m2, r and g on m1. */
  lemma Hue240IsBlue(s: real, l: real)
    requires s != 0.0
    ensures Hsl2Rgb(240.0, s, l) == Rgb(255.0 * M1(s / 100.0, l / 100.0), 255.0 * M1(s / 100.0, l / 100.0), 255.0 * M2(s / 100.0, l / 100.0))
  {
    assert 240.0 / 360.0 == 2.0 / 3.0;
  }

  /**
   * At full saturation and lightness up to 50, hue 0 is a pure red:
   * m1 is 0 and m2 is twice the lightness fraction.
   */
  lemma PureRed(l: real)
    requires 0.0 <= l <= 50.0
    ensures Hsl2Rgb(0.0, 100.0, l) == Rgb(l / 100.0 * 510.0, 0.0, 0.0)
  {
    Hue0IsRed(100.0, l);
    assert M1(100.0 / 100.0, l / 100.0) == 0.0 && M2(100.0 / 100.0, l / 100.0) == l / 100.0 * 2.0;
  }

  /** The red primary: hue 0 at saturation 100 and lightness 50. */
  lemma PrimaryRed()
    ensures Hsl2Rgb(0.0, 100.0, 50.0) == Rgb(255.0, 0.0, 0.0)
  {
    PureRed(50.0);
  }

  /**
   * At full saturation and lightness up to 50, hue 120 is a pure green:
   * m1 is 0 and m2 is twice the lightness fraction.
   */
  lemma PureGreen(l: real)
    requires 0.0 <= l <= 50.0
    ensures Hsl2Rgb(120.0, 100.0, l) == Rgb(0.0, l / 100.0 * 510.0, 0.0)
  {
    Hue120IsGreen(100.0, l);
    assert M1(100.0 / 100.0, l / 100.0) == 0.0 && M2(100.0 / 100.0, l / 100.0) == l / 100.0 * 2.0;
  }

  /** The green primary: hue 120 at saturation 100 and lightness 50. */
  lemma PrimaryGreen()
    ensures Hsl2Rgb(120.0, 100.0, 50.0) == Rgb(0.0, 255.0, 0.0)
  {
    PureGreen(50.0);
  }

  /**
   * At full saturation and lightness up to 50, hue 240 is a pure blue:
   * m1 is 0 and m2 is twice the lightness fraction.
   */
  lemma PureBlue(l: real)
    requires 0.0 <= l <= 50.0
    ensures Hsl2Rgb(240.0, 100.0, l) == Rgb(0.0, 0.0, l / 100.0 * 510.0)
  {
    Hue240IsBlue(100.0, l);
    assert M1(100.0 / 100.0, l / 100.0) == 0.0 && M2(100.0 / 100.0, l / 100.0) == l / 100.0 * 2.0;
  }

  /** The blue primary: hue 240 at saturation 100 and lightness 50. */
  lemma PrimaryBlue()
    ensures Hsl2Rgb(240.0, 100.0, 50.0) == Rgb(0.0, 0.0, 255.0)
  {
    PureBlue(50.0);
  }

  /**
   * Saturation and lightness in [0, 100] give every channel in [0, 255], for
   * every hue from -240 degrees up (the blue channel's argument h/360 - 1/3
   * is then not below -1, so the single wrap suffices).
   */
  lemma Hsl2RgbInGamut(h: real, s: real, l: real)
    requires 0.0 <= s <= 100.0 && 0.0 <= l <= 100.0
    requires h >= -240.0
    ensures var c := Hsl2Rgb(h, s, l);
      0.0 <= c.r <= 255.0 && 0.0 <= c.g <= 255.0 && 0.0 <= c.b <= 255.0
  {
    var s', l' := s / 100.0, l / 100.0;
    if s' != 0.0 {
      M1M2InUnit(s', l');
      var m1, m2, hue := M1(s', l'), M2(s', l'), h / 360.0;
      assert hue >= -2.0 / 3.0;
      HueToRgbBounds(m1, m2, hue + 1.0 / 3.0);
      HueToRgbBounds(m1, m2, hue);
      HueToRgbBounds(m1, m2, hue - 1.0 / 3.0);
    }
  }

  /**
   * Turning the hue a full circle changes nothing for hues in [-240, 240):
   * there all three channel arguments lie in [-1, 1).
   */
  lemma Hsl2RgbFullTurn(h: real, s: real, l: real)
    requires -240.0 <= h < 240.0
    ensures Hsl2Rgb(h + 360.0, s, l) == Hsl2Rgb(h, s, l)
  {
    var s', l' := s / 100.0, l / 100.0;
    if s' != 0.0 {
      var m1, m2, hue := M1(s', l'), M2(s', l'), h / 360.0;
      assert (h + 360.0) / 360.0 == hue + 1.0;
      HueToRgbPeriodic(m1, m2, hue + 1.0 / 3.0);
      HueToRgbPeriodic(m1, m2, hue);
      HueToRgbPeriodic(m1, m2, hue - 1.0 / 3.0);
      assert hue + 1.0 / 3.0 + 1.0 == hue + 1.0 + 1.0 / 3.0;
      assert hue - 1.0 / 3.0 + 1.0 == hue + 1.0 - 1.0 / 3.0;
    }
  }

  /** Hue 360 and hue 0 give the same colour. */
  lemma Hue360IsHue0(s: real, l: real)
    ensures Hsl2Rgb(360.0, s, l) == Hsl2Rgb(0.0, s, l)
  {
    Hsl2RgbFullTurn(0.0, s, l);
  }

  // ---------------------------------------------------------------------
  // The inverse direction: lightness and saturation read back from RGB

  /** The HSL lightness (in percent) of an RGB colour: the midpoint of its largest and smallest channel. */
  function LightnessOf(c: Rgb): real
  {
    (c.Max() + c.Min()) / 2.0 / 255.0 * 100.0
  }

  /** The HSL saturation (in percent) of an RGB colour: chroma over (1 - |2L - 1|). */
  function SaturationOf(c: Rgb): real
  {
    var chroma := (c.Max() - c.Min()) / 255.0;
    var denom := Spread(LightnessOf(c) / 100.0);
    if denom == 0.0 then 0.0 else chroma / denom * 100.0
  }

  /**
   * For a hue in [0, 360) and a non-negative saturation, the largest
   * channel is 255 * m2 and the smallest 255 * m1: in each sixth of the
   * hue circle one channel sits on m2, one on m1 and one on the ramp.
   */
  lemma Hsl2RgbExtremes(h: real, s: real, l: real)
    requires 0.0 <= h < 360.0
    requires 0.0 < s && 0.0 <= l <= 100.0
    ensures Hsl2Rgb(h, s, l).Max() == 255.0 * M2(s / 100.0, l / 100.0)
    ensures Hsl2Rgb(h, s, l).Min() == 255.0 * M1(s / 100.0, l / 100.0)
  {
    var s', l' := s / 100.0, l / 100.0;
    var m1, m2, hue := M1(s', l'), M2(s', l'), h / 360.0;
    M1M2Chroma(s', l');
    MulNonNeg(Spread(l'), s');
    assert m1 <= m2;
    assert MinOf(m1, m2) == m1 && MaxOf(m1, m2) == m2;
    assert 0.0 <= hue < 1.0;
    HueToRgbBounds(m1, m2, hue + 1.0 / 3.0);
    HueToRgbBounds(m1, m2, hue);
    HueToRgbBounds(m1, m2, hue - 1.0 / 3.0);
    var c := Hsl2Rgb(h, s, l);
    assert c == Rgb(HueToRgb(m1, m2, hue + 1.0 / 3.0), HueToRgb(m1, m2, hue), HueToRgb(m1, m2, hue - 1.0 / 3.0));
    if 6.0 * hue < 1.0 {
      assert c.r == 255.0 * m2 && c.b == 255.0 * m1;
    } else if 3.0 * hue < 1.0 {
      assert c.g == 255.0 * m2 && c.b == 255.0 * m1;
    } else if 2.0 * hue < 1.0 {
      assert c.g == 255.0 * m2 && c.r == 255.0 * m1;
    } else if 3.0 * hue < 2.0 {
      assert c.b == 255.0 * m2 && c.r == 255.0 * m1;
    } else if 6.0 * hue < 5.0 {
      assert c.b == 255.0 * m2 && c.g == 255.0 * m1;
    } else {
      assert c.r == 255.0 * m2 && c.g == 255.0 * m1;
    }
  }

  /**
   * Reading the lightness back from the RGB result gives the lightness that
   * went in, for every hue in [0, 360), saturation >= 0 and lightness in [0, 100].
   */
  lemma LightnessRoundTrip(h: real, s: real, l: real)
    requires 0.0 <= h < 360.0
    requires 0.0 <= s && 0.0 <= l <= 100.0
    ensures LightnessOf(Hsl2Rgb(h, s, l)) == l
  {
    if s != 0.0 {
      Hsl2RgbExtremes(h, s, l);
      M1M2Chroma(s / 100.0, l / 100.0);
    }
  }

  /**
   * Reading the saturation back gives the saturation that went in, whenever
   * the lightness is strictly between 0 and 100 (at black and white every
   * saturation gives the same colour).
   */
  lemma SaturationRoundTrip(h: real, s: real, l: real)
    requires 0.0 <= h < 360.0
    requires 0.0 <= s && 0.0 < l < 100.0
    ensures SaturationOf(Hsl2Rgb(h, s, l)) == s
  {
    var c := Hsl2Rgb(h, s, l);
    var s', l' := s / 100.0, l / 100.0;
    LightnessRoundTrip(h, s, l);
    if s == 0.0 {
      SaturationFromChroma(c, l', s');
    } else {
      Hsl2RgbExtremes(h, s, l);
      M1M2Chroma(s', l');
      SaturationFromChroma(c, l', s');
    }
  }

  /** The last step of the saturation round trip, on the colour alone. */
  lemma SaturationFromChroma(c: Rgb, l': real, s': real)
    requires 0.0 < l' < 1.0
    requires LightnessOf(c) == l' * 100.0
    requires c.Max() - c.Min() == 255.0 * (Spread(l') * s')
    ensures SaturationOf(c) == s' * 100.0
  {
    assert LightnessOf(c) / 100.0 == l';
    var denom := Spread(l');
    assert denom > 0.0;
    assert (c.Max() - c.Min()) / 255.0 == denom * s';
  }
}
