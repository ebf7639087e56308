/**
 * The colour adjustments of ColorPalettes: contrast on one channel, the
 * hue / saturation / brightness / contrast pipeline on one colour, and the
 * tinted gray. Every adjustment option is optional, and a missing one takes
 * the source's default.
 */
module ColorAdjust {
  import opened Numeric
  import opened Wrappers
  import opened ColorSpace

  /**
   * An adjustments object. `hueOffset` is the legacy name of `hueShift`,
   * read only by the tinted gray.
   */
  datatype ColorAdjustments = ColorAdjustments(
    hueOffset: Option<real>,
    hueShift: Option<real>,
    saturation: Option<real>,
    brightness: Option<real>,
    contrast: Option<real>)

  /** `x * (p / 100)`: x scaled by a percentage. */
  function Percent(x: real, p: real): real {
    x * (p / 100.0)
  }

  /** The brightness step: the channel scaled by the brightness percentage and clamped to [0, 255]. */
  function Brighten(x: real, brightness: real): (y: real)
    ensures 0.0 <= y <= 255.0
  {
    Clamp(Percent(x, brightness), 0.0, 255.0)
  }

  /** applyContrast: stretch the channel around mid-gray by contrast percent, then clamp to [0, 255]. */
  function ApplyContrast(value: real, contrast: real): (r: real)
    ensures 0.0 <= r <= 255.0
  {
    var normalized := value / 255.0;
    var adjusted := Percent(normalized - 0.5, contrast) + 0.5;
    Clamp(adjusted * 255.0, 0.0, 255.0)
  }

  /** Contrast 100 leaves every channel value in [0, 255] as it is. */
  lemma {:induction false} ContrastNeutral(value: real)
    requires 0.0 <= value <= 255.0
    ensures ApplyContrast(value, 100.0) == value
  {
  }

  /** Mid-gray is the pivot of the contrast formula: it stays put whatever the contrast. */
  lemma {:induction false} ContrastPivot(contrast: real)
    ensures ApplyContrast(127.5, contrast) == 127.5
  {
    assert Percent(127.5 / 255.0 - 0.5, contrast) == 0.0;
  }

  /** With contrast at least 100 a channel moves away from mid-gray, and at most 100 towards it. */
  lemma {:induction false} ContrastDirection(value: real, contrast: real)
    requires 0.0 <= value <= 255.0 && contrast >= 0.0
    ensures contrast >= 100.0 && value >= 127.5 ==> ApplyContrast(value, contrast) >= value
    ensures contrast >= 100.0 && value <= 127.5 ==> ApplyContrast(value, contrast) <= value
    ensures contrast <= 100.0 && value >= 127.5 ==> 127.5 <= ApplyContrast(value, contrast) <= value
    ensures contrast <= 100.0 && value <= 127.5 ==> value <= ApplyContrast(value, contrast) <= 127.5
  {
    var d := value / 255.0 - 0.5;
    PercentOrder(d, contrast);
  }

  /** How scaling by p percent compares with the value itself, for either sign of the value. */
  lemma {:induction false} PercentOrder(d: real, p: real)
    requires p >= 0.0
    ensures d >= 0.0 ==> Percent(d, p) >= 0.0
    ensures d <= 0.0 ==> Percent(d, p) <= 0.0
    ensures d >= 0.0 && p >= 100.0 ==> Percent(d, p) >= d
    ensures d <= 0.0 && p >= 100.0 ==> Percent(d, p) <= d
    ensures d >= 0.0 && p <= 100.0 ==> Percent(d, p) <= d
    ensures d <= 0.0 && p <= 100.0 ==> Percent(d, p) >= d
  {
    var q := p / 100.0;
    ProductSign(d, q);
    ProductSign(d, q - 1.0);
    assert d * q - d == d * (q - 1.0);
  }

  /** The sign of a product from the signs of its factors. */
  lemma {:induction false} ProductSign(a: real, b: real)
    ensures a >= 0.0 && b >= 0.0 ==> a * b >= 0.0
    ensures a <= 0.0 && b >= 0.0 ==> a * b <= 0.0
    ensures a >= 0.0 && b <= 0.0 ==> a * b <= 0.0
    ensures a <= 0.0 && b <= 0.0 ==> a * b >= 0.0
  {
  }

  /** The last steps of adjustColor on one channel: brightness, contrast, Math.round. */
  function FinishChannel(k: int, brightness: real, contrast: real): (n: int)
    ensures 0 <= n <= 255
  {
    RoundHalfUp(ApplyContrast(Brighten(k as real, brightness), contrast))
  }

  /** adjustColor: shift the hue, scale the saturation, go back to RGB, then brightness and contrast per channel. */
  function AdjustColor(c: Rgb, adjustments: ColorAdjustments): (r: Rgb)
    ensures IsByteColor(r)
  {
    var hueShift := adjustments.hueShift.GetOr(0.0);
    var saturation := adjustments.saturation.GetOr(100.0);
    var brightness := adjustments.brightness.GetOr(100.0);
    var contrast := adjustments.contrast.GetOr(100.0);
    var hsv := RgbToHsv(c);
    var h := JsRem(hsv.h + hueShift + 360.0, 360.0);
    var s := Clamp(Percent(hsv.s, saturation), 0.0, 100.0);
    var rgb := HsvToRgb(Hsv(h, s, hsv.v));
    Rgb(FinishChannel(rgb.r, brightness, contrast),
        FinishChannel(rgb.g, brightness, contrast),
        FinishChannel(rgb.b, brightness, contrast))
  }

  /** Adjustments that all sit at their neutral values (whether given or defaulted). */
  predicate Neutral(adjustments: ColorAdjustments) {
    && adjustments.hueShift.GetOr(0.0) == 0.0
    && adjustments.saturation.GetOr(100.0) == 100.0
    && adjustments.brightness.GetOr(100.0) == 100.0
    && adjustments.contrast.GetOr(100.0) == 100.0
  }

  /** Neutral adjustments give every byte colour back unchanged. */
  lemma {:induction false} AdjustColorNeutral(c: Rgb, adjustments: ColorAdjustments)
    requires IsByteColor(c) && Neutral(adjustments)
    ensures AdjustColor(c, adjustments) == c
  {
    var hsv := RgbToHsv(c);
    RgbToHsvRange(c);
    RemBounds(hsv.h + 0.0 + 360.0, 360.0);
    assert Hsv(JsRem(hsv.h + 0.0 + 360.0, 360.0), Clamp(Percent(hsv.s, 100.0), 0.0, 100.0), hsv.v) == hsv;
    RgbHsvRoundTrip(c);
    FinishNeutral(c.r);
    FinishNeutral(c.g);
    FinishNeutral(c.b);
  }

  /** Brightness and contrast at 100 keep a byte channel. */
  lemma {:induction false} FinishNeutral(k: int)
    requires 0 <= k <= 255
    ensures FinishChannel(k, 100.0, 100.0) == k
  {
    ContrastNeutral(k as real);
    RoundHalfUpInt(k);
  }

  /** A full turn of hue shift changes nothing: shifts of s and s + 360 give the same colour, for s >= -360. */
  lemma {:induction false} AdjustColorFullTurn(c: Rgb, adjustments: ColorAdjustments, shift: real)
    requires IsByteColor(c) && shift >= -360.0
    ensures AdjustColor(c, adjustments.(hueShift := Some(shift + 360.0))) == AdjustColor(c, adjustments.(hueShift := Some(shift)))
  {
    var h := RgbToHsv(c).h;
    RgbToHsvRange(c);
    HueShiftTurn(h + shift + 360.0);
  }

  /** Adding 360 before `% 360` changes nothing for a non-negative dividend. */
  lemma {:induction false} HueShiftTurn(a: real)
    requires a >= 0.0
    ensures JsRem(a + 360.0, 360.0) == JsRem(a, 360.0)
  {
    assert (a + 360.0) / 360.0 == a / 360.0 + 1.0;
    assert Trunc((a + 360.0) / 360.0) == Trunc(a / 360.0) + 1;
  }

  // ----- Tinted grayscale ---------------------------------------------------

  /** The hue of a tinted gray: hueShift when it is given and not 0, otherwise the legacy hueOffset. */
  function TintHue(adjustments: ColorAdjustments): real {
    var hueShift := adjustments.hueShift.GetOr(0.0);
    if hueShift != 0.0 then hueShift else adjustments.hueOffset.GetOr(0.0)
  }

  /**
   * createTintedGrayscale: a gray of the given luminance, coloured through
   * HSV when saturation is positive, then brightness-scaled and rounded.
   */
  function CreateTintedGrayscale(luminance: real, adjustments: ColorAdjustments): (r: Rgb)
    ensures IsByteColor(r)
  {
    var saturation := adjustments.saturation.GetOr(0.0);
    var brightness := adjustments.brightness.GetOr(100.0);
    if saturation > 0.0 then
      var finalHue := JsRem(TintHue(adjustments) + 360.0, 360.0);
      var rgb := HsvToRgb(Hsv(finalHue, saturation, luminance / 255.0 * 100.0));
      Rgb(RoundHalfUp(Brighten(rgb.r as real, brightness)),
          RoundHalfUp(Brighten(rgb.g as real, brightness)),
          RoundHalfUp(Brighten(rgb.b as real, brightness)))
    else
      var l := RoundHalfUp(Brighten(luminance, brightness));
      Rgb(l, l, l)
  }

  /**
   * Without saturation the result is a gray; at the default brightness it is
   * the luminance rounded, for a luminance in [0, 255].
   */
  lemma {:induction false} TintedGrayscaleUnsaturated(luminance: real, adjustments: ColorAdjustments)
    requires adjustments.saturation.GetOr(0.0) <= 0.0
    ensures CreateTintedGrayscale(luminance, adjustments).r == CreateTintedGrayscale(luminance, adjustments).g == CreateTintedGrayscale(luminance, adjustments).b
    ensures adjustments.brightness.GetOr(100.0) == 100.0 && 0.0 <= luminance <= 255.0 ==>
      CreateTintedGrayscale(luminance, adjustments) == Rgb(RoundHalfUp(luminance), RoundHalfUp(luminance), RoundHalfUp(luminance))
  {
  }

  /**
   * With saturation in (0, 100] and the default brightness the luminance
   * survives the tint: it is, rounded, the brightest channel.
   */
  lemma {:induction false} TintedGrayscaleKeepsLuminance(luminance: real, adjustments: ColorAdjustments)
    requires 0.0 < adjustments.saturation.GetOr(0.0) <= 100.0
    requires adjustments.brightness.GetOr(100.0) == 100.0
    requires 0.0 <= luminance <= 255.0
    ensures MaxChannel(CreateTintedGrayscale(luminance, adjustments)) == RoundHalfUp(luminance)
  {
    var saturation := adjustments.saturation.GetOr(0.0);
    var finalHue := JsRem(TintHue(adjustments) + 360.0, 360.0);
    var hsv := Hsv(finalHue, saturation, luminance / 255.0 * 100.0);
    var rgb := HsvToRgb(hsv);
    assert CreateTintedGrayscale(luminance, adjustments) == Rgb(RoundHalfUp(Brighten(rgb.r as real, 100.0)),
      RoundHalfUp(Brighten(rgb.g as real, 100.0)), RoundHalfUp(Brighten(rgb.b as real, 100.0)));
    HsvToRgbBrightest(hsv);
    assert hsv.v / 100.0 * 255.0 == luminance;
    RoundHalfUpWithin(luminance, 0, 255);
    BrightenKeepsMax(rgb);
  }

  /** Brightness 100 clamps each channel to [0, 255], which keeps a brightest channel already in range. */
  lemma {:induction false} BrightenKeepsMax(c: Rgb)
    requires 0 <= MaxChannel(c) <= 255
    ensures MaxChannel(Rgb(RoundHalfUp(Brighten(c.r as real, 100.0)), RoundHalfUp(Brighten(c.g as real, 100.0)), RoundHalfUp(Brighten(c.b as real, 100.0)))) == MaxChannel(c)
  {
    BrightenByte(c.r, MaxChannel(c));
    BrightenByte(c.g, MaxChannel(c));
    BrightenByte(c.b, MaxChannel(c));
  }

  /** A channel k at most a byte bound stays at most the bound under brightness 100, and keeps its value if it is a byte. */
  lemma {:induction false} BrightenByte(k: int, bound: int)
    requires k <= bound && 0 <= bound <= 255
    ensures 0 <= RoundHalfUp(Brighten(k as real, 100.0)) <= bound
    ensures 0 <= k ==> RoundHalfUp(Brighten(k as real, 100.0)) == k
  {
    if 0 <= k {
      RoundHalfUpInt(k);
    } else {
      RoundHalfUpInt(0);
    }
  }

  /** A non-zero hueShift wins: the legacy hueOffset then has no effect. */
  lemma {:induction false} HueShiftOverridesOffset(luminance: real, adjustments: ColorAdjustments, hueOffset: Option<real>)
    requires adjustments.hueShift.GetOr(0.0) != 0.0
    ensures CreateTintedGrayscale(luminance, adjustments) == CreateTintedGrayscale(luminance, adjustments.(hueOffset := hueOffset))
  {
    assert TintHue(adjustments) == TintHue(adjustments.(hueOffset := hueOffset));
  }

  /** Without a hueShift (or with 0) the legacy hueOffset acts exactly as a hueShift would. */
  lemma {:induction false} HueOffsetFallback(luminance: real, adjustments: ColorAdjustments)
    requires adjustments.hueShift.GetOr(0.0) == 0.0
    ensures CreateTintedGrayscale(luminance, adjustments) == CreateTintedGrayscale(luminance, adjustments.(hueShift := adjustments.hueOffset, hueOffset := None))
  {
    assert TintHue(adjustments) == TintHue(adjustments.(hueShift := adjustments.hueOffset, hueOffset := None));
  }
}
