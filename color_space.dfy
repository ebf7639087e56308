/**
 * The colour arithmetic of ColorPalettes: RGB to HSV and back, and the
 * per-colour adjustments (hue shift, saturation, brightness, contrast, and
 * tinted grays). All arithmetic is on exact reals; results go back to
 * integers through Math.round.
 */
module ColorSpace {
  import opened Numeric
  import opened Wrappers

  /** An `[r, g, b]` colour array. */
  datatype Rgb = Rgb(r: int, g: int, b: int)

  /** An `[h, s, v]` array: hue in degrees, saturation and value in percent. */
  datatype Hsv = Hsv(h: real, s: real, v: real)

  predicate IsByteColor(c: Rgb) {
    0 <= c.r <= 255 && 0 <= c.g <= 255 && 0 <= c.b <= 255
  }

  function Abs(x: real): real {
    if x < 0.0 then -x else x
  }

  /** Math.max of three numbers. */
  function Max3(a: real, b: real, c: real): (m: real)
    ensures m == a || m == b || m == c
    ensures a <= m && b <= m && c <= m
  {
    if a >= b && a >= c then a else if b >= c then b else c
  }

  /** Math.min of three numbers. */
  function Min3(a: real, b: real, c: real): (m: real)
    ensures m == a || m == b || m == c
    ensures m <= a && m <= b && m <= c
  {
    if a <= b && a <= c then a else if b <= c then b else c
  }

  // ----- RGB to HSV ---------------------------------------------------------

  /** A channel divided by 255. */
  function Scaled(k: int): real {
    k as real / 255.0
  }

  /** `max` of rgbToHsv: the largest scaled channel. */
  function Brightest(c: Rgb): real {
    Max3(Scaled(c.r), Scaled(c.g), Scaled(c.b))
  }

  /** `min` of rgbToHsv: the smallest scaled channel. */
  function Darkest(c: Rgb): real {
    Min3(Scaled(c.r), Scaled(c.g), Scaled(c.b))
  }

  /**
   * The hue branch of rgbToHsv: 0 for a gray, otherwise the sector of the
   * largest channel (red first, then green) plus the offset within it,
   * taken `% 360`.
   */
  function Hue(c: Rgb): real {
    var r, g, b := Scaled(c.r), Scaled(c.g), Scaled(c.b);
    var max, diff := Brightest(c), Brightest(c) - Darkest(c);
    if diff == 0.0 then 0.0
    else if max == r then JsRem(60.0 * ((g - b) / diff) + 360.0, 360.0)
    else if max == g then JsRem(60.0 * ((b - r) / diff) + 120.0, 360.0)
    else JsRem(60.0 * ((r - g) / diff) + 240.0, 360.0)
  }

  /** `s` of rgbToHsv, before scaling to percent: 0 for black, otherwise diff / max. */
  function Saturation(c: Rgb): real {
    var max := Brightest(c);
    if max == 0.0 then 0.0 else (max - Darkest(c)) / max
  }

  /** rgbToHsv: hue in degrees, saturation and value in percent. */
  function RgbToHsv(c: Rgb): Hsv {
    Hsv(Hue(c), Saturation(c) * 100.0, Brightest(c) * 100.0)
  }

  /** For byte channels the hue lies in [0, 360) and saturation and value in [0, 100]. */
  lemma {:induction false} RgbToHsvRange(c: Rgb)
    requires IsByteColor(c)
    ensures 0.0 <= RgbToHsv(c).h < 360.0
    ensures 0.0 <= RgbToHsv(c).s <= 100.0 && 0.0 <= RgbToHsv(c).v <= 100.0
  {
    HueRange(c);
    SaturationRange(c);
  }

  /** A gray has hue and saturation 0, and value 100/255 of its level. */
  lemma {:induction false} RgbToHsvGray(c: Rgb)
    requires c.r == c.g == c.b
    ensures RgbToHsv(c) == Hsv(0.0, 0.0, c.r as real * 100.0 / 255.0)
  {
  }

  /** For byte channels every branch of the hue lands in [0, 360). */
  lemma {:induction false} HueRange(c: Rgb)
    requires IsByteColor(c)
    ensures 0.0 <= Hue(c) < 360.0
  {
    var r, g, b := Scaled(c.r), Scaled(c.g), Scaled(c.b);
    var max, diff := Brightest(c), Brightest(c) - Darkest(c);
    if diff != 0.0 {
      var a := if max == r then g - b else if max == g then b - r else r - g;
      RatioRange(a, diff);
      var offset := if max == r then 360.0 else if max == g then 120.0 else 240.0;
      assert Hue(c) == JsRem(60.0 * (a / diff) + offset, 360.0);
      RemBounds(60.0 * (a / diff) + offset, 360.0);
    }
  }

  /** For byte channels the saturation lies in [0, 1]. */
  lemma {:induction false} SaturationRange(c: Rgb)
    requires IsByteColor(c)
    ensures 0.0 <= Saturation(c) <= 1.0
  {
    var max := Brightest(c);
    if max != 0.0 {
      RatioRange(max - Darkest(c), max);
    }
  }

  /** A quotient a / d with |a| <= d lies in [-1, 1], is 1 exactly when a == d, and keeps the sign of a. */
  lemma {:induction false} RatioRange(a: real, d: real)
    requires d > 0.0 && -d <= a <= d
    ensures -1.0 <= a / d <= 1.0
    ensures a / d == 1.0 <==> a == d
    ensures a / d >= 0.0 <==> a >= 0.0
    ensures d * (a / d) == a
  {
  }

  // ----- HSV to RGB ---------------------------------------------------------

  /** `Math.round((r + m) * 255)` for each channel. */
  function ToRgb(r: real, g: real, b: real, m: real): Rgb {
    Rgb(RoundHalfUp((r + m) * 255.0), RoundHalfUp((g + m) * 255.0), RoundHalfUp((b + m) * 255.0))
  }

  /** The sector branch of hsvToRgb: which channel gets the chroma, which the second largest component x. */
  function Sector(h: real, chroma: real, x: real, m: real): Rgb {
    if h >= 0.0 && h < 1.0 then ToRgb(chroma, x, 0.0, m)
    else if h >= 1.0 && h < 2.0 then ToRgb(x, chroma, 0.0, m)
    else if h >= 2.0 && h < 3.0 then ToRgb(0.0, chroma, x, m)
    else if h >= 3.0 && h < 4.0 then ToRgb(0.0, x, chroma, m)
    else if h >= 4.0 && h < 5.0 then ToRgb(x, 0.0, chroma, m)
    else ToRgb(chroma, 0.0, x, m)
  }

  /** The second largest component `c * (1 - |h % 2 - 1|)` of hsvToRgb, for the hue h in sixths of a turn. */
  function Secondary(chroma: real, h: real): real {
    chroma * (1.0 - Abs(JsRem(h, 2.0) - 1.0))
  }

  /** The chroma `c = v * s` of hsvToRgb, for v and s scaled to [0, 1]. */
  function Chroma(v: real, s: real): real {
    v * s
  }

  /** hsvToRgb: the hue picks the sector, and m = v - c lifts every component. */
  function HsvToRgb(hsv: Hsv): Rgb {
    var h, chroma := hsv.h / 60.0, Chroma(hsv.v / 100.0, hsv.s / 100.0);
    Sector(h, chroma, Secondary(chroma, h), hsv.v / 100.0 - chroma)
  }

  /** A non-negative hue with saturation and value in [0, 100] gives byte channels. */
  lemma {:induction false} HsvToRgbInRange(hsv: Hsv)
    requires hsv.h >= 0.0 && 0.0 <= hsv.s <= 100.0 && 0.0 <= hsv.v <= 100.0
    ensures IsByteColor(HsvToRgb(hsv))
  {
    var h, chroma := hsv.h / 60.0, Chroma(hsv.v / 100.0, hsv.s / 100.0);
    ChromaWithin(hsv.v / 100.0, hsv.s / 100.0);
    assert 0.0 <= chroma <= hsv.v / 100.0;
    SecondaryWithin(chroma, h);
    assert 0.0 <= Secondary(chroma, h) <= chroma;
    SectorInRange(h, chroma, Secondary(chroma, h), hsv.v / 100.0 - chroma);
  }

  /** The secondary component never exceeds a non-negative chroma, and for a non-negative hue it is not negative. */
  lemma {:induction false} SecondaryWithin(chroma: real, h: real)
    requires 0.0 <= chroma
    ensures Secondary(chroma, h) <= chroma
    ensures 0.0 <= h ==> 0.0 <= Secondary(chroma, h)
  {
    var u := 1.0 - Abs(JsRem(h, 2.0) - 1.0);
    assert Secondary(chroma, h) == chroma * u;
    assert chroma * u <= chroma by {
      assert chroma * u - chroma == chroma * (u - 1.0);
    }
    if 0.0 <= h {
      RemBounds(h, 2.0);
      ScaleWithin(chroma, u);
    }
  }

  /** Components whose sums with m lie in [0, 1] give byte channels in every sector. */
  lemma {:induction false} SectorInRange(h: real, chroma: real, x: real, m: real)
    requires 0.0 <= m && 0.0 <= x <= chroma && chroma + m <= 1.0
    ensures IsByteColor(Sector(h, chroma, x, m))
  {
    ChannelInRange(chroma + m);
    ChannelInRange(x + m);
    ChannelInRange(0.0 + m);
  }

  /** The largest channel of a colour. */
  function MaxChannel(c: Rgb): int {
    if c.r >= c.g && c.r >= c.b then c.r else if c.g >= c.b then c.g else c.b
  }

  /** The smallest channel of a colour. */
  function MinChannel(c: Rgb): int {
    if c.r <= c.g && c.r <= c.b then c.r else if c.g <= c.b then c.g else c.b
  }

  /** The HSV value is the brightest channel of hsvToRgb, whatever the hue. */
  lemma {:induction false} HsvToRgbBrightest(hsv: Hsv)
    requires 0.0 <= hsv.s <= 100.0 && 0.0 <= hsv.v <= 100.0
    ensures MaxChannel(HsvToRgb(hsv)) == RoundHalfUp(hsv.v / 100.0 * 255.0)
  {
    var h, chroma := hsv.h / 60.0, Chroma(hsv.v / 100.0, hsv.s / 100.0);
    var m := hsv.v / 100.0 - chroma;
    var x := Secondary(chroma, h);
    HsvToRgbSector(hsv);
    ChromaWithin(hsv.v / 100.0, hsv.s / 100.0);
    SecondaryWithin(chroma, h);
    SectorSpan(h, chroma, x, m);
    assert (chroma + m) * 255.0 == hsv.v / 100.0 * 255.0;
  }

  /** For a non-negative hue, value minus chroma is the darkest channel of hsvToRgb. */
  lemma {:induction false} HsvToRgbDarkest(hsv: Hsv)
    requires hsv.h >= 0.0 && 0.0 <= hsv.s <= 100.0 && 0.0 <= hsv.v <= 100.0
    ensures MinChannel(HsvToRgb(hsv)) == RoundHalfUp((hsv.v / 100.0 - Chroma(hsv.v / 100.0, hsv.s / 100.0)) * 255.0)
  {
    var h, chroma := hsv.h / 60.0, Chroma(hsv.v / 100.0, hsv.s / 100.0);
    var m := hsv.v / 100.0 - chroma;
    var x := Secondary(chroma, h);
    HsvToRgbSector(hsv);
    ChromaWithin(hsv.v / 100.0, hsv.s / 100.0);
    SecondaryWithin(chroma, h);
    SectorSpan(h, chroma, x, m);
  }

  /** hsvToRgb in terms of its sector, chroma, secondary component and lift. */
  lemma {:induction false} HsvToRgbSector(hsv: Hsv)
    ensures HsvToRgb(hsv) == Sector(hsv.h / 60.0, Chroma(hsv.v / 100.0, hsv.s / 100.0),
      Secondary(Chroma(hsv.v / 100.0, hsv.s / 100.0), hsv.h / 60.0), hsv.v / 100.0 - Chroma(hsv.v / 100.0, hsv.s / 100.0))
  {
  }

  /** The chroma channel is the brightest in every sector; for a non-negative secondary component the m channel is the darkest. */
  lemma {:induction false} SectorSpan(h: real, chroma: real, x: real, m: real)
    requires 0.0 <= chroma && x <= chroma
    ensures MaxChannel(Sector(h, chroma, x, m)) == RoundHalfUp((chroma + m) * 255.0)
    ensures 0.0 <= x ==> MinChannel(Sector(h, chroma, x, m)) == RoundHalfUp(m * 255.0)
  {
    RoundHalfUpMonotone((x + m) * 255.0, (chroma + m) * 255.0);
    RoundHalfUpMonotone((0.0 + m) * 255.0, (chroma + m) * 255.0);
    if 0.0 <= x {
      RoundHalfUpMonotone((0.0 + m) * 255.0, (x + m) * 255.0);
    }
  }

  /** The chroma of a value and a saturation in [0, 1] lies between 0 and the value. */
  lemma {:induction false} ChromaWithin(v: real, s: real)
    requires 0.0 <= v <= 1.0 && 0.0 <= s <= 1.0
    ensures 0.0 <= Chroma(v, s) <= v
  {
    ScaleWithin(v, s);
  }

  /** 0 <= a * t <= a for a >= 0 and t in [0, 1]. */
  lemma {:induction false} ScaleWithin(a: real, t: real)
    requires a >= 0.0 && 0.0 <= t <= 1.0
    ensures 0.0 <= a * t <= a
  {
  }

  /** A component in [0, 1] rounds to a byte. */
  lemma {:induction false} ChannelInRange(y: real)
    requires 0.0 <= y <= 1.0
    ensures 0 <= RoundHalfUp(y * 255.0) <= 255
  {
    RoundHalfUpWithin(y * 255.0, 0, 255);
  }

  // ----- The round trip -----------------------------------------------------

  /**
   * Converting a byte colour to HSV and back gives the colour itself: with
   * exact arithmetic each channel comes back as an integer that Math.round
   * keeps.
   */
  lemma {:induction false} RgbHsvRoundTrip(c: Rgb)
    requires IsByteColor(c)
    ensures HsvToRgb(RgbToHsv(c)) == c
  {
    var min, diff := Darkest(c), Brightest(c) - Darkest(c);
    var h := Hue(c) / 60.0;
    RoundTripSector(c);
    if diff == 0.0 {
      assert h == 0.0 && Secondary(diff, h) == 0.0;
      ToRgbExact(c, diff, Secondary(diff, h), 0.0, min);
    } else if Brightest(c) == Scaled(c.r) {
      RoundTripRed(c);
    } else if Brightest(c) == Scaled(c.g) {
      RoundTripGreen(c);
    } else {
      RoundTripBlue(c);
    }
  }

  /** Back from a byte colour's HSV form, the chroma is max - min and m is min. */
  lemma {:induction false} RoundTripSector(c: Rgb)
    requires IsByteColor(c)
    ensures HsvToRgb(RgbToHsv(c)) == Sector(Hue(c) / 60.0, Brightest(c) - Darkest(c), Secondary(Brightest(c) - Darkest(c), Hue(c) / 60.0), Darkest(c))
  {
    var hsv := RgbToHsv(c);
    var v, s := hsv.v / 100.0, hsv.s / 100.0;
    assert v == Brightest(c) && s == Saturation(c);
    ChromaOfColor(c);
    assert Chroma(v, s) == Brightest(c) - Darkest(c);
  }

  /** The chroma of a byte colour is max - min: the saturation is the share of max left above min. */
  lemma {:induction false} ChromaOfColor(c: Rgb)
    requires IsByteColor(c)
    ensures Chroma(Brightest(c), Saturation(c)) == Brightest(c) - Darkest(c)
  {
    var max := Brightest(c);
    if max != 0.0 {
      RatioRange(max - Darkest(c), max);
    }
  }

  /** ToRgb gives back c when each component plus m is the scaled channel of c. */
  lemma {:induction false} ToRgbExact(c: Rgb, x: real, y: real, z: real, m: real)
    requires x + m == Scaled(c.r) && y + m == Scaled(c.g) && z + m == Scaled(c.b)
    ensures ToRgb(x, y, z, m) == c
  {
    RoundHalfUpInt(c.r);
    RoundHalfUpInt(c.g);
    RoundHalfUpInt(c.b);
  }

  /** In the sectors [k, k + 1) for even k the secondary component rises: at k + a / d it is a. */
  lemma {:induction false} SecondaryRising(d: real, a: real, k: real)
    requires d > 0.0 && 0.0 <= a < d
    requires k == 0.0 || k == 2.0 || k == 4.0
    ensures Secondary(d, k + a / d) == a
  {
    var h := k + a / d;
    RatioRange(a, d);
    RemBounds(h, 2.0);
    var u := 1.0 - Abs(JsRem(h, 2.0) - 1.0);
    assert u == a / d;
  }

  /** In the sectors (k, k + 1] for odd k the secondary component falls: at k + 1 - a / d it is a. */
  lemma {:induction false} SecondaryFalling(d: real, a: real, k: real)
    requires d > 0.0 && 0.0 < a <= d
    requires k == 1.0 || k == 3.0 || k == 5.0
    ensures Secondary(d, k + 1.0 - a / d) == a
  {
    var h := k + 1.0 - a / d;
    RatioRange(a, d);
    RemBounds(h, 2.0);
    var u := 1.0 - Abs(JsRem(h, 2.0) - 1.0);
    assert u == a / d;
  }

  /** The quotient of a negated dividend. */
  lemma {:induction false} NegatedRatio(a: real, d: real)
    requires d > 0.0
    ensures (-a) / d == -(a / d)
  {
  }

  /** The round trip when red is the largest channel and the colour is not gray. */
  lemma {:induction false} RoundTripRed(c: Rgb)
    requires IsByteColor(c)
    requires Brightest(c) == Scaled(c.r) && Brightest(c) != Darkest(c)
    ensures Sector(Hue(c) / 60.0, Brightest(c) - Darkest(c), Secondary(Brightest(c) - Darkest(c), Hue(c) / 60.0), Darkest(c)) == c
  {
    var r, g, b := Scaled(c.r), Scaled(c.g), Scaled(c.b);
    var min, diff := Darkest(c), Brightest(c) - Darkest(c);
    var a := g - b;
    RatioRange(a, diff);
    var t := a / diff;
    assert Hue(c) == JsRem(60.0 * t + 360.0, 360.0);
    RemBounds(60.0 * t + 360.0, 360.0);
    var h := Hue(c) / 60.0;
    if t < 0.0 {
      NegatedRatio(a, diff);
      assert h == 5.0 + 1.0 - (-a) / diff && min == g;
      SecondaryFalling(diff, -a, 5.0);
      ToRgbExact(c, diff, 0.0, Secondary(diff, h), min);
    } else if t < 1.0 {
      assert h == 0.0 + a / diff && min == b;
      SecondaryRising(diff, a, 0.0);
      ToRgbExact(c, diff, Secondary(diff, h), 0.0, min);
    } else {
      assert h == 1.0 + 1.0 - diff / diff && min == b && a == diff;
      SecondaryFalling(diff, diff, 1.0);
      ToRgbExact(c, Secondary(diff, h), diff, 0.0, min);
    }
  }

  /** The round trip when green is the largest channel and red is not. */
  lemma {:induction false} RoundTripGreen(c: Rgb)
    requires IsByteColor(c)
    requires Brightest(c) != Scaled(c.r) && Brightest(c) == Scaled(c.g) && Brightest(c) != Darkest(c)
    ensures Sector(Hue(c) / 60.0, Brightest(c) - Darkest(c), Secondary(Brightest(c) - Darkest(c), Hue(c) / 60.0), Darkest(c)) == c
  {
    var r, g, b := Scaled(c.r), Scaled(c.g), Scaled(c.b);
    var min, diff := Darkest(c), Brightest(c) - Darkest(c);
    var a := b - r;
    RatioRange(a, diff);
    var t := a / diff;
    assert Hue(c) == JsRem(60.0 * t + 120.0, 360.0);
    RemBounds(60.0 * t + 120.0, 360.0);
    var h := Hue(c) / 60.0;
    if t < 0.0 {
      NegatedRatio(a, diff);
      assert h == 1.0 + 1.0 - (-a) / diff && min == b;
      SecondaryFalling(diff, -a, 1.0);
      ToRgbExact(c, Secondary(diff, h), diff, 0.0, min);
    } else if t < 1.0 {
      assert h == 2.0 + a / diff && min == r;
      SecondaryRising(diff, a, 2.0);
      ToRgbExact(c, 0.0, diff, Secondary(diff, h), min);
    } else {
      assert h == 3.0 + 1.0 - diff / diff && min == r && a == diff;
      SecondaryFalling(diff, diff, 3.0);
      ToRgbExact(c, 0.0, Secondary(diff, h), diff, min);
    }
  }

  /** The round trip when blue is the only largest channel. */
  lemma {:induction false} RoundTripBlue(c: Rgb)
    requires IsByteColor(c)
    requires Brightest(c) != Scaled(c.r) && Brightest(c) != Scaled(c.g) && Brightest(c) != Darkest(c)
    ensures Sector(Hue(c) / 60.0, Brightest(c) - Darkest(c), Secondary(Brightest(c) - Darkest(c), Hue(c) / 60.0), Darkest(c)) == c
  {
    var r, g, b := Scaled(c.r), Scaled(c.g), Scaled(c.b);
    var min, diff := Darkest(c), Brightest(c) - Darkest(c);
    var a := r - g;
    RatioRange(a, diff);
    var t := a / diff;
    assert Hue(c) == JsRem(60.0 * t + 240.0, 360.0);
    RemBounds(60.0 * t + 240.0, 360.0);
    var h := Hue(c) / 60.0;
    if t < 0.0 {
      NegatedRatio(a, diff);
      assert h == 3.0 + 1.0 - (-a) / diff && min == r;
      SecondaryFalling(diff, -a, 3.0);
      ToRgbExact(c, 0.0, Secondary(diff, h), diff, min);
    } else {
      assert h == 4.0 + a / diff && min == g && t < 1.0;
      SecondaryRising(diff, a, 4.0);
      ToRgbExact(c, Secondary(diff, h), 0.0, diff, min);
    }
  }
}
