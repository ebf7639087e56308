/**
 * What the dithering engine computes, stated on byte sequences: the
 * luminance conversion, the three error-diffusion kernels, the spreading of
 * one pixel's quantisation error over its neighbours, and the raster-order
 * pass that quantises every pixel in turn. The methods of DitheringEngine
 * run these in place and are proved equal to them.
 */
module ErrorDiffusion {
  import opened Numeric
  import opened Wrappers
  import opened ImagePixels
  import ColorSpace

  // ----- Luminance ---------------------------------------------------------

  /**
   * Math.round(0.299 R + 0.587 G + 0.114 B), the ITU-R BT.601 luma. The
   * weights sum to 1, so the result lies between the darkest and the
   * brightest channel, and a gray pixel keeps its level.
   */
  function Luminance(r: Byte, g: Byte, b: Byte): (l: Byte)
    ensures ColorSpace.MinChannel(ColorSpace.Rgb(r, g, b)) <= l <= ColorSpace.MaxChannel(ColorSpace.Rgb(r, g, b))
    ensures r == g == b ==> l == r
  {
    var y := 0.299 * r as real + 0.587 * g as real + 0.114 * b as real;
    RoundHalfUpWithin(y, ColorSpace.MinChannel(ColorSpace.Rgb(r, g, b)), ColorSpace.MaxChannel(ColorSpace.Rgb(r, g, b)));
    RoundHalfUp(y)
  }

  /** Pixel p of t set to the gray of its luminance, as one pass of convertToGrayscale's loop does. */
  function GrayPixel(t: seq<Byte>, p: nat): (r: seq<Byte>)
    requires 4 * p + 3 < |t|
    ensures |r| == |t|
  {
    var l := Luminance(t[4 * p], t[4 * p + 1], t[4 * p + 2]);
    t[4 * p := l][4 * p + 1 := l][4 * p + 2 := l]
  }

  /** The buffer once convertToGrayscale's loop has done its first n pixels. */
  function GrayscalePrefix(s: seq<Byte>, n: nat): (r: seq<Byte>)
    requires 4 * n <= |s|
    ensures |r| == |s|
  {
    if n == 0 then s else GrayPixel(GrayscalePrefix(s, n - 1), n - 1)
  }

  /** One more pass of the loop converts pixel n. */
  lemma {:induction false} GrayscalePrefixStep(s: seq<Byte>, n: nat)
    requires 4 * (n + 1) <= |s|
    ensures GrayscalePrefix(s, n + 1) == GrayPixel(GrayscalePrefix(s, n), n)
  {
    assert n + 1 - 1 == n;
  }

  /** GrayscalePrefixStep as the loop holds it: prev has n pixels converted, next converts pixel n as well. */
  lemma {:induction false} GrayscaleAdvance(s: seq<Byte>, n: nat, m: nat, prev: seq<Byte>, next: seq<Byte>)
    requires m == n + 1 && 4 * m <= |s| && prev == GrayscalePrefix(s, n) && next == GrayPixel(prev, n)
    ensures next == GrayscalePrefix(s, m)
  {
    GrayscalePrefixStep(s, n);
  }

  /** The buffer after convertToGrayscale: every pixel done. */
  function Grayscale(s: seq<Byte>): (r: seq<Byte>)
    requires |s| % 4 == 0
    ensures |r| == |s|
  {
    GrayscalePrefix(s, |s| / 4)
  }

  /**
   * After the first n pixels, each of them holds the luminance of its
   * original colour on R, G and B; every other byte, alpha included, is
   * still the original one.
   */
  lemma {:induction false} GrayscalePrefixPixels(s: seq<Byte>, n: nat)
    requires 4 * n <= |s|
    ensures forall p: nat, c: nat :: 4 * p + 3 < |s| && c < 4 ==>
      Channel(GrayscalePrefix(s, n), p, c)
      == if p < n && c < 3 then Luminance(Channel(s, p, 0), Channel(s, p, 1), Channel(s, p, 2)) else Channel(s, p, c)
  {
    if n > 0 {
      GrayscalePrefixPixels(s, n - 1);
      GrayscalePrefixStep(s, n - 1);
      GrayStep(s, GrayscalePrefix(s, n - 1), GrayscalePrefix(s, n), n - 1);
    }
  }

  /** Converting pixel p of a buffer whose first p pixels are converted gives one whose first p + 1 are. */
  lemma {:induction false} GrayStep(s: seq<Byte>, prev: seq<Byte>, next: seq<Byte>, p: nat)
    requires |prev| == |s| && 4 * p + 3 < |s| && next == GrayPixel(prev, p)
    requires forall q: nat, c: nat :: 4 * q + 3 < |s| && c < 4 ==>
      Channel(prev, q, c)
      == if q < p && c < 3 then Luminance(Channel(s, q, 0), Channel(s, q, 1), Channel(s, q, 2)) else Channel(s, q, c)
    ensures forall q: nat, c: nat :: 4 * q + 3 < |s| && c < 4 ==>
      Channel(next, q, c)
      == if q < p + 1 && c < 3 then Luminance(Channel(s, q, 0), Channel(s, q, 1), Channel(s, q, 2)) else Channel(s, q, c)
  {
    assert Channel(prev, p, 0) == Channel(s, p, 0);
    assert Channel(prev, p, 1) == Channel(s, p, 1);
    assert Channel(prev, p, 2) == Channel(s, p, 2);
  }

  /** Grayscale, pixel by pixel: every pixel becomes the gray of its luminance, with its alpha. */
  lemma {:induction false} GrayscalePixels(s: seq<Byte>)
    requires |s| % 4 == 0
    ensures forall p: nat :: 4 * p + 3 < |s| ==>
      GrayAt(Grayscale(s), p, Luminance(Channel(s, p, 0), Channel(s, p, 1), Channel(s, p, 2)))
      && Channel(Grayscale(s), p, 3) == Channel(s, p, 3)
  {
    GrayscalePrefixPixels(s, |s| / 4);
  }

  /** Converting an image that is already gray changes nothing: the conversion is idempotent. */
  lemma {:induction false} GrayscaleIdempotent(s: seq<Byte>)
    requires |s| % 4 == 0
    ensures Grayscale(Grayscale(s)) == Grayscale(s)
  {
    var g := Grayscale(s);
    GrayscalePixels(s);
    GrayscalePixels(g);
    forall i | 0 <= i < |s|
      ensures Grayscale(g)[i] == g[i]
    {
      var p, c := i / 4, i % 4;
      assert i == 4 * p + c && 4 * p + 3 < |s|;
      assert Channel(Grayscale(g), p, c) == Channel(g, p, c);
    }
  }

  // ----- Kernels -----------------------------------------------------------

  /** One entry of an error-diffusion pattern: the neighbour at (dx, dy) receives weight of the error. */
  datatype Tap = Tap(dx: int, dy: int, weight: real)

  /** The neighbour comes strictly later in raster order: a later row, or the same row further right. */
  predicate Forward(t: Tap) {
    t.dy > 0 || (t.dy == 0 && t.dx > 0)
  }

  predicate AllForward(pattern: seq<Tap>) {
    forall t <- pattern :: Forward(t)
  }

  /** No two taps of the pattern address the same neighbour. */
  predicate DistinctOffsets(pattern: seq<Tap>) {
    forall i, j :: 0 <= i < j < |pattern| ==> !SameOffset(pattern[i], pattern[j])
  }

  predicate SameOffset(t: Tap, u: Tap) {
    t.dx == u.dx && t.dy == u.dy
  }

  /** Tap t addresses a neighbour that comes before u's in raster order. */
  predicate Before(t: Tap, u: Tap) {
    t.dy < u.dy || (t.dy == u.dy && t.dx < u.dx)
  }

  /** Each tap addresses a neighbour later in raster order than the tap before it. */
  predicate InRasterOrder(pattern: seq<Tap>) {
    forall i :: 0 < i < |pattern| ==> Before(pattern[i - 1], pattern[i])
  }

  /** Taps listed in raster order address pairwise different neighbours. */
  lemma {:induction false} RasterOrderDistinct(pattern: seq<Tap>)
    requires InRasterOrder(pattern)
    ensures DistinctOffsets(pattern)
  {
    forall i, j | 0 <= i < j < |pattern|
      ensures !SameOffset(pattern[i], pattern[j])
    {
      RasterOrderChain(pattern, i, j);
    }
  }

  /** Taps listed in raster order after a forward first tap are all forward. */
  lemma {:induction false} RasterOrderForward(pattern: seq<Tap>)
    requires InRasterOrder(pattern) && |pattern| > 0 && Forward(pattern[0])
    ensures AllForward(pattern)
  {
    forall j | 0 < j < |pattern|
      ensures Forward(pattern[j])
    {
      RasterOrderChain(pattern, 0, j);
    }
  }

  lemma {:induction false} RasterOrderChain(pattern: seq<Tap>, i: nat, j: nat)
    requires InRasterOrder(pattern) && i < j < |pattern|
    ensures Before(pattern[i], pattern[j])
    decreases j - i
  {
    if i + 1 < j {
      RasterOrderChain(pattern, i, j - 1);
    }
  }

  /** The share of the error that the pattern passes on, when no neighbour is cut off. */
  function WeightSum(pattern: seq<Tap>): real {
    if pattern == [] then 0.0 else pattern[0].weight + WeightSum(pattern[1..])
  }

  /** Floyd-Steinberg: 7/16 right; 3/16, 5/16, 1/16 on the row below. */
  function FloydSteinbergPattern(): (p: seq<Tap>)
    ensures |p| == 4 && WeightSum(p) == 1.0
    ensures AllForward(p) && DistinctOffsets(p)
  {
    [Tap(1, 0, 7.0 / 16.0), Tap(-1, 1, 3.0 / 16.0), Tap(0, 1, 5.0 / 16.0), Tap(1, 1, 1.0 / 16.0)]
  }

  /** Jarvis-Judice-Ninke: twelve neighbours over two rows below and two columns right, weights out of 48. */
  function JarvisJudiceNinkePattern(): (p: seq<Tap>)
    ensures |p| == 12 && WeightSum(p) == 1.0
    ensures AllForward(p) && DistinctOffsets(p)
  {
    var row0 := [Tap(1, 0, 7.0 / 48.0), Tap(2, 0, 5.0 / 48.0)];
    var row1 := [Tap(-2, 1, 3.0 / 48.0), Tap(-1, 1, 5.0 / 48.0), Tap(0, 1, 7.0 / 48.0), Tap(1, 1, 5.0 / 48.0), Tap(2, 1, 3.0 / 48.0)];
    var row2 := [Tap(-2, 2, 1.0 / 48.0), Tap(-1, 2, 3.0 / 48.0), Tap(0, 2, 5.0 / 48.0), Tap(1, 2, 3.0 / 48.0), Tap(2, 2, 1.0 / 48.0)];
    WeightSumAppend(row0, row1);
    WeightSumAppend(row0 + row1, row2);
    var p := row0 + row1 + row2;
    RasterOrderDistinct(p);
    RasterOrderForward(p);
    p
  }

  /** The weights of two patterns run one after the other add up. */
  lemma {:induction false} WeightSumAppend(a: seq<Tap>, b: seq<Tap>)
    ensures WeightSum(a + b) == WeightSum(a) + WeightSum(b)
  {
    if a != [] {
      assert (a + b)[0] == a[0] && (a + b)[1..] == a[1..] + b;
      WeightSumAppend(a[1..], b);
      assert WeightSum(a + b) == a[0].weight + WeightSum(a[1..] + b);
    } else {
      assert a + b == b;
    }
  }

  /** Atkinson: six neighbours at 1/8 each, so only 6/8 of the error is passed on. */
  function AtkinsonPattern(): (p: seq<Tap>)
    ensures |p| == 6 && WeightSum(p) == 6.0 / 8.0
    ensures AllForward(p) && DistinctOffsets(p)
  {
    [ Tap(1, 0, 1.0 / 8.0), Tap(2, 0, 1.0 / 8.0),
      Tap(-1, 1, 1.0 / 8.0), Tap(0, 1, 1.0 / 8.0), Tap(1, 1, 1.0 / 8.0),
      Tap(0, 2, 1.0 / 8.0) ]
  }

  // ----- Quantisation and error distribution -------------------------------

  /** `oldPixel < threshold ? 0 : 255`: a level equal to the threshold becomes white. */
  function Quantize(v: Byte, threshold: int): (q: Byte)
    ensures q == 0 || q == 255
    ensures q == 255 <==> v >= threshold
  {
    if v < threshold then 0 else 255
  }

  /** The pixel a tap addresses from (x, y), when it lies inside the raster. */
  function TargetPixel(w: nat, h: nat, x: nat, y: nat, t: Tap): (q: Option<nat>)
    ensures q.Some? ==> q.value < w * h
  {
    if 0 <= x + t.dx < w && 0 <= y + t.dy < h then
      var nx: nat, ny: nat := x + t.dx, y + t.dy;
      PixelInImage(nx, ny, w, h);
      Some(ny * w + nx)
    else None
  }

  /** `Math.max(0, Math.min(255, v + amount))` written back into the cell that held v. */
  function AddClamped(v: Byte, amount: real): Byte {
    ClampedStore(v as real + amount)
  }

  /** `error * weight`: the part of the error one tap passes on. */
  function Share(error: real, t: Tap): real {
    error * t.weight
  }

  /**
   * One pass of distributeError's loop: the in-bounds neighbour's R, G and B
   * each gain error * weight, clamped to [0, 255] and rounded as a byte
   * store; nothing else changes.
   */
  function ApplyTap(s: seq<Byte>, w: nat, h: nat, x: nat, y: nat, error: real, t: Tap): (r: seq<Byte>)
    requires |s| == w * h * 4
    ensures |r| == |s|
    ensures forall q, c :: 0 <= q < w * h && 0 <= c < 4 && (c == 3 || TargetPixel(w, h, x, y, t) != Some(q)) ==>
      Channel(r, q, c) == Channel(s, q, c)
    ensures TargetPixel(w, h, x, y, t).Some? ==>
      var q := TargetPixel(w, h, x, y, t).value;
      forall c :: 0 <= c < 3 ==> Channel(r, q, c) == AddClamped(Channel(s, q, c), Share(error, t))
  {
    match TargetPixel(w, h, x, y, t)
    case None => s
    case Some(q) =>
      var amount := Share(error, t);
      var r, g, b := AddClamped(Channel(s, q, 0), amount),
        AddClamped(Channel(s, q, 1), amount), AddClamped(Channel(s, q, 2), amount);
      SetRgbChannels(s, q, r, g, b);
      EveryChannelStored(s, SetRgb(s, q, r, g, b), q, amount);
      SetRgb(s, q, r, g, b)
  }

  /** ApplyTap on a tap that lands on pixel q: the raster with q's three stores. */
  lemma {:induction false} ApplyTapAt(s: seq<Byte>, w: nat, h: nat, x: nat, y: nat, error: real, t: Tap, q: nat)
    requires |s| == w * h * 4 && TargetPixel(w, h, x, y, t) == Some(q)
    ensures ApplyTap(s, w, h, x, y, error, t) == SetRgb(s, q, AddClamped(Channel(s, q, 0), Share(error, t)),
      AddClamped(Channel(s, q, 1), Share(error, t)), AddClamped(Channel(s, q, 2), Share(error, t)))
  {
  }

  /** The three stores of one pixel, as one statement about each of its colour channels. */
  lemma {:induction false} EveryChannelStored(s: seq<Byte>, t: seq<Byte>, q: nat, amount: real)
    requires 4 * q + 3 < |s| && 4 * q + 3 < |t|
    requires Channel(t, q, 0) == AddClamped(Channel(s, q, 0), amount)
    requires Channel(t, q, 1) == AddClamped(Channel(s, q, 1), amount)
    requires Channel(t, q, 2) == AddClamped(Channel(s, q, 2), amount)
    ensures forall c :: 0 <= c < 3 ==> Channel(t, q, c) == AddClamped(Channel(s, q, c), amount)
  {
    forall c | 0 <= c < 3
      ensures Channel(t, q, c) == AddClamped(Channel(s, q, c), amount)
    {
      if c == 0 {
      } else if c == 1 {
      } else {
        assert c == 2;
      }
    }
  }

  /** distributeError: the taps of the pattern applied in order. */
  function Distribute(s: seq<Byte>, w: nat, h: nat, x: nat, y: nat, error: real, pattern: seq<Tap>): (r: seq<Byte>)
    requires |s| == w * h * 4
    ensures |r| == |s|
    decreases |pattern|
  {
    if pattern == [] then s
    else ApplyTap(Distribute(s, w, h, x, y, error, pattern[..|pattern| - 1]), w, h, x, y, error, pattern[|pattern| - 1])
  }

  /** Distributing over one more tap of the pattern applies that tap to the result so far. */
  lemma {:induction false} DistributeSnoc(s: seq<Byte>, w: nat, h: nat, x: nat, y: nat, error: real, pattern: seq<Tap>, i: nat)
    requires |s| == w * h * 4 && i < |pattern|
    ensures Distribute(s, w, h, x, y, error, pattern[..i + 1])
      == ApplyTap(Distribute(s, w, h, x, y, error, pattern[..i]), w, h, x, y, error, pattern[i])
  {
    assert pattern[..i + 1][..i] == pattern[..i];
  }

  /** The in-bounds pixels the pattern addresses from (x, y). */
  function Targets(w: nat, h: nat, x: nat, y: nat, pattern: seq<Tap>): set<nat>
    decreases |pattern|
  {
    if pattern == [] then {}
    else
      var t := TargetPixel(w, h, x, y, pattern[|pattern| - 1]);
      Targets(w, h, x, y, pattern[..|pattern| - 1]) + (if t.Some? then {t.value} else {})
  }

  /** A forward tap from pixel y * w + x addresses a pixel strictly later in raster order. */
  lemma {:induction false} TargetForward(w: nat, h: nat, x: nat, y: nat, t: Tap)
    requires x < w && Forward(t) && TargetPixel(w, h, x, y, t).Some?
    ensures TargetPixel(w, h, x, y, t).value > y * w + x
  {
    if t.dy > 0 {
      var nx: nat, ny: nat := x + t.dx, y + t.dy;
      assert ny * w >= (y + 1) * w by {
        assert ny >= y + 1;
      }
    }
  }

  /** Every pixel a forward pattern addresses from y * w + x comes after it. */
  lemma {:induction false} TargetsAfter(w: nat, h: nat, x: nat, y: nat, pattern: seq<Tap>)
    requires x < w && AllForward(pattern)
    ensures forall q <- Targets(w, h, x, y, pattern) :: q > y * w + x
    decreases |pattern|
  {
    if pattern != [] {
      var last := pattern[|pattern| - 1];
      TargetsAfter(w, h, x, y, pattern[..|pattern| - 1]);
      if TargetPixel(w, h, x, y, last).Some? {
        TargetForward(w, h, x, y, last);
      }
    }
  }

  /** distributeError changes only R, G and B of the pixels the pattern addresses. */
  lemma {:induction false} DistributeFrame(s: seq<Byte>, w: nat, h: nat, x: nat, y: nat, error: real, pattern: seq<Tap>)
    requires |s| == w * h * 4
    ensures forall q, c :: 0 <= q < w * h && 0 <= c < 4 && (c == 3 || q !in Targets(w, h, x, y, pattern)) ==>
      Channel(Distribute(s, w, h, x, y, error, pattern), q, c) == Channel(s, q, c)
    decreases |pattern|
  {
    if pattern != [] {
      DistributeFrame(s, w, h, x, y, error, pattern[..|pattern| - 1]);
    }
  }

  /** Two different offsets from the same pixel never land on the same in-bounds pixel. */
  lemma {:induction false} TargetInjective(w: nat, h: nat, x: nat, y: nat, t: Tap, u: Tap)
    requires TargetPixel(w, h, x, y, t).Some? && TargetPixel(w, h, x, y, u).Some?
    requires TargetPixel(w, h, x, y, t) == TargetPixel(w, h, x, y, u)
    ensures SameOffset(t, u)
  {
    var tx: nat, ty: nat := x + t.dx, y + t.dy;
    var ux: nat, uy: nat := x + u.dx, y + u.dy;
    RasterPosition(tx, ty, w);
    RasterPosition(ux, uy, w);
  }

  /**
   * With pairwise different offsets, each addressed pixel receives exactly
   * its own tap's share: R, G and B each become the clamped byte store of
   * the old value plus error * weight.
   */
  lemma {:induction false} DistributeEffect(s: seq<Byte>, w: nat, h: nat, x: nat, y: nat, error: real, pattern: seq<Tap>, k: nat, c: nat)
    requires |s| == w * h * 4 && DistinctOffsets(pattern)
    requires k < |pattern| && c < 3 && TargetPixel(w, h, x, y, pattern[k]).Some?
    ensures var q := TargetPixel(w, h, x, y, pattern[k]).value;
      Channel(Distribute(s, w, h, x, y, error, pattern), q, c) == AddClamped(Channel(s, q, c), Share(error, pattern[k]))
    decreases |pattern|
  {
    var q := TargetPixel(w, h, x, y, pattern[k]).value;
    var n := |pattern| - 1;
    var init := pattern[..n];
    DistinctPrefix(pattern, n);
    var before := Distribute(s, w, h, x, y, error, init);
    assert Distribute(s, w, h, x, y, error, pattern) == ApplyTap(before, w, h, x, y, error, pattern[n]);
    if k == n {
      TargetsExclude(w, h, x, y, pattern, n);
      DistributeFrame(s, w, h, x, y, error, init);
      assert Channel(before, q, c) == Channel(s, q, c);
    } else {
      assert init[k] == pattern[k];
      DistributeEffect(s, w, h, x, y, error, init, k, c);
      assert TargetPixel(w, h, x, y, pattern[n]) != Some(q) by {
        if TargetPixel(w, h, x, y, pattern[n]) == Some(q) {
          TargetInjective(w, h, x, y, pattern[k], pattern[n]);
          assert false;
        }
      }
      assert Channel(ApplyTap(before, w, h, x, y, error, pattern[n]), q, c) == Channel(before, q, c);
    }
  }

  /** A prefix of a pattern with pairwise different offsets has them too. */
  lemma {:induction false} DistinctPrefix(pattern: seq<Tap>, n: nat)
    requires DistinctOffsets(pattern) && n <= |pattern|
    ensures DistinctOffsets(pattern[..n])
  {
    var init := pattern[..n];
    forall i, j | 0 <= i < j < |init| ensures !SameOffset(init[i], init[j]) {
      assert init[i] == pattern[i] && init[j] == pattern[j];
    }
  }

  /** With pairwise different offsets, the last tap's pixel is not addressed by the taps before it. */
  lemma {:induction false} TargetsExclude(w: nat, h: nat, x: nat, y: nat, pattern: seq<Tap>, n: nat)
    requires DistinctOffsets(pattern) && n < |pattern| && TargetPixel(w, h, x, y, pattern[n]).Some?
    ensures TargetPixel(w, h, x, y, pattern[n]).value !in Targets(w, h, x, y, pattern[..n])
    decreases n
  {
    if n > 0 {
      var prefix := pattern[..n];
      assert prefix[..n - 1] == pattern[..n - 1];
      assert prefix[n - 1] == pattern[n - 1];
      var p' := pattern[..n - 1] + [pattern[n]];
      assert DistinctOffsets(p') by {
        forall i, j | 0 <= i < j < |p'| ensures !SameOffset(p'[i], p'[j]) {
          assert p'[i] == pattern[i];
          if j < n - 1 { assert p'[j] == pattern[j]; } else { assert p'[j] == pattern[n]; }
        }
      }
      assert p'[n - 1] == pattern[n] && p'[..n - 1] == pattern[..n - 1];
      TargetsExclude(w, h, x, y, p', n - 1);
      if TargetPixel(w, h, x, y, pattern[n - 1]) == TargetPixel(w, h, x, y, pattern[n]) {
        TargetInjective(w, h, x, y, pattern[n - 1], pattern[n]);
        assert false;
      }
    }
  }

  // ----- The raster pass ----------------------------------------------------

  /**
   * One iteration of a kernel's inner loop at column x of row y: the pixel's
   * R is quantised against the threshold, R, G and B are set to the result,
   * and (old - new) * errorDiffusion is spread over the pattern.
   */
  function DiffuseAt(s: seq<Byte>, w: nat, h: nat, x: nat, y: nat, threshold: int, errorDiffusion: real, pattern: seq<Tap>): (r: seq<Byte>)
    requires |s| == w * h * 4 && x < w && y < h
    ensures |r| == |s|
  {
    PixelInImage(x, y, w, h);
    var i := 4 * (y * w + x);
    var newPixel := Quantize(s[i], threshold);
    var error := QuantizationError(s[i], newPixel, errorDiffusion);
    Distribute(s[i := newPixel][i + 1 := newPixel][i + 2 := newPixel], w, h, x, y, error, pattern)
  }

  /** `(oldPixel - newPixel) * errorDiffusion`: the error the kernel passes on. */
  function QuantizationError(oldPixel: Byte, newPixel: Byte, errorDiffusion: real): real {
    (oldPixel - newPixel) as real * errorDiffusion
  }

  /** The buffer after the first n pixels, in raster order, have been through DiffuseAt. */
  function Diffused(s: seq<Byte>, w: nat, h: nat, threshold: int, errorDiffusion: real, pattern: seq<Tap>, n: nat): (r: seq<Byte>)
    requires w > 0 && |s| == w * h * 4 && n <= w * h
    ensures |r| == |s|
  {
    if n == 0 then s
    else
      PixelPosition(n - 1, w, h);
      DiffuseAt(Diffused(s, w, h, threshold, errorDiffusion, pattern, n - 1), w, h, (n - 1) % w, (n - 1) / w, threshold, errorDiffusion, pattern)
  }

  /** Step y * w + x of the pass is DiffuseAt at column x of row y. */
  lemma {:induction false} DiffusedNext(s: seq<Byte>, w: nat, h: nat, threshold: int, errorDiffusion: real, pattern: seq<Tap>, x: nat, y: nat)
    requires w > 0 && |s| == w * h * 4 && x < w && y < h && y * w + x < w * h
    ensures Diffused(s, w, h, threshold, errorDiffusion, pattern, y * w + x + 1)
      == DiffuseAt(Diffused(s, w, h, threshold, errorDiffusion, pattern, y * w + x), w, h, x, y, threshold, errorDiffusion, pattern)
  {
    PixelInImage(x, y, w, h);
    RasterPosition(x, y, w);
  }

  /** DiffusedNext as a raster loop holds it: pixel n = y * w + x done, then m = n + 1. */
  lemma {:induction false} DiffusedAdvance(s: seq<Byte>, w: nat, h: nat, threshold: int, errorDiffusion: real, pattern: seq<Tap>,
    x: nat, y: nat, n: nat, m: nat, prev: seq<Byte>, next: seq<Byte>)
    requires w > 0 && |s| == w * h * 4 && x < w && y < h && n == y * w + x && m == n + 1 && m <= w * h
    requires prev == Diffused(s, w, h, threshold, errorDiffusion, pattern, n)
    requires next == DiffuseAt(prev, w, h, x, y, threshold, errorDiffusion, pattern)
    ensures next == Diffused(s, w, h, threshold, errorDiffusion, pattern, m)
  {
    DiffusedNext(s, w, h, threshold, errorDiffusion, pattern, x, y);
  }

  /**
   * One step of the pass at pixel p = y * w + x, with a forward pattern:
   * pixel p becomes black or white on R, G and B; no earlier pixel and no
   * alpha byte changes.
   */
  lemma {:induction false} DiffuseAtStep(s: seq<Byte>, w: nat, h: nat, x: nat, y: nat, threshold: int, errorDiffusion: real, pattern: seq<Tap>)
    requires |s| == w * h * 4 && x < w && y < h && AllForward(pattern)
    requires y * w + x < w * h
    ensures var r := DiffuseAt(s, w, h, x, y, threshold, errorDiffusion, pattern);
      && GrayAt(r, y * w + x, Quantize(Channel(s, y * w + x, 0), threshold))
      && (forall q, c :: 0 <= q < w * h && 0 <= c < 4 && (q < y * w + x || c == 3) ==> Channel(r, q, c) == Channel(s, q, c))
  {
    PixelInImage(x, y, w, h);
    var p := y * w + x;
    var i := 4 * p;
    var newPixel := Quantize(s[i], threshold);
    var error := QuantizationError(s[i], newPixel, errorDiffusion);
    var mid := s[i := newPixel][i + 1 := newPixel][i + 2 := newPixel];
    assert GrayAt(mid, p, newPixel);
    assert forall q, c :: 0 <= q < w * h && 0 <= c < 4 && (q != p || c == 3) ==> Channel(mid, q, c) == Channel(s, q, c);
    TargetsAfter(w, h, x, y, pattern);
    DistributeFrame(mid, w, h, x, y, error, pattern);
  }

  /**
   * Once the pass is past pixel q, pixel q holds on R, G and B the
   * quantisation of the R value it had when its turn came.
   */
  lemma {:induction false} DiffusedPixel(s: seq<Byte>, w: nat, h: nat, threshold: int, errorDiffusion: real, pattern: seq<Tap>, q: nat, n: nat)
    requires w > 0 && |s| == w * h * 4 && q < n <= w * h && AllForward(pattern)
    ensures GrayAt(Diffused(s, w, h, threshold, errorDiffusion, pattern, n), q,
      Quantize(Channel(Diffused(s, w, h, threshold, errorDiffusion, pattern, q), q, 0), threshold))
  {
    DiffusedStable(s, w, h, threshold, errorDiffusion, pattern, q + 1, n);
    PixelPosition(q, w, h);
    var x, y := q % w, q / w;
    assert y * w + x == q;
    DiffuseAtStep(Diffused(s, w, h, threshold, errorDiffusion, pattern, q), w, h, x, y, threshold, errorDiffusion, pattern);
  }

  /**
   * The raster pass quantises each pixel once and never writes it again:
   * once n pixels are done, every one of them is black or white on R, G and
   * B, and no alpha byte has changed.
   */
  lemma {:induction false} DiffusedBinary(s: seq<Byte>, w: nat, h: nat, threshold: int, errorDiffusion: real, pattern: seq<Tap>, n: nat)
    requires w > 0 && |s| == w * h * 4 && n <= w * h && AllForward(pattern)
    ensures var r := Diffused(s, w, h, threshold, errorDiffusion, pattern, n);
      && (forall q :: 0 <= q < n ==> GrayAt(r, q, 0) || GrayAt(r, q, 255))
      && (forall q :: 0 <= q < w * h ==> Channel(r, q, 3) == Channel(s, q, 3))
  {
    forall q | 0 <= q < n
      ensures var r := Diffused(s, w, h, threshold, errorDiffusion, pattern, n); GrayAt(r, q, 0) || GrayAt(r, q, 255)
    {
      DiffusedPixel(s, w, h, threshold, errorDiffusion, pattern, q, n);
    }
    DiffusedAlpha(s, w, h, threshold, errorDiffusion, pattern, n);
  }

  /**
   * Thresholds outside the byte range decide every pixel whatever the error:
   * at or below 0 every pixel becomes white, above 255 every pixel black.
   */
  lemma {:induction false} DiffusedThresholdOutOfRange(s: seq<Byte>, w: nat, h: nat, threshold: int, errorDiffusion: real, pattern: seq<Tap>, n: nat)
    requires w > 0 && |s| == w * h * 4 && n <= w * h && AllForward(pattern)
    requires threshold <= 0 || threshold > 255
    ensures threshold <= 0 ==> forall q :: 0 <= q < n ==> GrayAt(Diffused(s, w, h, threshold, errorDiffusion, pattern, n), q, 255)
    ensures threshold > 255 ==> forall q :: 0 <= q < n ==> GrayAt(Diffused(s, w, h, threshold, errorDiffusion, pattern, n), q, 0)
  {
    var r := Diffused(s, w, h, threshold, errorDiffusion, pattern, n);
    var level: Byte := if threshold <= 0 then 255 else 0;
    forall q | 0 <= q < n
      ensures GrayAt(r, q, level)
    {
      DiffusedPixel(s, w, h, threshold, errorDiffusion, pattern, q, n);
      var v := Channel(Diffused(s, w, h, threshold, errorDiffusion, pattern, q), q, 0);
      assert Quantize(v, threshold) == level;
    }
  }

  /** Spreading a zero error changes nothing: every byte store keeps its value. */
  lemma {:induction false} DistributeZero(s: seq<Byte>, w: nat, h: nat, x: nat, y: nat, pattern: seq<Tap>)
    requires |s| == w * h * 4
    ensures Distribute(s, w, h, x, y, 0.0, pattern) == s
    decreases |pattern|
  {
    if pattern != [] {
      DistributeZero(s, w, h, x, y, pattern[..|pattern| - 1]);
      var t := pattern[|pattern| - 1];
      assert Share(0.0, t) == 0.0;
      match TargetPixel(w, h, x, y, t)
      case None =>
      case Some(q) =>
        var i := 4 * q;
        ClampedStoreByte(s[i]);
        ClampedStoreByte(s[i + 1]);
        ClampedStoreByte(s[i + 2]);
        assert AddClamped(Channel(s, q, 0), 0.0) == s[i] && AddClamped(Channel(s, q, 1), 0.0) == s[i + 1]
          && AddClamped(Channel(s, q, 2), 0.0) == s[i + 2];
        ApplyTapAt(s, w, h, x, y, 0.0, t, q);
        assert SetRgb(s, q, s[i], s[i + 1], s[i + 2]) == s;
    }
  }

  /**
   * With errorDiffusion 0 the pass is plain thresholding: the first n pixels
   * are black where their original R is below the threshold and white
   * otherwise (a value equal to the threshold gives white); the rest of the
   * buffer is the original.
   */
  lemma {:induction false} DiffusedWithoutError(s: seq<Byte>, w: nat, h: nat, threshold: int, pattern: seq<Tap>, n: nat)
    requires w > 0 && |s| == w * h * 4 && n <= w * h
    ensures forall q: nat, c: nat :: q < w * h && c < 4 ==>
      Channel(Diffused(s, w, h, threshold, 0.0, pattern, n), q, c)
      == if q < n && c < 3 then Quantize(Channel(s, q, 0), threshold) else Channel(s, q, c)
  {
    if n > 0 {
      DiffusedWithoutError(s, w, h, threshold, pattern, n - 1);
      var prev := Diffused(s, w, h, threshold, 0.0, pattern, n - 1);
      PixelPosition(n - 1, w, h);
      var x, y := (n - 1) % w, (n - 1) / w;
      DiffuseAtZero(prev, w, h, x, y, threshold, pattern);
      assert Diffused(s, w, h, threshold, 0.0, pattern, n) == DiffuseAt(prev, w, h, x, y, threshold, 0.0, pattern);
      assert 4 * (y * w + x) == 4 * (n - 1);
      ThresholdStep(s, prev, Diffused(s, w, h, threshold, 0.0, pattern, n), w * h, threshold, n);
    }
  }

  /** Quantising pixel n - 1 of a buffer thresholded up to n - 1 gives a buffer thresholded up to n. */
  lemma {:induction false} ThresholdStep(s: seq<Byte>, prev: seq<Byte>, next: seq<Byte>, total: nat, threshold: int, n: nat)
    requires |s| == |prev| == total * 4 && 0 < n <= total
    requires forall q: nat, c: nat :: q < total && c < 4 ==>
      Channel(prev, q, c) == if q < n - 1 && c < 3 then Quantize(Channel(s, q, 0), threshold) else Channel(s, q, c)
    requires var i := 4 * (n - 1);
      var v := Quantize(prev[i], threshold);
      next == prev[i := v][i + 1 := v][i + 2 := v]
    ensures forall q: nat, c: nat :: q < total && c < 4 ==>
      Channel(next, q, c) == if q < n && c < 3 then Quantize(Channel(s, q, 0), threshold) else Channel(s, q, c)
  {
    assert prev[4 * (n - 1)] == Channel(s, n - 1, 0);
    forall q: nat, c: nat | q < total && c < 4
      ensures Channel(next, q, c) == if q < n && c < 3 then Quantize(Channel(s, q, 0), threshold) else Channel(s, q, c)
    {
      if q != n - 1 || c == 3 {
        assert Channel(next, q, c) == Channel(prev, q, c);
      }
    }
  }

  /** With errorDiffusion 0, DiffuseAt stores the quantised R value into R, G and B of its pixel and nothing else. */
  lemma {:induction false} DiffuseAtZero(s: seq<Byte>, w: nat, h: nat, x: nat, y: nat, threshold: int, pattern: seq<Tap>)
    requires |s| == w * h * 4 && x < w && y < h
    ensures y * w + x < w * h
    ensures var i := 4 * (y * w + x);
      var v := Quantize(s[i], threshold);
      DiffuseAt(s, w, h, x, y, threshold, 0.0, pattern) == s[i := v][i + 1 := v][i + 2 := v]
  {
    PixelInImage(x, y, w, h);
    var i := 4 * (y * w + x);
    var newPixel := Quantize(s[i], threshold);
    assert QuantizationError(s[i], newPixel, 0.0) == 0.0;
    DistributeZero(s[i := newPixel][i + 1 := newPixel][i + 2 := newPixel], w, h, x, y, pattern);
  }

  /** No step of the raster pass changes an alpha byte. */
  lemma {:induction false} DiffusedAlpha(s: seq<Byte>, w: nat, h: nat, threshold: int, errorDiffusion: real, pattern: seq<Tap>, n: nat)
    requires w > 0 && |s| == w * h * 4 && n <= w * h && AllForward(pattern)
    ensures forall q :: 0 <= q < w * h ==> Channel(Diffused(s, w, h, threshold, errorDiffusion, pattern, n), q, 3) == Channel(s, q, 3)
  {
    if n > 0 {
      DiffusedAlpha(s, w, h, threshold, errorDiffusion, pattern, n - 1);
      PixelPosition(n - 1, w, h);
      DiffuseAtStep(Diffused(s, w, h, threshold, errorDiffusion, pattern, n - 1), w, h, (n - 1) % w, (n - 1) / w, threshold, errorDiffusion, pattern);
    }
  }

  /** A pixel quantised at step m keeps its value through every later step. */
  lemma {:induction false} DiffusedStable(s: seq<Byte>, w: nat, h: nat, threshold: int, errorDiffusion: real, pattern: seq<Tap>, m: nat, n: nat)
    requires w > 0 && |s| == w * h * 4 && m <= n <= w * h && AllForward(pattern)
    ensures forall q, c :: 0 <= q < m && 0 <= c < 4 ==>
      Channel(Diffused(s, w, h, threshold, errorDiffusion, pattern, n), q, c) == Channel(Diffused(s, w, h, threshold, errorDiffusion, pattern, m), q, c)
    decreases n - m
  {
    if m < n {
      DiffusedStable(s, w, h, threshold, errorDiffusion, pattern, m, n - 1);
      PixelPosition(n - 1, w, h);
      DiffuseAtStep(Diffused(s, w, h, threshold, errorDiffusion, pattern, n - 1), w, h, (n - 1) % w, (n - 1) / w, threshold, errorDiffusion, pattern);
    }
  }
}
