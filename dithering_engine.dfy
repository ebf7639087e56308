/**
 * The DitheringEngine of the renderer: grayscale conversion and the three
 * error-diffusion kernels, all working in place on the byte array of an
 * ImageData, and the `dither` entry point that runs them on a copy. Each
 * method is proved equal to the function of ErrorDiffusion that specifies
 * it. The engine object holds no state besides its fixed algorithm table,
 * so its methods are module-level here.
 */
module DitheringEngine {
  import opened Numeric
  import opened Wrappers
  import opened ImagePixels
  import opened ErrorDiffusion

  // ----- The algorithm table ------------------------------------------------

  /** The kernels the engine's `algorithms` table binds. */
  datatype Kernel = FloydSteinbergKernel | JarvisJudiceNinkeKernel | AtkinsonKernel

  /** `this.algorithms[name]`: the kernel registered under a name, if any. */
  function AlgorithmKernel(name: string): Option<Kernel> {
    if name == "floyd-steinberg" then Some(FloydSteinbergKernel)
    else if name == "jarvis-judice-ninke" then Some(JarvisJudiceNinkeKernel)
    else if name == "atkinson" then Some(AtkinsonKernel)
    else None
  }

  /** The error-distribution pattern a kernel passes to distributeError. */
  function KernelPattern(k: Kernel): (p: seq<Tap>)
    ensures AllForward(p) && DistinctOffsets(p)
  {
    match k
    case FloydSteinbergKernel => FloydSteinbergPattern()
    case JarvisJudiceNinkeKernel => JarvisJudiceNinkePattern()
    case AtkinsonKernel => AtkinsonPattern()
  }

  /** getAvailableAlgorithms: the keys of the table, in the order they were registered. */
  function GetAvailableAlgorithms(): (names: seq<string>)
    ensures forall n :: n in names <==> AlgorithmKernel(n).Some?
    ensures forall i, j :: 0 <= i < j < |names| ==> names[i] != names[j]
  {
    ["floyd-steinberg", "jarvis-judice-ninke", "atkinson"]
  }

  /** The metadata record getAlgorithmInfo returns. */
  datatype AlgorithmInfo = AlgorithmInfo(name: string, description: string, errorPattern: string, quality: string, speed: string)

  /** The decimal digits of n. */
  function Decimal(n: nat): string {
    if n < 10 then [DigitChar(n)] else Decimal(n / 10) + [DigitChar(n % 10)]
  }

  function DigitChar(d: nat): char
    requires d < 10
  {
    "0123456789"[d]
  }

  /**
   * getAlgorithmInfo: the metadata of a registered algorithm, null for any
   * other name. Its table has the same three keys as the algorithm registry,
   * so the lookup goes through AlgorithmKernel.
   */
  function GetAlgorithmInfo(algorithm: string): (r: Option<AlgorithmInfo>)
    ensures r.Some? <==> AlgorithmKernel(algorithm).Some?
    ensures r.Some? ==> r.value == KernelInfo(AlgorithmKernel(algorithm).value)
  {
    match AlgorithmKernel(algorithm)
    case None => None
    case Some(k) => Some(KernelInfo(k))
  }

  const FloydSteinbergDescription := "Classic error diffusion dithering with 4-pixel error distribution"
  const JarvisJudiceNinkeDescription := "More complex error diffusion with 12-pixel distribution"
  const AtkinsonDescription := "Apple's dithering algorithm, uses only 6/8 of error"

  /** The entry of getAlgorithmInfo's table for a kernel. */
  function KernelInfo(k: Kernel): AlgorithmInfo {
    match k
    case FloydSteinbergKernel =>
      AlgorithmInfo("Floyd-Steinberg", FloydSteinbergDescription, "4 neighbors", "High", "Fast")
    case JarvisJudiceNinkeKernel =>
      AlgorithmInfo("Jarvis-Judice-Ninke", JarvisJudiceNinkeDescription, "12 neighbors", "Very High", "Medium")
    case AtkinsonKernel =>
      AlgorithmInfo("Atkinson", AtkinsonDescription, "6 neighbors", "High", "Fast")
  }

  /** The neighbour count a kernel's entry advertises is the length of the kernel's pattern. */
  lemma {:induction false} AlgorithmInfoNeighbors(k: Kernel)
    ensures KernelInfo(k).errorPattern == Decimal(|KernelPattern(k)|) + " neighbors"
  {
    match k
    case FloydSteinbergKernel => FloydSteinbergNeighbors();
    case JarvisJudiceNinkeKernel => JarvisJudiceNinkeNeighbors();
    case AtkinsonKernel => AtkinsonNeighbors();
  }

  lemma {:induction false} FloydSteinbergNeighbors()
    ensures KernelInfo(FloydSteinbergKernel).errorPattern == Decimal(|KernelPattern(FloydSteinbergKernel)|) + " neighbors"
  {
    assert Decimal(4) + " neighbors" == "4 neighbors";
  }

  lemma {:induction false} JarvisJudiceNinkeNeighbors()
    ensures KernelInfo(JarvisJudiceNinkeKernel).errorPattern == Decimal(|KernelPattern(JarvisJudiceNinkeKernel)|) + " neighbors"
  {
    assert Decimal(12) == Decimal(1) + [DigitChar(2)] == "12";
    assert "12" + " neighbors" == "12 neighbors";
  }

  lemma {:induction false} AtkinsonNeighbors()
    ensures KernelInfo(AtkinsonKernel).errorPattern == Decimal(|KernelPattern(AtkinsonKernel)|) + " neighbors"
  {
    assert Decimal(6) + " neighbors" == "6 neighbors";
  }

  // ----- In-place operations -------------------------------------------------

  /**
   * distributeError: for each tap, an in-bounds neighbour's R, G and B each
   * gain error * weight, clamped to [0, 255] and stored as bytes.
   */
  method DistributeError(data: array<Byte>, width: nat, height: nat, x: nat, y: nat, error: real, pattern: seq<Tap>)
    requires data.Length == width * height * 4
    modifies data
    ensures data[..] == Distribute(old(data[..]), width, height, x, y, error, pattern)
  {
    ghost var s0 := data[..];
    for i := 0 to |pattern|
      invariant data[..] == Distribute(s0, width, height, x, y, error, pattern[..i])
    {
      ghost var before := data[..];
      var t := pattern[i];
      var nx, ny := x + t.dx, y + t.dy;
      if nx >= 0 && nx < width && ny >= 0 && ny < height {
        PixelInImage(nx, ny, width, height);
        ghost var q := ny * width + nx;
        assert TargetPixel(width, height, x, y, t) == Some(q);
        var nIdx := (ny * width + nx) * 4;
        assert nIdx == 4 * q;
        var errorAmount := Share(error, t);
        // The three cells are distinct, so reading all three before writing any changes nothing.
        var red, green, blue := data[nIdx], data[nIdx + 1], data[nIdx + 2];
        assert red == Channel(before, q, 0) && green == Channel(before, q, 1) && blue == Channel(before, q, 2);
        var r := AddClamped(red, errorAmount);
        var g := AddClamped(green, errorAmount);
        var b := AddClamped(blue, errorAmount);
        data[nIdx], data[nIdx + 1], data[nIdx + 2] := r, g, b;
        assert data[..] == SetRgb(before, q, r, g, b);
        assert r == AddClamped(Channel(before, q, 0), Share(error, t));
        assert g == AddClamped(Channel(before, q, 1), Share(error, t));
        assert b == AddClamped(Channel(before, q, 2), Share(error, t));
        ApplyTapAt(before, width, height, x, y, error, t, q);
        assert data[..] == ApplyTap(before, width, height, x, y, error, t);
      } else {
        assert TargetPixel(width, height, x, y, t) == None;
        assert data[..] == ApplyTap(before, width, height, x, y, error, t);
      }
      DistributeSnoc(s0, width, height, x, y, error, pattern, i);
    }
    assert pattern[..|pattern|] == pattern;
  }

  /** convertToGrayscale: R, G and B of every pixel set to its luminance; alpha untouched. */
  method ConvertToGrayscale(img: ImageData)
    requires img.Valid()
    modifies img.data
    ensures img.data[..] == Grayscale(old(img.data[..]))
  {
    var data := img.data;
    ghost var s0 := data[..];
    ghost var pixels := img.width * img.height;
    QuadBound(0, pixels);
    ghost var k: nat := 0;
    var i := 0;
    while i < data.Length
      invariant i == 4 * k && k <= pixels
      invariant data[..] == GrayscalePrefix(s0, k)
    {
      ghost var before := data[..];
      var luminance := Luminance(data[i], data[i + 1], data[i + 2]);
      data[i] := luminance;
      data[i + 1] := luminance;
      data[i + 2] := luminance;
      assert data[..] == GrayPixel(before, k);
      ghost var n := k;
      i := i + 4;
      k := k + 1;
      GrayscaleAdvance(s0, n, k, before, data[..]);
    }
  }

  /**
   * The body of a kernel's inner loop at column x of row y: quantise R
   * against the threshold, write the result to R, G and B, and distribute
   * (old - new) * errorDiffusion over the pattern.
   */
  method DiffusePixel(data: array<Byte>, width: nat, height: nat, x: nat, y: nat, threshold: int, errorDiffusion: real, pattern: seq<Tap>)
    requires data.Length == width * height * 4 && x < width && y < height
    modifies data
    ensures data[..] == DiffuseAt(old(data[..]), width, height, x, y, threshold, errorDiffusion, pattern)
  {
    PixelInImage(x, y, width, height);
    var idx := (y * width + x) * 4;
    var oldPixel := data[idx];
    var newPixel: Byte := if oldPixel < threshold then 0 else 255;
    var error := (oldPixel - newPixel) as real * errorDiffusion;
    assert newPixel == Quantize(oldPixel, threshold);
    assert error == QuantizationError(oldPixel, newPixel, errorDiffusion);
    data[idx] := newPixel;
    data[idx + 1] := newPixel;
    data[idx + 2] := newPixel;
    DistributeError(data, width, height, x, y, error, pattern);
  }

  /**
   * The raster loop every kernel runs: DiffusePixel on each pixel in
   * row-major order. Afterwards every pixel is black or white and no alpha
   * byte has changed.
   */
  method ErrorDiffuse(img: ImageData, threshold: int, errorDiffusion: real, pattern: seq<Tap>)
    requires img.Valid() && AllForward(pattern)
    modifies img.data
    ensures img.data[..] == Diffused(old(img.data[..]), img.width, img.height, threshold, errorDiffusion, pattern, img.width * img.height)
    ensures forall q :: 0 <= q < img.width * img.height ==> GrayAt(img.data[..], q, 0) || GrayAt(img.data[..], q, 255)
    ensures forall q :: 0 <= q < img.width * img.height ==> Channel(img.data[..], q, 3) == Channel(old(img.data[..]), q, 3)
  {
    var data, width, height := img.data, img.width, img.height;
    ghost var s0 := data[..];
    ghost var done: nat := 0;
    for y := 0 to height
      invariant done == y * width <= width * height
      invariant data[..] == Diffused(s0, width, height, threshold, errorDiffusion, pattern, done)
    {
      for x := 0 to width
        invariant done == y * width + x <= width * height
        invariant data[..] == Diffused(s0, width, height, threshold, errorDiffusion, pattern, done)
      {
        PixelInImage(x, y, width, height);
        ghost var before := data[..];
        DiffusePixel(data, width, height, x, y, threshold, errorDiffusion, pattern);
        ghost var n := done;
        done := done + 1;
        DiffusedAdvance(s0, width, height, threshold, errorDiffusion, pattern, x, y, n, done, before, data[..]);
      }
      NextRow(y, width, height);
    }
    assert done == width * height;
    DiffusedBinary(s0, width, height, threshold, errorDiffusion, pattern, width * height);
  }

  lemma {:induction false} NextRow(y: nat, w: nat, h: nat)
    requires y < h
    ensures y * w + w == (y + 1) * w <= w * h
    ensures y + 1 == h ==> (y + 1) * w == w * h
  {
    if w > 0 && y + 1 < h {
      PixelInImage(w - 1, y + 1, w, h);
    }
  }

  /** The options object a kernel destructures. */
  datatype KernelOptions = KernelOptions(threshold: Option<int>, errorDiffusion: Option<real>, colorLevels: Option<int>)

  /** floydSteinberg: the raster pass with the Floyd-Steinberg pattern, threshold 128 and errorDiffusion 1.0 by default. */
  method FloydSteinberg(img: ImageData, options: KernelOptions)
    requires img.Valid()
    modifies img.data
    ensures img.data[..] == Diffused(old(img.data[..]), img.width, img.height,
      options.threshold.GetOr(128), options.errorDiffusion.GetOr(1.0), FloydSteinbergPattern(), img.width * img.height)
  {
    ErrorDiffuse(img, options.threshold.GetOr(128), options.errorDiffusion.GetOr(1.0), FloydSteinbergPattern());
  }

  /** jarvisJudiceNinke: the raster pass with the twelve-neighbour pattern, threshold 128 and errorDiffusion 1.0 by default. */
  method JarvisJudiceNinke(img: ImageData, options: KernelOptions)
    requires img.Valid()
    modifies img.data
    ensures img.data[..] == Diffused(old(img.data[..]), img.width, img.height,
      options.threshold.GetOr(128), options.errorDiffusion.GetOr(1.0), JarvisJudiceNinkePattern(), img.width * img.height)
  {
    ErrorDiffuse(img, options.threshold.GetOr(128), options.errorDiffusion.GetOr(1.0), JarvisJudiceNinkePattern());
  }

  /** atkinson: the raster pass with the six-neighbour pattern, threshold 128 and errorDiffusion 0.875 by default. */
  method Atkinson(img: ImageData, options: KernelOptions)
    requires img.Valid()
    modifies img.data
    ensures img.data[..] == Diffused(old(img.data[..]), img.width, img.height,
      options.threshold.GetOr(128), options.errorDiffusion.GetOr(0.875), AtkinsonPattern(), img.width * img.height)
  {
    ErrorDiffuse(img, options.threshold.GetOr(128), options.errorDiffusion.GetOr(0.875), AtkinsonPattern());
  }

  // ----- dither ------------------------------------------------------------------

  /** The options object `dither` destructures; every field may be undefined. */
  datatype DitherOptions = DitherOptions(
    algorithm: Option<string>,
    threshold: Option<int>,
    errorDiffusion: Option<real>,
    colorLevels: Option<int>,
    convertToGrayscale: Option<bool>)

  /**
   * What `dither` computes from the bytes of a width x height image: the
   * copy, converted to grayscale unless disabled, run through the named
   * kernel with the threshold and errorDiffusion that `dither` passes on
   * (128 and 1.0 by default, for every kernel). An unknown name is an error.
   */
  function Dithered(s: seq<Byte>, w: nat, h: nat, options: DitherOptions): Result<seq<Byte>, string>
    requires w > 0 && |s| == w * h * 4
  {
    var algorithm := options.algorithm.GetOr("floyd-steinberg");
    var g := if options.convertToGrayscale.GetOr(true) then Grayscale(s) else s;
    match AlgorithmKernel(algorithm)
    case None => Err("Unknown algorithm: " + algorithm)
    case Some(k) =>
      Ok(Diffused(g, w, h, options.threshold.GetOr(128), options.errorDiffusion.GetOr(1.0), KernelPattern(k), w * h))
  }

  /**
   * dither: the caller's image is left as it is; a new ImageData of the
   * same size holds the dithered bytes, or the call fails with
   * "Unknown algorithm: <name>" when the name is not in the table.
   */
  method Dither(img: ImageData, options: DitherOptions) returns (r: Result<ImageData, string>)
    requires img.Valid()
    ensures img.data[..] == old(img.data[..])
    ensures r.Ok? <==> AlgorithmKernel(options.algorithm.GetOr("floyd-steinberg")).Some?
    ensures r.Err? ==> r.error == "Unknown algorithm: " + options.algorithm.GetOr("floyd-steinberg")
    ensures r.Ok? ==>
      && fresh(r.value) && fresh(r.value.data) && r.value.Valid()
      && r.value.width == img.width && r.value.height == img.height
      && r.value.data[..] == Dithered(img.data[..], img.width, img.height, options).value
  {
    var algorithm := options.algorithm.GetOr("floyd-steinberg");
    var threshold := options.threshold.GetOr(128);
    var errorDiffusion := options.errorDiffusion.GetOr(1.0);
    var colorLevels := options.colorLevels.GetOr(2);
    var s := img.data[..];
    var copy := new Byte[|s|](i requires 0 <= i < |s| => s[i]);
    assert copy[..] == s;
    var dithered := new ImageData(copy, img.width, img.height);
    if options.convertToGrayscale.GetOr(true) {
      ConvertToGrayscale(dithered);
    }
    var kernelOptions := KernelOptions(Some(threshold), Some(errorDiffusion), Some(colorLevels));
    match AlgorithmKernel(algorithm) {
      case None =>
        return Err("Unknown algorithm: " + algorithm);
      case Some(FloydSteinbergKernel) =>
        FloydSteinberg(dithered, kernelOptions);
      case Some(JarvisJudiceNinkeKernel) =>
        JarvisJudiceNinke(dithered, kernelOptions);
      case Some(AtkinsonKernel) =>
        Atkinson(dithered, kernelOptions);
    }
    return Ok(dithered);
  }

  /**
   * A successful dither has the input's size, leaves every pixel black or
   * white on R, G and B, and keeps every alpha byte of the input.
   */
  lemma {:induction false} DitheredOutput(s: seq<Byte>, w: nat, h: nat, options: DitherOptions)
    requires w > 0 && |s| == w * h * 4
    ensures Dithered(s, w, h, options).Ok? ==>
      var r := Dithered(s, w, h, options).value;
      && |r| == |s|
      && (forall q :: 0 <= q < w * h ==> GrayAt(r, q, 0) || GrayAt(r, q, 255))
      && (forall q :: 0 <= q < w * h ==> Channel(r, q, 3) == Channel(s, q, 3))
  {
    var algorithm := options.algorithm.GetOr("floyd-steinberg");
    if AlgorithmKernel(algorithm).Some? {
      QuadBound(0, w * h);
      var g := if options.convertToGrayscale.GetOr(true) then Grayscale(s) else s;
      var k := AlgorithmKernel(algorithm).value;
      var threshold, errorDiffusion := options.threshold.GetOr(128), options.errorDiffusion.GetOr(1.0);
      assert Dithered(s, w, h, options) == Ok(Diffused(g, w, h, threshold, errorDiffusion, KernelPattern(k), w * h));
      if options.convertToGrayscale.GetOr(true) {
        GrayscalePixels(s);
      }
      forall q | 0 <= q < w * h
        ensures Channel(g, q, 3) == Channel(s, q, 3)
      {
        assert 4 * q + 3 < |s|;
      }
      DiffusedBinary(g, w, h, threshold, errorDiffusion, KernelPattern(k), w * h);
    }
  }

  /**
   * A 2 x 1 image, gray 200 then gray 50, dithered with the defaults: the
   * first pixel becomes white and passes -55 * 7/16 to its right neighbour,
   * which drops to 26 and becomes black.
   */
  lemma {:induction false} TwoPixelFloydSteinberg()
    ensures Dithered([200, 200, 200, 255, 50, 50, 50, 255], 2, 1, DitherOptions(None, None, None, None, None))
      == Ok([255, 255, 255, 255, 0, 0, 0, 255])
  {
    var s: seq<Byte> := [200, 200, 200, 255, 50, 50, 50, 255];
    var fs := FloydSteinbergPattern();
    GrayscalePixels(s);
    assert Grayscale(s) == s by {
      var g := Grayscale(s);
      assert g[0] == Channel(g, 0, 0) && g[1] == Channel(g, 0, 1) && g[2] == Channel(g, 0, 2) && g[3] == Channel(g, 0, 3);
      assert g[4] == Channel(g, 1, 0) && g[5] == Channel(g, 1, 1) && g[6] == Channel(g, 1, 2) && g[7] == Channel(g, 1, 3);
    }
    var after0: seq<Byte> := [255, 255, 255, 255, 26, 26, 26, 255];
    TwoPixelFirstStep();
    // Pixel 1: 26 < 128 becomes black; every tap from the last pixel falls outside the image.
    var mid1: seq<Byte> := [255, 255, 255, 255, 0, 0, 0, 255];
    var error1 := QuantizationError(26, 0, 1.0);
    DiffusedNext(s, 2, 1, 128, 1.0, fs, 1, 0);
    assert after0[4 := 0][5 := 0][6 := 0] == mid1;
    assert Diffused(s, 2, 1, 128, 1.0, fs, 2) == Distribute(mid1, 2, 1, 1, 0, error1, fs);
    var d1 := Distribute(mid1, 2, 1, 1, 0, error1, fs);
    TargetsAfter(2, 1, 1, 0, fs);
    DistributeFrame(mid1, 2, 1, 1, 0, error1, fs);
    assert d1 == mid1 by {
      assert d1[0] == Channel(d1, 0, 0) && d1[1] == Channel(d1, 0, 1) && d1[2] == Channel(d1, 0, 2) && d1[3] == Channel(d1, 0, 3);
      assert d1[4] == Channel(d1, 1, 0) && d1[5] == Channel(d1, 1, 1) && d1[6] == Channel(d1, 1, 2) && d1[7] == Channel(d1, 1, 3);
    }
  }

  /** Pixel 0 of the two-pixel image: 200 >= 128 becomes white; the error -55 reaches pixel 1 through the 7/16 tap. */
  lemma {:induction false} TwoPixelFirstStep()
    ensures Diffused([200, 200, 200, 255, 50, 50, 50, 255], 2, 1, 128, 1.0, FloydSteinbergPattern(), 1)
      == [255, 255, 255, 255, 26, 26, 26, 255]
  {
    var s: seq<Byte> := [200, 200, 200, 255, 50, 50, 50, 255];
    var fs := FloydSteinbergPattern();
    var mid0: seq<Byte> := [255, 255, 255, 255, 50, 50, 50, 255];
    var error0 := QuantizationError(200, 255, 1.0);
    DiffusedNext(s, 2, 1, 128, 1.0, fs, 0, 0);
    assert s[0 := 255][1 := 255][2 := 255] == mid0;
    assert Diffused(s, 2, 1, 128, 1.0, fs, 1) == Distribute(mid0, 2, 1, 0, 0, error0, fs);
    var d0 := Distribute(mid0, 2, 1, 0, 0, error0, fs);
    TargetsAfter(2, 1, 0, 0, fs);
    DistributeFrame(mid0, 2, 1, 0, 0, error0, fs);
    assert TargetPixel(2, 1, 0, 0, fs[0]) == Some(1);
    ClampedStoreSpec(50.0 + Share(error0, fs[0]));
    assert AddClamped(50, Share(error0, fs[0])) == 26;
    DistributeEffect(mid0, 2, 1, 0, 0, error0, fs, 0, 0);
    DistributeEffect(mid0, 2, 1, 0, 0, error0, fs, 0, 1);
    DistributeEffect(mid0, 2, 1, 0, 0, error0, fs, 0, 2);
    assert d0[0] == Channel(d0, 0, 0) && d0[1] == Channel(d0, 0, 1) && d0[2] == Channel(d0, 0, 2) && d0[3] == Channel(d0, 0, 3);
    assert d0[4] == Channel(d0, 1, 0) && d0[5] == Channel(d0, 1, 1) && d0[6] == Channel(d0, 1, 2) && d0[7] == Channel(d0, 1, 3);
  }
}
