# Complete Dithering Suite — a Dafny model of the dithering engine and the palette tools

This project models the image-processing core of the Complete Dithering Suite,
an Electron application that turns pictures into 1-bit dithered images and
manages retro colour palettes. It covers two classes of the renderer.

- `DitheringEngine` (`src/renderer/js/ditheringEngine.js`) works in place on
  the RGBA bytes of an `ImageData`:
  - grayscale conversion with the 0.299/0.587/0.114 luminance weights;
  - three error-diffusion kernels: Floyd-Steinberg, Jarvis-Judice-Ninke and
    Atkinson. Each thresholds every pixel in raster order to 0 or 255 and
    spreads the scaled quantization error to forward neighbours through
    `distributeError`;
  - the `dither` entry point, which copies the image, optionally converts it
    to grayscale and dispatches on the algorithm name;
  - the algorithm list and the algorithm metadata.
- `ColorPalettes` (`src/renderer/js/colorPalettes.js`) covers:
  - the six preset palettes;
  - palette extraction from an image: the unique colours, then k-means
    quantization with Lloyd rounds;
  - nearest-colour search;
  - the RGB/HSV conversions;
  - the hue, saturation, brightness and contrast adjustments of a colour or a
    whole palette;
  - tinted grayscale.

The model follows the source's own form.

- The engine's methods are Dafny methods that mutate an `array<Byte>` held by
  an `ImageData` class. Each is proved equal to a specification function over
  the byte sequence: `Distribute`, `Grayscale`, `DiffuseAt`, `Diffused`.
  Lemmas then prove what the source promises about those functions:
  - the frame of `distributeError` and its effect on every target;
  - forward-only error flow;
  - binary output and untouched alpha;
  - the meaning of the threshold;
  - the kernels' weight sums;
  - the fixed point of grayscale conversion;
  - the concrete two-pixel scenario.
- The palette code's loops (`extractUniqueColors`, `initializeCentroids`,
  `assignToClusters`, the k-means loop of `quantizeColors` and
  `findNearestColor`) are methods proved against recursive functions or,
  for `initializeCentroids`, a sequence comprehension.
- Its pure parts (HSV, adjustments, preset tables) are functions with
  lemmas. The main lemmas are:
  - the exact round trip `hsvToRgb(rgbToHsv(c)) == c` for every byte colour;
  - that neutral adjustments leave a colour or a palette unchanged;
  - range, partition and membership facts for the clustering.

Numbers are modelled exactly.

- A byte written into a `Uint8ClampedArray` is clamped to [0, 255] and then
  rounded half to even (`Numeric.ClampedStore`).
- `Math.round` rounds half up (`Numeric.RoundHalfUp`).
- JavaScript's `%` is the truncated remainder (`Numeric.JsRem`). The hue
  arithmetic can feed it negative values.
- Weights, luminance and HSV values are exact rationals, not doubles.

## Model

| member | source | states |
|---|---|---|
| Numeric.RoundHalfUp | src/renderer/js/colorPalettes.js:383 | `Math.round` gives the integer within one half of its argument, taking the upper one on a tie |
| Numeric.RoundHalfUpInt | src/renderer/js/colorPalettes.js:383 | rounding an integer-valued number gives that integer back |
| Numeric.RoundHalfUpWithin | src/renderer/js/colorPalettes.js:199-203 | a value between two integers rounds to a value between them |
| Numeric.RoundHalfUpMonotone | src/renderer/js/colorPalettes.js:319-321 | rounding preserves order |
| Numeric.Clamp | src/renderer/js/ditheringEngine.js:244-246 | `Math.max(lo, Math.min(hi, x))` lies in [lo, hi], is x inside the range and the nearer bound outside it |
| Numeric.RoundHalfEvenNearest | src/renderer/js/ditheringEngine.js:244-246 | the clamped-array store rounds to the nearest integer, and to the even one on a tie |
| Numeric.ClampedStoreSpec | src/renderer/js/ditheringEngine.js:244-246 | a store of x gives 0 for x <= 0, 255 for x >= 255 and otherwise a byte within one half of x |
| Numeric.ClampedStoreByte | src/renderer/js/ditheringEngine.js:92-94 | storing a value that is already a byte keeps it |
| Numeric.RemBounds | src/renderer/js/colorPalettes.js:365 | the remainder by 360 (or 2) takes the dividend's sign, stays below the modulus in size, is the dividend on [0, m) and the dividend minus m on [m, 2m) |
| ImagePixels.ImageData.constructor | src/renderer/js/ditheringEngine.js:39-43 | a new image holds the given byte array, width and height, with four bytes per pixel |
| ImagePixels.SetRgbChannels | src/renderer/js/ditheringEngine.js:244-246 | writing a pixel's red, green and blue sets exactly those three bytes; alpha and every other pixel keep their values |
| ErrorDiffusion.Luminance | src/renderer/js/ditheringEngine.js:85-89 | the rounded weighted luminance lies between the darkest and the brightest channel and is the channel value itself for a gray pixel |
| ErrorDiffusion.GrayscaleAdvance | src/renderer/js/ditheringEngine.js:83-96 | converting one more pixel extends the converted prefix by that pixel |
| ErrorDiffusion.GrayscalePrefixPixels | src/renderer/js/ditheringEngine.js:83-96 | after n pixels, each of the first n pixels has R = G = B = its luminance and every other byte is the original |
| ErrorDiffusion.GrayscalePixels | src/renderer/js/ditheringEngine.js:80-97 | after conversion every pixel is gray at its own luminance and keeps its alpha |
| ErrorDiffusion.GrayscaleIdempotent | src/renderer/js/ditheringEngine.js:80-97 | converting an already converted image changes nothing |
| ErrorDiffusion.RasterOrderDistinct | src/renderer/js/ditheringEngine.js:169-182 | taps listed in strict raster order have pairwise distinct offsets |
| ErrorDiffusion.RasterOrderForward | src/renderer/js/ditheringEngine.js:169-182 | if the first tap of a raster-ordered list points forward, every tap does |
| ErrorDiffusion.FloydSteinbergPattern | src/renderer/js/ditheringEngine.js:131-136 | four taps with weights summing to 1, all forward, at distinct offsets |
| ErrorDiffusion.JarvisJudiceNinkePattern | src/renderer/js/ditheringEngine.js:169-182 | twelve taps with weights summing to 1, all forward, at distinct offsets |
| ErrorDiffusion.AtkinsonPattern | src/renderer/js/ditheringEngine.js:211-218 | six taps of 1/8 each, so only 6/8 of the error is passed on, all forward, at distinct offsets |
| ErrorDiffusion.Quantize | src/renderer/js/ditheringEngine.js:120-121 | the new pixel is 0 or 255, and it is 255 exactly when the old value is not below the threshold |
| ErrorDiffusion.TargetPixel | src/renderer/js/ditheringEngine.js:235-240 | a neighbour that passes the bounds test is a pixel of the image |
| ErrorDiffusion.ApplyTap | src/renderer/js/ditheringEngine.js:239-247 | one tap changes only R, G and B of its in-bounds target, each to the clamped store of the old value plus error times weight |
| ErrorDiffusion.ApplyTapAt | src/renderer/js/ditheringEngine.js:240-246 | an in-bounds tap writes those three adjusted channels into the target pixel |
| ErrorDiffusion.DistributeSnoc | src/renderer/js/ditheringEngine.js:234-248 | applying the first i+1 taps is applying tap i after the first i |
| ErrorDiffusion.TargetForward | src/renderer/js/ditheringEngine.js:235-240 | a forward tap's target comes after the current pixel in raster order |
| ErrorDiffusion.TargetsAfter | src/renderer/js/ditheringEngine.js:233-249 | every pixel a forward pattern reaches lies after the current pixel |
| ErrorDiffusion.DistributeFrame | src/renderer/js/ditheringEngine.js:233-249 | distributing the error changes no alpha byte and no pixel outside the pattern's targets |
| ErrorDiffusion.TargetInjective | src/renderer/js/ditheringEngine.js:235-240 | two taps that reach the same pixel have the same offset |
| ErrorDiffusion.TargetsExclude | src/renderer/js/ditheringEngine.js:233-249 | with distinct offsets, a tap's target is not reached by any earlier tap |
| ErrorDiffusion.DistributeEffect | src/renderer/js/ditheringEngine.js:233-249 | with distinct offsets, each reached pixel's colour channels end as the clamped store of their old value plus that tap's share of the error |
| ErrorDiffusion.DiffusedNext | src/renderer/js/ditheringEngine.js:115-138 | processing the pixel at (x, y) extends the raster-order prefix by one step |
| ErrorDiffusion.DiffusedAdvance | src/renderer/js/ditheringEngine.js:115-138 | the loop's one-step update of the buffer is the next prefix of the raster order |
| ErrorDiffusion.DiffuseAtStep | src/renderer/js/ditheringEngine.js:118-136 | one step makes the current pixel gray at its quantized value and leaves earlier pixels and all alpha bytes alone |
| ErrorDiffusion.DiffusedPixel | src/renderer/js/ditheringEngine.js:115-138 | once reached, a pixel stays gray at the quantization of the value it had when its turn came |
| ErrorDiffusion.DiffusedBinary | src/renderer/js/ditheringEngine.js:115-138 | every processed pixel is black or white, and every alpha byte is the original |
| ErrorDiffusion.DiffusedThresholdOutOfRange | src/renderer/js/ditheringEngine.js:120-121 | a threshold <= 0 makes every processed pixel white, and one above 255 makes every processed pixel black |
| ErrorDiffusion.DistributeZero | src/renderer/js/ditheringEngine.js:233-249 | a zero error leaves the buffer unchanged |
| ErrorDiffusion.DiffuseAtZero | src/renderer/js/ditheringEngine.js:118-136 | with errorDiffusion 0 a step only thresholds the current pixel |
| ErrorDiffusion.DiffusedWithoutError | src/renderer/js/ditheringEngine.js:115-138 | with errorDiffusion 0 the result is plain thresholding of the original red channel, with alpha and unprocessed pixels untouched |
| ErrorDiffusion.DiffusedAlpha | src/renderer/js/ditheringEngine.js:124-128 | the alpha channel never changes |
| ErrorDiffusion.DiffusedStable | src/renderer/js/ditheringEngine.js:115-138 | pixels already processed are never written again |
| DitheringEngine.KernelPattern | src/renderer/js/ditheringEngine.js:2-7 | every registered kernel's pattern is forward-only with distinct offsets |
| DitheringEngine.GetAvailableAlgorithms | src/renderer/js/ditheringEngine.js:255-257 | the list holds exactly the registered names, each once |
| DitheringEngine.GetAlgorithmInfo | src/renderer/js/ditheringEngine.js:264-290 | the metadata is present exactly for a registered name (null otherwise) and is that kernel's entry |
| DitheringEngine.AlgorithmInfoNeighbors | src/renderer/js/ditheringEngine.js:265-287 | each kernel's advertised "N neighbors" names the number of taps in its pattern |
| DitheringEngine.DistributeError | src/renderer/js/ditheringEngine.js:233-249 | the in-place loop leaves the array equal to the specification `Distribute` of its old contents |
| DitheringEngine.ConvertToGrayscale | src/renderer/js/ditheringEngine.js:80-97 | the in-place loop leaves the image equal to `Grayscale` of its old bytes |
| DitheringEngine.DiffusePixel | src/renderer/js/ditheringEngine.js:118-136 | one loop body (threshold, write, distribute) equals the specification step `DiffuseAt` |
| DitheringEngine.ErrorDiffuse | src/renderer/js/ditheringEngine.js:115-138 | the raster loop leaves the image equal to `Diffused` of its old bytes; every pixel ends black or white and keeps its alpha |
| DitheringEngine.FloydSteinberg | src/renderer/js/ditheringEngine.js:104-139 | Floyd-Steinberg dithers with the given or default threshold (128) and error factor (1.0) |
| DitheringEngine.JarvisJudiceNinke | src/renderer/js/ditheringEngine.js:146-185 | Jarvis-Judice-Ninke dithers with the given or default threshold (128) and error factor (1.0) |
| DitheringEngine.Atkinson | src/renderer/js/ditheringEngine.js:192-221 | Atkinson dithers with the given or default threshold (128) and error factor (0.875) |
| DitheringEngine.Dither | src/renderer/js/ditheringEngine.js:22-73 | the caller's image is untouched; the call fails with "Unknown algorithm: name" exactly for an unregistered name, and otherwise returns a fresh image of the same size holding the dithered copy |
| DitheringEngine.DitheredOutput | src/renderer/js/ditheringEngine.js:22-73 | a successful dither keeps the length, makes every pixel black or white and keeps every alpha byte |
| DitheringEngine.TwoPixelFloydSteinberg | src/renderer/js/ditheringEngine.js:104-139 | the 2x1 image [200,200,200,255, 50,50,50,255] dithers to [255,255,255,255, 0,0,0,255] under the defaults |
| DitheringEngine.TwoPixelFirstStep | src/renderer/js/ditheringEngine.js:131-136 | after the first pixel, its error of -55 times 7/16 has moved the second pixel from 50 to 26 |
| ColorSpace.Max3 | src/renderer/js/colorPalettes.js:267 | `Math.max` of three values is one of them and not below any |
| ColorSpace.Min3 | src/renderer/js/colorPalettes.js:268 | `Math.min` of three values is one of them and not above any |
| ColorSpace.RgbToHsvRange | src/renderer/js/colorPalettes.js:262-286 | a byte colour has hue in [0, 360) and saturation and value in [0, 100] |
| ColorSpace.RgbToHsvGray | src/renderer/js/colorPalettes.js:272-276 | a gray colour has hue 0, saturation 0 and value r/255*100 |
| ColorSpace.HueRange | src/renderer/js/colorPalettes.js:275-283 | every branch of the hue computation lands in [0, 360) |
| ColorSpace.SaturationRange | src/renderer/js/colorPalettes.js:272 | saturation is in [0, 1] before scaling |
| ColorSpace.HsvToRgbInRange | src/renderer/js/colorPalettes.js:293-323 | any non-negative hue with saturation and value in [0, 100] gives a byte colour |
| ColorSpace.SecondaryWithin | src/renderer/js/colorPalettes.js:299 | the secondary component lies between 0 and the chroma |
| ColorSpace.SectorInRange | src/renderer/js/colorPalettes.js:304-322 | every sector produces byte channels |
| ColorSpace.SectorSpan | src/renderer/js/colorPalettes.js:304-322 | in every sector the largest channel is round((c+m)*255) and the smallest is round(m*255) |
| ColorSpace.HsvToRgbBrightest | src/renderer/js/colorPalettes.js:293-323 | the brightest output channel is round(v/100*255) |
| ColorSpace.HsvToRgbDarkest | src/renderer/js/colorPalettes.js:293-323 | the darkest output channel is round((v - chroma)*255) |
| ColorSpace.ChromaWithin | src/renderer/js/colorPalettes.js:298 | the chroma lies in [0, v] |
| ColorSpace.RgbHsvRoundTrip | src/renderer/js/colorPalettes.js:262-323 | converting a byte colour to HSV and back gives the same colour |
| ColorSpace.RoundTripSector | src/renderer/js/colorPalettes.js:262-323 | the round trip reduces to the sector function on the colour's own hue, chroma and darkest channel |
| ColorSpace.ChromaOfColor | src/renderer/js/colorPalettes.js:270-272 | value times saturation is the spread between the brightest and darkest channel |
| ColorSpace.RoundTripRed | src/renderer/js/colorPalettes.js:277-278 | for a non-gray byte colour whose red channel is a maximum (ties included), the sector recovers the colour |
| ColorSpace.RoundTripGreen | src/renderer/js/colorPalettes.js:279-280 | for a non-gray byte colour whose red is not a maximum and whose green is, the sector recovers the colour |
| ColorSpace.RoundTripBlue | src/renderer/js/colorPalettes.js:281-282 | for a non-gray byte colour in which neither red nor green is a maximum, the sector recovers the colour |
| ColorAdjust.Brighten | src/renderer/js/colorPalettes.js:374-376 | the brightness step stays in [0, 255] |
| ColorAdjust.ApplyContrast | src/renderer/js/colorPalettes.js:392-401 | the contrast step stays in [0, 255] |
| ColorAdjust.ContrastNeutral | src/renderer/js/colorPalettes.js:392-401 | contrast 100 leaves any channel value in [0, 255] unchanged |
| ColorAdjust.ContrastPivot | src/renderer/js/colorPalettes.js:397 | mid-gray 127.5 is fixed by every contrast |
| ColorAdjust.ContrastDirection | src/renderer/js/colorPalettes.js:392-401 | contrast above 100 pushes values away from mid-gray, and below 100 pulls them towards it without crossing |
| ColorAdjust.FinishChannel | src/renderer/js/colorPalettes.js:374-383 | brightness, contrast and rounding give a byte |
| ColorAdjust.AdjustColor | src/renderer/js/colorPalettes.js:353-384 | every adjusted colour is a byte colour |
| ColorAdjust.AdjustColorNeutral | src/renderer/js/colorPalettes.js:353-384 | with no shift, 100% saturation, brightness and contrast, a byte colour comes back unchanged |
| ColorAdjust.FinishNeutral | src/renderer/js/colorPalettes.js:374-383 | neutral brightness and contrast keep a byte channel |
| ColorAdjust.AdjustColorFullTurn | src/renderer/js/colorPalettes.js:365 | shifting the hue by a further 360 degrees gives the same colour |
| ColorAdjust.HueShiftTurn | src/renderer/js/colorPalettes.js:365 | adding 360 to a non-negative dividend does not change its remainder by 360 |
| ColorAdjust.CreateTintedGrayscale | src/renderer/js/colorPalettes.js:409-435 | the tinted gray is a byte colour |
| ColorAdjust.TintedGrayscaleUnsaturated | src/renderer/js/colorPalettes.js:421-434 | without saturation the result is gray, and at brightness 100 it is the rounded luminance |
| ColorAdjust.TintedGrayscaleKeepsLuminance | src/renderer/js/colorPalettes.js:424-434 | with saturation in (0, 100] and brightness 100, the tint's brightest channel is the rounded luminance |
| ColorAdjust.BrightenKeepsMax | src/renderer/js/colorPalettes.js:430-434 | brightness 100 keeps the brightest channel |
| ColorAdjust.BrightenByte | src/renderer/js/colorPalettes.js:430-434 | brightness 100 keeps a byte channel and any upper bound on it |
| ColorAdjust.HueShiftOverridesOffset | src/renderer/js/colorPalettes.js:418 | a non-zero hueShift makes the legacy hueOffset irrelevant |
| ColorAdjust.HueOffsetFallback | src/renderer/js/colorPalettes.js:418 | with a zero hueShift the legacy hueOffset acts as the shift |
| ColorQuantization.PixelColor | src/renderer/js/colorPalettes.js:105-107 | a pixel's colour is a byte colour |
| ColorQuantization.UniqueColorsDistinct | src/renderer/js/colorPalettes.js:100-115 | the extracted colours are pairwise distinct |
| ColorQuantization.UniqueColorsMembers | src/renderer/js/colorPalettes.js:100-115 | every pixel's colour is extracted, and every extracted colour is some pixel's |
| ColorQuantization.UniqueColorsStep | src/renderer/js/colorPalettes.js:104-110 | one loop step adds the pixel's colour at the end only when it is new |
| ColorQuantization.ExtractUniqueColors | src/renderer/js/colorPalettes.js:100-115 | the loop returns the distinct pixel colours in first-seen order |
| ColorQuantization.SquaredDistance | src/renderer/js/colorPalettes.js:229-234 | the squared distance is non-negative and zero exactly for equal colours |
| ColorQuantization.NearestIndex | src/renderer/js/colorPalettes.js:242-255 | the chosen index has minimal distance, and every earlier index is strictly farther (the first minimum wins) |
| ColorQuantization.FindNearestColor | src/renderer/js/colorPalettes.js:242-255 | the loop returns the first nearest palette entry, and nothing (undefined) for an empty palette |
| ColorQuantization.ClosestCluster | src/renderer/js/colorPalettes.js:167-176 | the inner loop finds the first nearest centroid |
| ColorQuantization.ClustersSound | src/renderer/js/colorPalettes.js:163-182 | every clustered colour is an input colour whose nearest centroid is its cluster's |
| ColorQuantization.ClustersComplete | src/renderer/js/colorPalettes.js:163-182 | every input colour sits in the cluster of its nearest centroid |
| ColorQuantization.ClustersMembership | src/renderer/js/colorPalettes.js:163-182 | a colour is in cluster j exactly when it is an input whose nearest centroid is j |
| ColorQuantization.ClustersPartition | src/renderer/js/colorPalettes.js:163-182 | the cluster sizes add up to the number of colours |
| ColorQuantization.ClustersFromColors | src/renderer/js/colorPalettes.js:163-182 | clusters contain only input colours |
| ColorQuantization.AssignToClusters | src/renderer/js/colorPalettes.js:163-182 | the loop builds the clusters of the specification `Clusters` |
| ColorQuantization.UpdateCentroids | src/renderer/js/colorPalettes.js:189-205 | one centroid per cluster, and [0,0,0] for an empty cluster |
| ColorQuantization.TotalWithin | src/renderer/js/colorPalettes.js:193-197 | a channel sum lies between size times the least value and size times the greatest |
| ColorQuantization.MeanWithin | src/renderer/js/colorPalettes.js:199-203 | the rounded mean of values in [lo, hi] stays in [lo, hi] |
| ColorQuantization.CentroidWithin | src/renderer/js/colorPalettes.js:189-205 | each channel of a centroid lies within the range of its cluster's channel values |
| ColorQuantization.CentroidOfBytes | src/renderer/js/colorPalettes.js:189-205 | the centroid of byte colours is a byte colour, and a cluster of one repeated colour has that colour as centroid |
| ColorQuantization.CentroidsEqualIsEquality | src/renderer/js/colorPalettes.js:213-221 | the convergence test holds exactly when the centroid lists are equal |
| ColorQuantization.RandomIndex | src/renderer/js/colorPalettes.js:151 | floor(u * n) for a draw u in [0, 1) is a valid index |
| ColorQuantization.InitialCentroids | src/renderer/js/colorPalettes.js:148-155 | k initial centroids (none for k <= 0), each one of the colours |
| ColorQuantization.InitializeCentroids | src/renderer/js/colorPalettes.js:148-155 | the loop picks the centroids of `InitialCentroids` from the supplied draws |
| ColorQuantization.Lloyd | src/renderer/js/colorPalettes.js:130-137 | the rounds keep the number of centroids |
| ColorQuantization.LloydSettled | src/renderer/js/colorPalettes.js:136 | once an update reproduces the centroids, the result is that update |
| ColorQuantization.LloydAdvance | src/renderer/js/colorPalettes.js:130-137 | after an update that moves the centroids, the remaining rounds continue from it |
| ColorQuantization.LloydBytes | src/renderer/js/colorPalettes.js:130-137 | from byte colours and byte centroids, every round gives byte centroids |
| ColorQuantization.KMeans | src/renderer/js/colorPalettes.js:130-137 | the loop of at most 20 rounds with early exit computes `Lloyd(colors, initial, 20)` |
| ColorQuantization.Quantized | src/renderer/js/colorPalettes.js:123-140 | at most k colours come back unchanged; k <= 0 with some colours fails; otherwise exactly k centroids |
| ColorQuantization.QuantizedBytes | src/renderer/js/colorPalettes.js:123-140 | quantizing byte colours gives byte colours |
| ColorQuantization.QuantizeColors | src/renderer/js/colorPalettes.js:123-140 | the method returns the result of `Quantized` |
| ColorQuantization.GeneratePaletteFromImage | src/renderer/js/colorPalettes.js:90-93 | the palette is the quantization of the image's unique colours to colorCount colours, sixteen when it is left out |
| ColorPalettes.RetroColors | src/renderer/js/colorPalettes.js:17-24 | sixteen byte colours |
| ColorPalettes.CgaColors | src/renderer/js/colorPalettes.js:26-33 | four byte colours |
| ColorPalettes.EgaColors | src/renderer/js/colorPalettes.js:35-42 | sixteen byte colours |
| ColorPalettes.C64Colors | src/renderer/js/colorPalettes.js:44-51 | sixteen byte colours |
| ColorPalettes.GameBoyColors | src/renderer/js/colorPalettes.js:53-60 | four byte colours |
| ColorPalettes.NesColors | src/renderer/js/colorPalettes.js:62-69 | sixteen byte colours |
| ColorPalettes.InitializePresetPalettes | src/renderer/js/colorPalettes.js:15-72 | the table has exactly the six preset keys, each with byte colours; four for cga and gameboy, sixteen for the rest |
| ColorPalettes.GetPresetPalette | src/renderer/js/colorPalettes.js:79-82 | null exactly for a name not in the table, otherwise that preset's colours (4 to 16 byte colours) |
| ColorPalettes.PaletteAdjustments | src/renderer/js/colorPalettes.js:332-344 | all four options are filled in and the legacy hueOffset is dropped |
| ColorPalettes.AdjustPalette | src/renderer/js/colorPalettes.js:331-345 | the adjusted palette has the same length and holds byte colours |
| ColorPalettes.AdjustPaletteEach | src/renderer/js/colorPalettes.js:331-345 | the i-th adjusted colour is adjustColor of the i-th colour |
| ColorPalettes.AdjustColorDefaults | src/renderer/js/colorPalettes.js:332-359 | filling in the defaults first does not change adjustColor's result |
| ColorPalettes.AdjustPaletteNeutral | src/renderer/js/colorPalettes.js:331-345 | neutral adjustments give a byte palette back unchanged |
| ColorPalettes.AdjustPaletteAppend | src/renderer/js/colorPalettes.js:339 | adjusting a concatenation is concatenating the adjusted parts |
| ColorPalettes.GetAdjustedPresetPalette | src/renderer/js/colorPalettes.js:443-448 | null exactly when the preset is missing; otherwise the same length, byte colours, each the adjusted preset colour |
| ColorPalettes.AdjustedPresetNeutral | src/renderer/js/colorPalettes.js:443-448 | with neutral adjustments the adjusted preset is the preset itself |

## Left out

- Logging, timers and the global `window.devLogger` are not modelled. Neither are the DOM, the `window` exports, `module.exports`, or the engine's re-throw of errors after logging. None of these affects the bytes.
- `Math.random` is not called. `initializeCentroids` takes its draws from a caller-supplied sequence of reals in [0, 1) (`randoms`). `ColorQuantization.Quantized`, `QuantizeColors` and `GeneratePaletteFromImage` therefore require enough draws whenever k-means actually runs.
- `colorDistance` is modelled as the squared distance `SquaredDistance`, because `Math.sqrt` is monotone on non-negative numbers. The nearest colour and the cluster choice are unchanged, but the distance value itself is not computed.
- IEEE-754 doubles are replaced by exact rationals. Results that depend on double rounding are not captured, for example a weighted luminance landing exactly on x.5 or a hue ratio that is not exact.
- The algorithm table, the metadata table and the palette table are looked up by the names they define. A name such as "constructor" or "toString" would hit the JavaScript object prototype in the source; that behaviour is not modelled.
- The `colorLevels` option is accepted by `dither` and handed to the kernels, which ignore it. It appears in `DitherOptions` and plays no part in the result.
- `extractUniqueColors` joins each colour into an "r,g,b" string for a `Set` and parses the parts back. The model keeps the colours themselves in first-seen order, which is what that round trip gives back for byte channels.
- ColorQuantization.Quantized: with k <= 0 and at least one colour, the source throws a TypeError inside `assignToClusters`. The model returns an error value there. A non-integer k is not modelled: k is an `int`.
- ColorAdjust.AdjustColorFullTurn: proved only for hue shifts of at least -360. Below that, the source's remainder is negative, and the periodicity then depends on `hsvToRgb`'s handling of negative hues, which this lemma does not cover.
- `getPresetPalette` returns the table's own array, so a caller could mutate the preset in place. Presets are modelled as values and that aliasing is not captured.
- The `ColorPalettes` constructor only builds the preset table, which nothing changes afterwards. It is modelled by the value `InitializePresetPalettes()`, not as a class.
- `ColorQuantization.KMeans` is the loop of `quantizeColors`, written as a separate method so that its invariant stands on its own.
- `ImageData` is the browser's class, which is not part of this model. Only its `width`, `height` and `data` fields are modelled.

## Notes on the code

- **Two-pixel image.** In a 2×1 image, the Floyd-Steinberg tap (+1, 0) carries 7/16 of the first pixel's error of -55 to the second pixel, which goes from 50 to 26 and then thresholds to 0 (`TwoPixelFirstStep`, `TwoPixelFloydSteinberg`).
- **Atkinson's default.** `dither` always passes an `errorDiffusion` to the kernel, 1.0 when its caller gives none, so Atkinson's 0.875 default applies only when `atkinson` is called directly (`Atkinson` and `Dithered`).
- **Offsets.** Neighbour offsets are the kernel's own and are not scaled.
