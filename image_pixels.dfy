/**
 * The browser's ImageData as the engine and the palette code see it: a
 * width x height raster stored row by row, four bytes per pixel (R, G, B, A).
 */
module ImagePixels {
  import opened Numeric

  /**
   * An ImageData object. Its width, height and the reference to its byte
   * array are read-only; the bytes themselves are written in place.
   */
  class ImageData {
    const width: nat
    const height: nat
    const data: array<Byte>

    /** What the ImageData constructor checks: a non-empty raster with four bytes per pixel. */
    predicate Valid() {
      width > 0 && height > 0 && data.Length == width * height * 4
    }

    constructor (data: array<Byte>, width: nat, height: nat)
      requires width > 0 && height > 0 && data.Length == width * height * 4
      ensures this.data == data && this.width == width && this.height == height
      ensures Valid()
    {
      this.data := data;
      this.width := width;
      this.height := height;
    }
  }

  /** Channel c (0 = R, 1 = G, 2 = B, 3 = A) of pixel p. */
  function Channel(s: seq<Byte>, p: nat, c: nat): Byte
    requires c < 4 && 4 * p + c < |s|
  {
    s[4 * p + c]
  }

  /** R, G and B of pixel p set to r, g and b. */
  function SetRgb(s: seq<Byte>, p: nat, r: Byte, g: Byte, b: Byte): (t: seq<Byte>)
    requires 4 * p + 3 < |s|
    ensures |t| == |s|
  {
    s[4 * p := r][4 * p + 1 := g][4 * p + 2 := b]
  }

  /** SetRgb writes R, G and B of its pixel and leaves every other byte, alpha included, alone. */
  lemma {:induction false} SetRgbChannels(s: seq<Byte>, p: nat, r: Byte, g: Byte, b: Byte)
    requires 4 * p + 3 < |s|
    ensures Channel(SetRgb(s, p, r, g, b), p, 0) == r
    ensures Channel(SetRgb(s, p, r, g, b), p, 1) == g
    ensures Channel(SetRgb(s, p, r, g, b), p, 2) == b
    ensures forall q: nat, c: nat :: 4 * q + 3 < |s| && c < 4 && (c == 3 || q != p) ==>
      Channel(SetRgb(s, p, r, g, b), q, c) == Channel(s, q, c)
  {
    forall q: nat, c: nat | 4 * q + 3 < |s| && c < 4 && (c == 3 || q != p)
      ensures Channel(SetRgb(s, p, r, g, b), q, c) == Channel(s, q, c)
    {
      if q < p {
        assert 4 * q + c < 4 * p;
      } else if q > p {
        assert 4 * q + c >= 4 * p + 4;
      }
    }
  }

  /** Pixel p holds the gray level v on all of R, G and B. */
  predicate GrayAt(s: seq<Byte>, p: nat, v: Byte)
    requires 4 * p + 3 < |s|
  {
    Channel(s, p, 0) == v && Channel(s, p, 1) == v && Channel(s, p, 2) == v
  }

  /** The pixel at column x of row y lies inside a width x height raster. */
  lemma {:induction false} PixelInImage(x: nat, y: nat, w: nat, h: nat)
    requires x < w && y < h
    ensures y * w + x < w * h
  {
    assert y * w + x < y * w + w == (y + 1) * w;
    assert (y + 1) * w <= h * w by {
      assert y + 1 <= h;
    }
  }

  /** Pixel number y * w + x sits at column x of row y. */
  lemma {:induction false} RasterPosition(x: nat, y: nat, w: nat)
    requires x < w
    ensures (y * w + x) / w == y && (y * w + x) % w == x
  {
    var n := y * w + x;
    var q, r := n / w, n % w;
    assert n == q * w + r && 0 <= r < w;
    assert (q - y) * w == x - r;
    MultipleOfWidth(q - y, w);
  }

  /** Pixel number p of a width-w raster with w * h pixels sits at column p % w of row p / w < h. */
  lemma {:induction false} PixelPosition(p: nat, w: nat, h: nat)
    requires w > 0 && p < w * h
    ensures p % w < w && p / w < h && (p / w) * w + p % w == p
  {
    var q := p / w;
    assert p == q * w + p % w;
    MultipleOfWidth(q - h, w);
    assert (q - h) * w == q * w - h * w;
  }

  /** A non-zero multiple of w is at least w away from zero. */
  lemma {:induction false} MultipleOfWidth(k: int, w: int)
    requires w >= 0
    ensures k >= 1 ==> k * w >= w
    ensures k <= -1 ==> k * w <= 0 - w
  {
  }

  /** A byte index that is a multiple of 4 and inside a buffer of whole pixels leaves room for the whole pixel. */
  lemma {:induction false} QuadBound(i: nat, n: nat)
    requires i % 4 == 0
    ensures (n * 4) % 4 == 0 && (n * 4) / 4 == n
    ensures i < n * 4 ==> i + 3 < n * 4
  {
  }
}
