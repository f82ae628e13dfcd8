/** Per-channel weighted blending and compositing of one raster onto another. */
module Blend {
  import opened Raster

  /** The blend strength the compositing is defined for. */
  predicate ValidAlpha(alpha: real) {
    0.0 <= alpha <= 1.0
  }

  function Min(a: int, b: int): int { if a <= b then a else b }
  function Max(a: int, b: int): int { if a <= b then b else a }

  /** The exact weighted average of two channel values, before truncation. */
  function Weighted(bg: Byte, fg: Byte, alpha: real): real {
    bg as real * (1.0 - alpha) + fg as real * alpha
  }

  lemma MulNonneg(p: real, q: real)
    requires 0.0 <= p && 0.0 <= q
    ensures 0.0 <= p * q
  {
  }

  lemma WeightedBounds(bg: Byte, fg: Byte, alpha: real)
    requires ValidAlpha(alpha)
    ensures Min(bg, fg) as real <= Weighted(bg, fg, alpha) <= Max(bg, fg) as real
  {
    var d := (fg - bg) as real;
    assert Weighted(bg, fg, alpha) == bg as real + d * alpha;
    assert d * alpha + d * (1.0 - alpha) == d;
    if d >= 0.0 {
      MulNonneg(d, alpha);
      MulNonneg(d, 1.0 - alpha);
    } else {
      MulNonneg(-d, alpha);
      MulNonneg(-d, 1.0 - alpha);
      assert -d * alpha == -(d * alpha) && -d * (1.0 - alpha) == -(d * (1.0 - alpha));
    }
  }

  /**
   * One channel: the weighted average truncated to a byte. The result is the
   * largest integer not above the average, lies between the two inputs, is
   * the background at strength 0 and the foreground at strength 1.
   */
  function BlendChannel(bg: Byte, fg: Byte, alpha: real): (c: Byte)
    requires ValidAlpha(alpha)
    ensures c as real <= Weighted(bg, fg, alpha) < c as real + 1.0
    ensures Min(bg, fg) <= c <= Max(bg, fg)
    ensures alpha == 0.0 ==> c == bg
    ensures alpha == 1.0 ==> c == fg
  {
    WeightedBounds(bg, fg, alpha);
    Weighted(bg, fg, alpha).Floor
  }

  /** A larger foreground value never gives a smaller blended value. */
  lemma BlendChannelMonotone(bg: Byte, fg1: Byte, fg2: Byte, alpha: real)
    requires ValidAlpha(alpha) && fg1 <= fg2
    ensures BlendChannel(bg, fg1, alpha) <= BlendChannel(bg, fg2, alpha)
  {
    var d := (fg2 - fg1) as real;
    assert Weighted(bg, fg2, alpha) == Weighted(bg, fg1, alpha) + d * alpha;
    MulNonneg(d, alpha);
    var c1, c2 := BlendChannel(bg, fg1, alpha), BlendChannel(bg, fg2, alpha);
    assert c1 as real < c2 as real + 1.0;
  }

  /** Blending is symmetric: swapping the colours swaps the weights. */
  lemma BlendChannelSymmetric(bg: Byte, fg: Byte, alpha: real)
    requires ValidAlpha(alpha)
    ensures BlendChannel(bg, fg, alpha) == BlendChannel(fg, bg, 1.0 - alpha)
  {
    assert Weighted(bg, fg, alpha) == Weighted(fg, bg, 1.0 - alpha);
  }

  predicate Between(c: Byte, a: Byte, b: Byte) {
    Min(a, b) <= c <= Max(a, b)
  }

  /**
   * All four channels, the alpha channel included, blended alike and
   * independently: each lies between the two inputs, strength 0 keeps the
   * background, strength 1 gives the foreground, and a colour blended with
   * itself is unchanged.
   */
  function BlendColor(bg: Rgba, fg: Rgba, alpha: real): (c: Rgba)
    requires ValidAlpha(alpha)
    ensures Between(c.r, bg.r, fg.r) && Between(c.g, bg.g, fg.g)
    ensures Between(c.b, bg.b, fg.b) && Between(c.a, bg.a, fg.a)
    ensures alpha == 0.0 ==> c == bg
    ensures alpha == 1.0 ==> c == fg
    ensures bg == fg ==> c == bg
  {
    Rgba(BlendChannel(bg.r, fg.r, alpha), BlendChannel(bg.g, fg.g, alpha),
         BlendChannel(bg.b, fg.b, alpha), BlendChannel(bg.a, fg.a, alpha))
  }

  /** Blending with complementary strengths from the other side agrees. */
  lemma BlendColorSymmetric(bg: Rgba, fg: Rgba, alpha: real)
    requires ValidAlpha(alpha)
    ensures BlendColor(bg, fg, alpha) == BlendColor(fg, bg, 1.0 - alpha)
  {
    BlendChannelSymmetric(bg.r, fg.r, alpha);
    BlendChannelSymmetric(bg.g, fg.g, alpha);
    BlendChannelSymmetric(bg.b, fg.b, alpha);
    BlendChannelSymmetric(bg.a, fg.a, alpha);
  }

  /**
   * Blends a foreground pixel into a background pixel: the position is the
   * background's, whatever the foreground pixel's position.
   */
  function BlendPixels(pixel: ImagePixel, alpha: real, foregroundPixel: ImagePixel): (r: ImagePixel)
    requires ValidAlpha(alpha)
    ensures r.x == pixel.x && r.y == pixel.y
    ensures r.color == BlendColor(pixel.color, foregroundPixel.color, alpha)
  {
    ImagePixel(pixel.x, pixel.y, BlendColor(pixel.color, foregroundPixel.color, alpha))
  }

  /**
   * What compositing does to one background pixel: the foreground pixel under
   * it, found by subtracting the offset, is blended in if there is one, and
   * the pixel passes through untouched otherwise.
   */
  function MapPixel(foreground: Image, offset: (int, int), alpha: real, pixel: ImagePixel): (r: ImagePixel)
    requires Valid(foreground) && ValidAlpha(alpha)
    ensures r.x == pixel.x && r.y == pixel.y
    ensures PixelAt(foreground, pixel.x - offset.0, pixel.y - offset.1).None? ==> r == pixel
    ensures PixelAt(foreground, pixel.x - offset.0, pixel.y - offset.1).Some? ==>
              r == BlendPixels(pixel, alpha, PixelAt(foreground, pixel.x - offset.0, pixel.y - offset.1).value)
  {
    match PixelAt(foreground, pixel.x - offset.0, pixel.y - offset.1)
    case Some(foregroundPixel) => BlendPixels(pixel, alpha, foregroundPixel)
    case None => pixel
  }

  /**
   * The composite of `foreground` placed at `offset` over `background`: the
   * background's dimensions, each enumerated background pixel mapped.
   */
  function Composite(background: Image, foreground: Image, offset: (int, int), alpha: real): (r: Image)
    requires Valid(background) && Valid(foreground) && ValidAlpha(alpha)
    ensures Valid(r)
    ensures r.width == background.width && r.height == background.height
  {
    Image(background.width, background.height,
          seq(|background.pixels|, i requires 0 <= i < |background.pixels| =>
                MapPixel(foreground, offset, alpha, Positioned(background, i)).color))
  }

  /**
   * Compositing by coordinate: outside the background there is nothing;
   * where no foreground pixel lies under (x, y) the background pixel is kept;
   * elsewhere it is the blend of the two pixels at the same position.
   */
  lemma CompositeAt(background: Image, foreground: Image, offset: (int, int), alpha: real, x: int, y: int)
    requires Valid(background) && Valid(foreground) && ValidAlpha(alpha)
    ensures PixelAt(background, x, y).None? ==>
              PixelAt(Composite(background, foreground, offset, alpha), x, y).None?
    ensures PixelAt(background, x, y).Some? && PixelAt(foreground, x - offset.0, y - offset.1).None? ==>
              PixelAt(Composite(background, foreground, offset, alpha), x, y) == PixelAt(background, x, y)
    ensures PixelAt(background, x, y).Some? && PixelAt(foreground, x - offset.0, y - offset.1).Some? ==>
              PixelAt(Composite(background, foreground, offset, alpha), x, y) ==
              Some(BlendPixels(PixelAt(background, x, y).value, alpha,
                               PixelAt(foreground, x - offset.0, y - offset.1).value))
  {
    if 0 <= x < background.width && 0 <= y < background.height {
      PositionedAt(background, x, y);
    }
  }

  /** At full strength every covered pixel takes the foreground colour exactly. */
  lemma CompositeFullStrength(background: Image, foreground: Image, offset: (int, int), x: int, y: int)
    requires Valid(background) && Valid(foreground)
    requires PixelAt(background, x, y).Some? && PixelAt(foreground, x - offset.0, y - offset.1).Some?
    ensures PixelAt(Composite(background, foreground, offset, 1.0), x, y).Some?
    ensures PixelAt(Composite(background, foreground, offset, 1.0), x, y).value.color ==
            PixelAt(foreground, x - offset.0, y - offset.1).value.color
  {
    CompositeAt(background, foreground, offset, 1.0, x, y);
  }

  /** At strength 0 compositing is the identity, for any foreground and offset. */
  lemma CompositeZeroStrength(background: Image, foreground: Image, offset: (int, int))
    requires Valid(background) && Valid(foreground)
    ensures Composite(background, foreground, offset, 0.0) == background
  {
    var r := Composite(background, foreground, offset, 0.0);
    forall i | 0 <= i < |background.pixels|
      ensures r.pixels[i] == background.pixels[i]
    {
      var p := Positioned(background, i);
      assert MapPixel(foreground, offset, 0.0, p).color == p.color;
    }
  }

  /** A foreground with no pixels leaves the background unchanged. */
  lemma CompositeEmptyForeground(background: Image, foreground: Image, offset: (int, int), alpha: real)
    requires Valid(background) && Valid(foreground) && ValidAlpha(alpha)
    requires foreground.width == 0 || foreground.height == 0
    ensures Composite(background, foreground, offset, alpha) == background
  {
    var r := Composite(background, foreground, offset, alpha);
    forall i | 0 <= i < |background.pixels|
      ensures r.pixels[i] == background.pixels[i]
    {
      var p := Positioned(background, i);
      assert PixelAt(foreground, p.x - offset.0, p.y - offset.1).None?;
    }
  }

  /**
   * The pure composite: enumerates the background, maps every pixel and
   * collects the colours into a new raster of the background's dimensions.
   */
  method AlphaBlend(background: Image, foreground: Image, offset: (int, int), alpha: real) returns (r: Image)
    requires Valid(background) && Valid(foreground) && ValidAlpha(alpha)
    ensures r.width == background.width && r.height == background.height
    ensures |r.pixels| == |background.pixels|
    ensures r == Composite(background, foreground, offset, alpha)
  {
    var backgroundPixels := Pixels(background);
    backgroundPixels := seq(|backgroundPixels|, i requires 0 <= i < |backgroundPixels| =>
                              MapPixel(foreground, offset, alpha, backgroundPixels[i]));
    r := Image(background.width, background.height,
               seq(|backgroundPixels|, i requires 0 <= i < |backgroundPixels| => backgroundPixels[i].color));
    assert r.pixels == Composite(background, foreground, offset, alpha).pixels;
  }

  /** The caller's mutable binding of a background raster. */
  class ImageCell {
    var image: Image

    constructor (image: Image)
      ensures this.image == image
    {
      this.image := image;
    }
  }

  /**
   * Replaces the caller's background wholesale by the composite computed
   * from its complete old contents.
   */
  method AlphaBlendMut(background: ImageCell, foreground: Image, offset: (int, int), alpha: real)
    requires Valid(background.image) && Valid(foreground) && ValidAlpha(alpha)
    modifies background
    ensures Valid(background.image)
    ensures background.image == Composite(old(background.image), foreground, offset, alpha)
  {
    var copy := background.image;
    var blended := AlphaBlend(copy, foreground, offset, alpha);
    background.image := blended;
  }
}
