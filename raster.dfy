/** A dense, row-major RGBA raster and read access to it by coordinate. */
module Raster {

  /** An 8-bit unsigned channel value. */
  type Byte = b: int | 0 <= b < 256

  /** Four independent channels; the alpha channel carries no special meaning here. */
  datatype Rgba = Rgba(r: Byte, g: Byte, b: Byte, a: Byte)

  /** A raster of `width` by `height` colours stored row by row. */
  datatype Image = Image(width: nat, height: nat, pixels: seq<Rgba>)

  /** A colour together with the coordinate it was read from. */
  datatype ImagePixel = ImagePixel(x: nat, y: nat, color: Rgba)

  datatype Option<T> = None | Some(value: T)

  /** The buffer invariant: exactly one colour per coordinate. */
  predicate Valid(img: Image) {
    |img.pixels| == img.width * img.height
  }

  lemma MulMono(a: nat, b: nat, w: nat)
    requires a <= b
    ensures a * w <= b * w
  {
    assert b * w == a * w + (b - a) * w;
  }

  /** A coordinate inside the raster addresses a stored colour. */
  lemma RowMajorBound(w: nat, h: nat, x: nat, y: nat)
    requires x < w && y < h
    ensures y * w + x < w * h
  {
    MulMono(y + 1, h, w);
  }

  /** Row-major addresses of in-row coordinates are distinct. */
  lemma RowMajorUnique(w: nat, x1: nat, y1: nat, x2: nat, y2: nat)
    requires x1 < w && x2 < w
    requires y1 * w + x1 == y2 * w + x2
    ensures x1 == x2 && y1 == y2
  {
    if y1 < y2 {
      MulMono(y1 + 1, y2, w);
      assert false;
    } else if y2 < y1 {
      MulMono(y2 + 1, y1, w);
      assert false;
    }
  }

  /**
   * Bounds-checked lookup by signed coordinate: absent exactly when the
   * coordinate is negative or beyond the raster, and otherwise the colour at
   * the row-major address y * width + x, which is then a valid address.
   */
  function PixelAt(img: Image, x: int, y: int): (r: Option<ImagePixel>)
    requires Valid(img)
    ensures r.None? <==> (x < 0 || y < 0 || x >= img.width || y >= img.height)
    ensures r.Some? ==>
              0 <= y * img.width + x < |img.pixels| &&
              r.value == ImagePixel(x, y, img.pixels[y * img.width + x])
  {
    if x < 0 || y < 0 then
      None
    else if x < img.width && y < img.height then
      RowMajorBound(img.width, img.height, x, y);
      Some(ImagePixel(x, y, img.pixels[y * img.width + x]))
    else
      None
  }

  /**
   * Decodes a row-major address: the coordinate lies within a row and
   * addresses `index` again; an address inside the buffer lies in a row of it.
   */
  function IndexToCoords(img: Image, index: nat): (c: (nat, nat))
    requires img.width > 0
    ensures c.0 < img.width && c.1 * img.width + c.0 == index
    ensures index < img.width * img.height ==> c.1 < img.height
  {
    var c := (index % img.width, index / img.width);
    assert index < img.width * img.height ==> c.1 < img.height by {
      if c.1 >= img.height {
        MulMono(img.height, c.1, img.width);
      }
    }
    c
  }

  /** Decoding inverts row-major addressing. */
  lemma IndexToCoordsInverse(img: Image, x: nat, y: nat)
    requires x < img.width
    ensures IndexToCoords(img, y * img.width + x) == (x, y)
  {
    var c := IndexToCoords(img, y * img.width + x);
    RowMajorUnique(img.width, c.0, c.1, x, y);
  }

  /**
   * The entry at address `index` of the enumeration: its coordinate is
   * inside the raster and addresses `index`, and its colour is the stored one.
   */
  function Positioned(img: Image, index: nat): (p: ImagePixel)
    requires Valid(img) && index < |img.pixels|
    ensures p.x < img.width && p.y < img.height
    ensures p.y * img.width + p.x == index && p.color == img.pixels[index]
  {
    var c := IndexToCoords(img, index);
    ImagePixel(c.0, c.1, img.pixels[index])
  }

  /** Every coordinate of the raster is enumerated, at its row-major address. */
  lemma PositionedAt(img: Image, x: nat, y: nat)
    requires Valid(img) && x < img.width && y < img.height
    ensures y * img.width + x < |img.pixels|
    ensures Positioned(img, y * img.width + x) == ImagePixel(x, y, img.pixels[y * img.width + x])
  {
    RowMajorBound(img.width, img.height, x, y);
    IndexToCoordsInverse(img, x, y);
  }

  /** The enumeration is strictly row-major: rows top to bottom, each left to right. */
  lemma {:induction false} PositionedRowMajor(img: Image, i: nat, j: nat)
    requires Valid(img) && i < j < |img.pixels|
    ensures Positioned(img, i).y < Positioned(img, j).y ||
            (Positioned(img, i).y == Positioned(img, j).y && Positioned(img, i).x < Positioned(img, j).x)
  {
    var p, q := Positioned(img, i), Positioned(img, j);
    if q.y < p.y {
      MulMono(q.y + 1, p.y, img.width);
      assert false;
    }
  }

  /** Looking up an enumerated coordinate gives back the enumerated pixel. */
  lemma PixelAtPositioned(img: Image, index: nat)
    requires Valid(img) && index < |img.pixels|
    ensures PixelAt(img, Positioned(img, index).x, Positioned(img, index).y) == Some(Positioned(img, index))
  {
  }

  /** Enumerates every stored colour with its coordinate, in address order. */
  method Pixels(img: Image) returns (ps: seq<ImagePixel>)
    requires Valid(img)
    ensures |ps| == |img.pixels|
    ensures forall i :: 0 <= i < |ps| ==> ps[i] == Positioned(img, i)
  {
    ps := [];
    for index := 0 to |img.pixels|
      invariant |ps| == index
      invariant forall i :: 0 <= i < index ==> ps[i] == Positioned(img, i)
    {
      var (x, y) := IndexToCoords(img, index);
      ps := ps + [ImagePixel(x, y, img.pixels[index])];
    }
  }
}
