# Alpha compositing of RGBA rasters, in Dafny

This project models a small library that composites one RGBA raster (the
foreground) onto another (the background). The foreground is placed at a
signed integer offset and blended in with one global strength. It has three
parts.

- **Raster lookup** (`raster.dfy`, module `Raster`). An `Image` is a width, a
  height and a row-major sequence of `Rgba` colours. Its invariant `Valid` is
  `|pixels| == width * height`. `PixelAt` is a bounds-checked lookup by signed
  coordinate that returns an `Option<ImagePixel>`. `IndexToCoords` decodes a
  row-major address. `Pixels` is the enumeration loop and returns every stored
  colour with its coordinate. `Positioned` is the function that specifies each
  entry of that enumeration.
- **Per-pixel blend** (`blend.dfy`, module `Blend`). `BlendChannel` computes
  the weighted average `bg * (1 - a) + fg * a` and truncates it to a byte.
  `BlendColor` applies it to all four channels independently; the colour's own
  alpha channel is blended like the other three. `BlendPixels` keeps the
  background pixel's position.
- **Image blend** (`blend.dfy`). `MapPixel` is what happens to one background
  pixel. `Composite` is the functional specification of the whole image.
  `AlphaBlend` is the method that enumerates, maps and collects, and is proved
  equal to `Composite`. `AlphaBlendMut` replaces the contents of an
  `ImageCell` (the caller's mutable binding) with the composite of its old
  contents.

`demo.dfy` (module `Demo`) states the demonstration scenario of `main` as a
lemma, and as a method that runs it through the mutating entry point.

The blend strength is an exact `real` in [0, 1] (`ValidAlpha`). Truncation is
`.Floor`. This equals the source's truncating cast because the blended value is
never negative for such strengths. Coordinates and sizes are unbounded `nat`
and `int`.

The source does not validate an image when it is built. Every operation that
reads a whole image here requires `Valid`. `IndexToCoords` needs only a
positive width, since it uses the image for nothing else.

## Model

| member | source | states |
|---|---|---|
| `Raster.PixelAt` | src/main.rs:24-36 | absent exactly when x < 0, y < 0, x >= width or y >= height; otherwise the pixel at (x, y), whose colour is `pixels[y*width + x]`, and that address is inside the buffer |
| `Raster.RowMajorBound` | src/main.rs:30-32 | for x < width and y < height, `y*width + x < width*height`, so the lookup never indexes out of range |
| `Raster.IndexToCoords` | src/main.rs:38-42 | for width > 0 the decoded x is below width and `y*width + x` is the index again; an index below `width*height` decodes to a y below height |
| `Raster.IndexToCoordsInverse` | src/main.rs:38-42 | decoding inverts row-major addressing: `IndexToCoords(y*width + x) == (x, y)` for every x < width |
| `Raster.Positioned` | src/main.rs:46-48 | entry i of the enumeration lies inside the raster, addresses i, and carries colour `pixels[i]` |
| `Raster.PositionedAt` | src/main.rs:44-51 | every coordinate of the raster appears in the enumeration, at address `y*width + x` |
| `Raster.PositionedRowMajor` | src/main.rs:44-51 | the enumeration goes strictly in row-major order, so no coordinate appears twice |
| `Raster.PixelAtPositioned` | src/main.rs:24-51 | looking up the coordinate of an enumerated entry returns that entry |
| `Raster.Pixels` | src/main.rs:44-51 | returns exactly `|pixels|` entries, in address order, entry i being `Positioned(img, i)` |
| `Blend.WeightedBounds` | src/main.rs:82-89 | for strengths in [0, 1] the exact weighted average lies between the two channel values |
| `Blend.BlendChannel` | src/main.rs:82-89 | the result is the truncated weighted average: between min and max of the inputs, the background at strength 0, the foreground at strength 1 |
| `Blend.BlendChannelMonotone` | src/main.rs:82-89 | a larger foreground value never yields a smaller blended channel |
| `Blend.BlendChannelSymmetric` | src/main.rs:82-89 | blending bg with fg at strength a equals blending fg with bg at 1 - a |
| `Blend.BlendColor` | src/main.rs:81-91 | each of r, g, b and a lies between the two inputs; strength 0 keeps the background, strength 1 gives the foreground, a colour blended with itself is unchanged |
| `Blend.BlendColorSymmetric` | src/main.rs:81-91 | the four-channel blend is symmetric under swapping the colours and complementing the strength |
| `Blend.BlendPixels` | src/main.rs:81-91 | the blended pixel keeps the background pixel's (x, y); its colour is the channel-wise blend |
| `Blend.MapPixel` | src/main.rs:64-72 | the mapped pixel keeps its position; it is the background pixel unchanged when no foreground pixel lies at (x - dx, y - dy), and otherwise `BlendPixels` of it and that foreground pixel |
| `Blend.Composite` | src/main.rs:58-79 | the composite is a valid raster with the background's width and height |
| `Blend.CompositeAt` | src/main.rs:64-71 | by coordinate: absent outside the background; the background pixel where (x - dx, y - dy) is outside the foreground; otherwise `BlendPixels` of the background pixel and the foreground pixel |
| `Blend.CompositeFullStrength` | src/main.rs:64-71 | at strength 1 every covered pixel takes exactly the foreground colour |
| `Blend.CompositeZeroStrength` | src/main.rs:58-91 | at strength 0 the composite equals the background, for every foreground and offset |
| `Blend.CompositeEmptyForeground` | src/main.rs:64-71 | a foreground of zero width or zero height leaves the background unchanged |
| `Blend.AlphaBlend` | src/main.rs:58-79 | the enumerate-map-collect result has the background's width, height and pixel count, and equals `Composite` |
| `Blend.AlphaBlendMut` | src/main.rs:54-56 | afterwards the caller's image is the composite of its entire old contents, and is valid |
| `Demo.DemoComposite` | src/main.rs:93-110 | 2x2 black/red/green/blue with 1x1 white at offset (1, 0) and strength 0.5: only (1, 0) changes, to (255, 127, 127, 255) |
| `Demo.RunDemo` | src/main.rs:93-110 | the same scenario through the mutating entry point ends in that image |

## Left out

- Printing in `main` (src/main.rs:110): output only. The scenario is kept as `Demo.DemoComposite` and `Demo.RunDemo`.
- BlendChannel: computes with exact reals, not IEEE `f32`. The source rounds three operations before truncating: `1.0 - alpha`, each product, and the sum. That rounding can make the source's channel one below or one above the model's. Two examples use the `f32` values of the strengths. For bg 0, fg 10 at 0.7 the source gives 7 and the model 6. For bg = fg = 3 at 0.1 the source gives 2 and the model 3. Of this contract, only the bounds between the two inputs are an exact-real fact. The endpoint strengths hold in the source too, because at 0.0 and 1.0 every `f32` step is exact. The monotonicity of `BlendChannelMonotone` holds in the source too, because each rounding step and the truncating cast are non-decreasing.
- BlendColor: its `Between` bounds and its `bg == fg ==> c == bg` hold of the exact-real model only. In the source, 3 blended with 3 at `f32` 0.1 gives 2.
- BlendChannelSymmetric, BlendColorSymmetric: the symmetry holds of the exact-real model only. `f32` rounding of `1.0 - alpha` and of the products can break it in the source.
- BlendChannel: strengths outside [0, 1] are excluded by the precondition `ValidAlpha`. The source's saturating and NaN behaviour of `as u8` for such strengths is not modelled.
- PixelAt, IndexToCoords, MapPixel, AlphaBlend: the model does not capture the `u32` wrap or overflow panic of `y * self.width + x` (src/main.rs:31), the `usize` to `u32` casts (src/main.rs:41), the `u32` to `i32` casts or the `i32` subtraction of the offset (src/main.rs:65-66). All are unbounded integers here.
- Malformed images: the source does not check `|pixels| == width * height`, and the model requires `Valid` instead. So it leaves out these behaviours of the source:
  - A lookup in an image with too few pixels may index past the end and panic.
  - An image with pixels but zero width panics on a division by zero when its pixels are listed.
  - A background with a positive width and the wrong pixel count goes through without error. For example, a 2x2 background with 3 pixels gives a 3-pixel output of the same wrong shape (src/main.rs:59-77).
  - A foreground with extra pixels also goes through without error. Its pixels past `width * height` are never read (src/main.rs:30-32).
- `Clone`, `Copy` and `Debug` derives, and the `.clone()` in `alpha_blend_mut`: images are values in Dafny, so copying is implicit.
- Ownership: `alpha_blend_mut` consumes the foreground by move. Here it is an ordinary value parameter.
