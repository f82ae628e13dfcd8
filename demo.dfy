/** The demonstration scenario: white laid at half strength over one pixel of a 2x2 raster. */
module Demo {
  import opened Raster
  import opened Blend

  function DemoBackground(): Image {
    Image(2, 2, [Rgba(0, 0, 0, 255), Rgba(255, 0, 0, 255), Rgba(0, 255, 0, 255), Rgba(0, 0, 255, 255)])
  }

  function DemoForeground(): Image {
    Image(1, 1, [Rgba(255, 255, 255, 255)])
  }

  /** Only pixel (1, 0) is covered; red under half-strength white truncates to (255, 127, 127, 255). */
  lemma DemoComposite()
    ensures Composite(DemoBackground(), DemoForeground(), (1, 0), 0.5) ==
            Image(2, 2, [Rgba(0, 0, 0, 255), Rgba(255, 127, 127, 255), Rgba(0, 255, 0, 255), Rgba(0, 0, 255, 255)])
  {
    var bg, fg := DemoBackground(), DemoForeground();
    var r := Composite(bg, fg, (1, 0), 0.5);
    assert Positioned(bg, 0) == ImagePixel(0, 0, bg.pixels[0]);
    assert Positioned(bg, 1) == ImagePixel(1, 0, bg.pixels[1]);
    assert Positioned(bg, 2) == ImagePixel(0, 1, bg.pixels[2]);
    assert Positioned(bg, 3) == ImagePixel(1, 1, bg.pixels[3]);
    assert PixelAt(fg, 0, 0) == Some(ImagePixel(0, 0, Rgba(255, 255, 255, 255)));
    assert BlendChannel(255, 255, 0.5) == 255;
    assert BlendChannel(0, 255, 0.5) == 127;
    assert r.pixels[1] == Rgba(255, 127, 127, 255);
  }

  /** The demonstration run through the mutating entry point, without its printing. */
  method RunDemo() returns (result: Image)
    ensures result == Image(2, 2, [Rgba(0, 0, 0, 255), Rgba(255, 127, 127, 255),
                                   Rgba(0, 255, 0, 255), Rgba(0, 0, 255, 255)])
  {
    var background := new ImageCell(DemoBackground());
    AlphaBlendMut(background, DemoForeground(), (1, 0), 0.5);
    DemoComposite();
    result := background.image;
  }
}
