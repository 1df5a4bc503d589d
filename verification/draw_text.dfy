/** The size arithmetic of the text renderer. Loading the font and drawing
    the glyphs are the imaging library's work and are not modelled; what
    the renderer decides itself is the canvas size, where the text goes,
    the band it crops and the size it stretches that band to. */
module DrawText {
  import opened Wrappers
  import opened Pictures

  datatype Point = Point(x: int, y: int)

  /** The sizes and positions the renderer computes around its library calls. */
  datatype Geometry = Geometry(canvas: Size, location: Point, band: Box, cropped: Size, twisted: Size)

  /** Height of the twisted image, in multiples of the font size. */
  const TwistedHeightFactor := 50

  /** The renderer's geometry. The band edges `int(1.8 * size)` and
      `int(3.2 * size)` are taken as the exact floors 18 * size / 10 and
      32 * size / 10. */
  function RenderGeometry(text: string, fontSize: nat, location: Option<Point>): (g: Geometry)
    ensures g.canvas.width == g.canvas.height == |text| * fontSize
    ensures location.Some? ==> g.location == location.value
    ensures location.None? ==> g.location == Point(0, 2 * fontSize)
    ensures g.band.left == 0 && g.band.right == g.canvas.width
    ensures 10 * g.band.top <= 18 * fontSize < 10 * g.band.top + 10
    ensures 10 * g.band.bottom <= 32 * fontSize < 10 * g.band.bottom + 10
    ensures g.cropped == Size(g.band.right - g.band.left, g.band.bottom - g.band.top)
    ensures g.twisted == Size(g.cropped.width, TwistedHeightFactor * fontSize)
  {
    var side := |text| * fontSize;
    var at := match location case Some(p) => p case None => Point(0, 2 * fontSize);
    var band := Box(0, 18 * fontSize / 10, side, 32 * fontSize / 10);
    Geometry(Size(side, side), at, band, Size(side, band.bottom - band.top), Size(side, TwistedHeightFactor * fontSize))
  }

  /** The default drawing line y = 2 × font size lies inside the cropped
      band, and for any positive font size the band is at least one row. */
  lemma BandHoldsDefaultLine(text: string, fontSize: nat)
    ensures var g := RenderGeometry(text, fontSize, None);
      g.band.top <= g.location.y <= g.band.bottom &&
      (fontSize > 0 ==> g.cropped.height >= 1)
  {
  }

  /** The band lies within the square canvas once the text has four or
      more characters; for shorter text it can reach below the canvas (three
      letters at size 5: band bottom 16, canvas 15). */
  lemma BandInsideCanvas(text: string, fontSize: nat, location: Option<Point>)
    requires |text| >= 4
    ensures var g := RenderGeometry(text, fontSize, location);
      g.band.bottom <= g.canvas.height
  {
  }

  /** A one-letter text at font size 10 yields a 10×500 twisted image and
      a 10×14 cropped band. */
  lemma OneLetterAtSizeTen()
    ensures var g := RenderGeometry("A", 10, None);
      g.twisted == Size(10, 500) && g.cropped == Size(10, 14) && g.canvas == Size(10, 10)
  {
  }
}

/** The renderer's twisted output fed to the refiner. */
module RenderThenRefine {
  import opened Wrappers
  import opened Pictures
  import opened DrawText
  import opened Refine
  import RefineFacts

  /** A twisted image, refined with a white background, gives a picture
      strictly smaller than the 45 × 100 font-size intermediate canvas. */
  lemma TwistedRefinesSmaller(text: string, fontSize: nat, location: Option<Point>, image: Picture, box: Box)
    requires SizeOf(image) == RenderGeometry(text, fontSize, location).twisted
    requires BoundsForeground(image, fontSize, White, box)
    ensures box.right - box.left < CanvasWidthFactor * fontSize
    ensures box.bottom - box.top < CanvasHeightFactor * fontSize
  {
    RefineFacts.RefinedSmallerThanCanvas(image, fontSize, box);
  }
}
