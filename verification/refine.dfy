/** The colour-key refiner: keeps only the pixels of the text colour, moves
    the result onto a large fixed canvas, finds the bounding box of all
    non-white pixels there and crops to it with a margin. */
module Refine {
  import opened Wrappers
  import opened Pictures
  import Extremes

  datatype RefineError = NoForegroundPixels

  /** The cropped picture, with the crop box it was cut with. */
  datatype Refined = Refined(cropBox: Box, picture: Picture)

  /** Size of the intermediate canvas and where the keyed image goes on it,
      in multiples of the font size. */
  const CanvasWidthFactor := 45
  const CanvasHeightFactor := 100
  const PasteOffsetFactor := 18
  /** Margin kept around the bounding box, in multiples of the font size. */
  const MarginFactor := 2

  /** One step of the colour-key pass: a pixel of the text colour stays,
      any other pixel becomes the background colour. */
  function KeyPixel(p: Rgb, textColor: Rgb, bgColor: Rgb): (q: Rgb)
    ensures q == textColor || q == bgColor
    ensures p == textColor ==> q == p
    ensures p != textColor ==> q == bgColor
  {
    if p != textColor then bgColor else p
  }

  /** Keying an already keyed pixel changes nothing. */
  lemma KeyPixelIdempotent(p: Rgb, textColor: Rgb, bgColor: Rgb)
    ensures KeyPixel(KeyPixel(p, textColor, bgColor), textColor, bgColor) == KeyPixel(p, textColor, bgColor)
  {
  }

  /** The colour-key pass over the whole image, in place. */
  method ColorKey(image: Picture, textColor: Rgb, bgColor: Rgb)
    modifies image
    ensures forall w, h :: InBounds(image, w, h) ==> image[w, h] == KeyPixel(old(image[w, h]), textColor, bgColor)
    ensures forall w, h :: InBounds(image, w, h) ==> image[w, h] == textColor || image[w, h] == bgColor
  {
    for w := 0 to image.Length0
      invariant forall x, y :: InBounds(image, x, y) ==>
        image[x, y] == if x < w then KeyPixel(old(image[x, y]), textColor, bgColor) else old(image[x, y])
    {
      for h := 0 to image.Length1
        invariant forall x, y :: InBounds(image, x, y) ==>
          image[x, y] == if x < w || (x == w && y < h) then KeyPixel(old(image[x, y]), textColor, bgColor) else old(image[x, y])
      {
        if image[w, h] != textColor {
          image[w, h] := bgColor;
        }
      }
    }
  }

  /** Whether scan position (w1, h1) comes before (w2, h2): columns left to
      right, and top to bottom within a column. */
  predicate ScannedBefore(w1: int, h1: int, w2: int, h2: int) {
    w1 < w2 || (w1 == w2 && h1 < h2)
  }

  /** One column of the scan: walks down column w and appends the y (to
      `ys`) and the x (to `xs`) of every pixel that is not pure white. */
  method ScanColumn(canvas: Picture, w: int, xs0: seq<int>, ys0: seq<int>) returns (xs: seq<int>, ys: seq<int>)
    requires 0 <= w < canvas.Length0 && |xs0| == |ys0|
    ensures |xs0| <= |xs| == |ys| && xs[..|xs0|] == xs0 && ys[..|ys0|] == ys0
    ensures forall k :: |xs0| <= k < |xs| ==> xs[k] == w && 0 <= ys[k] < canvas.Length1 && canvas[w, ys[k]] != White
    ensures forall k, l :: |xs0| <= k < l < |xs| ==> ys[k] < ys[l]
    ensures forall h :: 0 <= h < canvas.Length1 && canvas[w, h] != White ==>
      exists k :: |xs0| <= k < |xs| && ys[k] == h
  {
    xs, ys := xs0, ys0;
    for h := 0 to canvas.Length1
      invariant |xs0| <= |xs| == |ys| && xs[..|xs0|] == xs0 && ys[..|ys0|] == ys0
      invariant forall k :: |xs0| <= k < |xs| ==> xs[k] == w && 0 <= ys[k] < h && canvas[w, ys[k]] != White
      invariant forall k, l :: |xs0| <= k < l < |xs| ==> ys[k] < ys[l]
      invariant forall y :: 0 <= y < h && canvas[w, y] != White ==> exists k :: |xs0| <= k < |xs| && ys[k] == y
    {
      if canvas[w, h] != White {
        assert (xs + [w])[..|xs0|] == xs[..|xs0|] && (ys + [h])[..|ys0|] == ys[..|ys0|];
        ghost var before := ys;
        ys := ys + [h];
        xs := xs + [w];
        assert forall k :: 0 <= k < |before| ==> ys[k] == before[k];
        assert ys[|ys| - 1] == h;
      }
    }
  }

  /** Every recorded coordinate is a non-white pixel of the canvas. */
  ghost predicate ScanSound(canvas: Picture, xs: seq<int>, ys: seq<int>)
    reads canvas
  {
    |xs| == |ys| && forall k :: 0 <= k < |xs| ==> InBounds(canvas, xs[k], ys[k]) && canvas[xs[k], ys[k]] != White
  }

  /** Every non-white pixel left of column w has been recorded. */
  ghost predicate ScanComplete(canvas: Picture, xs: seq<int>, ys: seq<int>, w: int)
    reads canvas
  {
    forall x, y :: InBounds(canvas, x, y) && x < w && canvas[x, y] != White ==>
      exists k :: 0 <= k < |xs| && k < |ys| && xs[k] == x && ys[k] == y
  }

  /** The recorded coordinates are in scan order. */
  ghost predicate ScanOrdered(xs: seq<int>, ys: seq<int>)
    requires |xs| == |ys|
  {
    forall k, l :: 0 <= k < l < |xs| ==> ScannedBefore(xs[k], ys[k], xs[l], ys[l])
  }

  /** Appending one column's scan keeps the scan sound, complete up to the
      next column, and ordered. */
  lemma {:induction false} ScanStep(canvas: Picture, w: int, xs0: seq<int>, ys0: seq<int>, xs: seq<int>, ys: seq<int>)
    requires 0 <= w < canvas.Length0
    requires ScanSound(canvas, xs0, ys0) && ScanComplete(canvas, xs0, ys0, w) && ScanOrdered(xs0, ys0)
    requires forall k :: 0 <= k < |xs0| ==> xs0[k] < w
    requires |xs0| <= |xs| == |ys| && xs[..|xs0|] == xs0 && ys[..|ys0|] == ys0
    requires forall k :: |xs0| <= k < |xs| ==> xs[k] == w && 0 <= ys[k] < canvas.Length1 && canvas[w, ys[k]] != White
    requires forall k, l :: |xs0| <= k < l < |xs| ==> ys[k] < ys[l]
    requires forall h :: 0 <= h < canvas.Length1 && canvas[w, h] != White ==>
      exists k :: |xs0| <= k < |xs| && ys[k] == h
    ensures ScanSound(canvas, xs, ys) && ScanComplete(canvas, xs, ys, w + 1) && ScanOrdered(xs, ys)
    ensures forall k :: 0 <= k < |xs| ==> xs[k] < w + 1
  {
    assert forall k :: 0 <= k < |xs0| ==> xs[k] == xs0[k] && ys[k] == ys0[k] by {
      assert forall k :: 0 <= k < |xs0| ==> xs[..|xs0|][k] == xs[k] && ys[..|ys0|][k] == ys[k];
    }
    forall x, y | InBounds(canvas, x, y) && x < w + 1 && canvas[x, y] != White
      ensures exists k :: 0 <= k < |xs| && k < |ys| && xs[k] == x && ys[k] == y
    {
      if x < w {
        var k :| 0 <= k < |xs0| && k < |ys0| && xs0[k] == x && ys0[k] == y;
        assert xs[k] == x && ys[k] == y;
      } else {
        var k :| |xs0| <= k < |xs| && ys[k] == y;
        assert xs[k] == x;
      }
    }
  }

  /** The scan for non-white pixels: column by column, it records the x and
      the y of every pixel that is not pure white, in scan order. */
  method ScanNonWhite(canvas: Picture) returns (xs: seq<int>, ys: seq<int>)
    ensures |xs| == |ys|
    ensures forall k :: 0 <= k < |xs| ==> InBounds(canvas, xs[k], ys[k]) && canvas[xs[k], ys[k]] != White
    ensures forall w, h :: InBounds(canvas, w, h) && canvas[w, h] != White ==>
      exists k :: 0 <= k < |xs| && xs[k] == w && ys[k] == h
    ensures forall k, l :: 0 <= k < l < |xs| ==> ScannedBefore(xs[k], ys[k], xs[l], ys[l])
  {
    xs, ys := [], [];
    for w := 0 to canvas.Length0
      invariant ScanSound(canvas, xs, ys) && ScanComplete(canvas, xs, ys, w) && ScanOrdered(xs, ys)
      invariant forall k :: 0 <= k < |xs| ==> xs[k] < w
    {
      var xs1, ys1 := ScanColumn(canvas, w, xs, ys);
      ScanStep(canvas, w, xs, ys, xs1, ys1);
      xs, ys := xs1, ys1;
    }
  }

  /** Whether every recorded coordinate lies inside `box` shrunk by `margin`
      on each side. */
  predicate Encloses(box: Box, xs: seq<int>, ys: seq<int>, margin: int) {
    (forall k :: 0 <= k < |xs| ==> box.left + margin <= xs[k] <= box.right - margin) &&
    (forall k :: 0 <= k < |ys| ==> box.top + margin <= ys[k] <= box.bottom - margin)
  }

  /** The crop box: the bounding box of the recorded coordinates widened by
      twice the font size on every side; with nothing recorded, `min` fails. */
  function CropBox(xs: seq<int>, ys: seq<int>, fontSize: nat): (r: Result<Box, RefineError>)
    ensures r.Failure? <==> |xs| == 0 || |ys| == 0
    ensures r.Success? ==> r.value.left <= r.value.right && r.value.top <= r.value.bottom
    ensures r.Success? ==> Encloses(r.value, xs, ys, MarginFactor * fontSize)
    ensures r.Success? ==> r.value.left + MarginFactor * fontSize in xs && r.value.right - MarginFactor * fontSize in xs
    ensures r.Success? ==> r.value.top + MarginFactor * fontSize in ys && r.value.bottom - MarginFactor * fontSize in ys
  {
    if |ys| == 0 || |xs| == 0 then Failure(NoForegroundPixels)
    else
      var margin := MarginFactor * fontSize;
      Success(Box(Extremes.Min(xs) - margin, Extremes.Min(ys) - margin,
                  Extremes.Max(xs) + margin, Extremes.Max(ys) + margin))
  }

  predicate InCanvas(fontSize: nat, x: int, y: int) {
    0 <= x < CanvasWidthFactor * fontSize && 0 <= y < CanvasHeightFactor * fontSize
  }

  /** The pixel at (x, y) of the intermediate canvas: the (keyed) image
      pasted at (18 × font size, 0) over a background-filled canvas. */
  function CanvasPixel(image: Picture, fontSize: nat, bgColor: Rgb, x: int, y: int): Rgb
    reads image
  {
    if Covers(PasteOffsetFactor * fontSize, 0, image.Length0, image.Length1, x, y)
    then image[x - PasteOffsetFactor * fontSize, y]
    else bgColor
  }

  /** The pixel at (x, y) of the intermediate canvas, or black off the
      canvas, as a crop reaching past the canvas fills it. */
  function CroppedPixel(image: Picture, fontSize: nat, bgColor: Rgb, x: int, y: int): Rgb
    reads image
  {
    if InCanvas(fontSize, x, y) then CanvasPixel(image, fontSize, bgColor, x, y) else Black
  }

  /** Whether `picture` is what cropping the intermediate canvas to `box` gives. */
  ghost predicate CropOfCanvas(picture: Picture, image: Picture, fontSize: nat, bgColor: Rgb, box: Box)
    reads picture, image
  {
    forall x, y :: InBounds(picture, x, y) ==>
      picture[x, y] == CroppedPixel(image, fontSize, bgColor, box.left + x, box.top + y)
  }

  /** Whether (x, y) is a non-white pixel of the intermediate canvas. */
  predicate Foreground(image: Picture, fontSize: nat, bgColor: Rgb, x: int, y: int)
    reads image
  {
    InCanvas(fontSize, x, y) && CanvasPixel(image, fontSize, bgColor, x, y) != White
  }

  ghost predicate HasForeground(image: Picture, fontSize: nat, bgColor: Rgb)
    reads image
  {
    exists x, y :: Foreground(image, fontSize, bgColor, x, y)
  }

  /** Whether `box`, shrunk by the margin, is the tight bounding box of the
      foreground: it encloses every foreground pixel and each of its four
      sides touches one. */
  ghost predicate BoundsForeground(image: Picture, fontSize: nat, bgColor: Rgb, box: Box)
    reads image
  {
    var m := MarginFactor * fontSize;
    (forall x, y :: Foreground(image, fontSize, bgColor, x, y) ==>
       box.left + m <= x <= box.right - m && box.top + m <= y <= box.bottom - m) &&
    (exists x, y :: Foreground(image, fontSize, bgColor, x, y) && x == box.left + m) &&
    (exists x, y :: Foreground(image, fontSize, bgColor, x, y) && x == box.right - m) &&
    (exists x, y :: Foreground(image, fontSize, bgColor, x, y) && y == box.top + m) &&
    (exists x, y :: Foreground(image, fontSize, bgColor, x, y) && y == box.bottom - m)
  }

  /** Whether (x, y) is a pixel of `canvas` that is not pure white. */
  ghost predicate NonWhite(canvas: Picture, x: int, y: int)
    reads canvas
  {
    InBounds(canvas, x, y) && canvas[x, y] != White
  }

  ghost predicate HasNonWhite(canvas: Picture)
    reads canvas
  {
    exists x, y :: NonWhite(canvas, x, y)
  }

  /** Whether `box`, shrunk by `margin`, encloses every non-white pixel of `canvas`. */
  ghost predicate EnclosesNonWhite(canvas: Picture, box: Box, margin: int)
    reads canvas
  {
    forall x, y :: NonWhite(canvas, x, y) ==>
      box.left + margin <= x <= box.right - margin && box.top + margin <= y <= box.bottom - margin
  }

  /** Whether each side of `box`, shrunk by `margin`, touches a non-white pixel of `canvas`. */
  ghost predicate TouchesNonWhite(canvas: Picture, box: Box, margin: int)
    reads canvas
  {
    (exists x, y :: NonWhite(canvas, x, y) && x == box.left + margin) &&
    (exists x, y :: NonWhite(canvas, x, y) && x == box.right - margin) &&
    (exists x, y :: NonWhite(canvas, x, y) && y == box.top + margin) &&
    (exists x, y :: NonWhite(canvas, x, y) && y == box.bottom - margin)
  }

  /** The tight bounding box of the non-white pixels, widened by `margin`. */
  ghost predicate TightBox(canvas: Picture, box: Box, margin: int)
    reads canvas
  {
    EnclosesNonWhite(canvas, box, margin) && TouchesNonWhite(canvas, box, margin)
  }

  /** The bounding-box search on the intermediate canvas: the scan, the
      minima and maxima of what it recorded, and the widened crop box. */
  method FindCropBox(canvas: Picture, fontSize: nat) returns (r: Result<Box, RefineError>)
    ensures r.Failure? <==> !HasNonWhite(canvas)
    ensures r.Success? ==> TightBox(canvas, r.value, MarginFactor * fontSize)
  {
    var xs, ys := ScanNonWhite(canvas);
    RecordedAreNonWhite(canvas, xs, ys, fontSize);
    NonWhiteAreRecorded(canvas, xs, ys, fontSize);
    r := CropBox(xs, ys, fontSize);
  }

  /** Since every recorded position is non-white, a non-empty record means
      foreground exists, and every side of the crop box touches some. */
  lemma RecordedAreNonWhite(canvas: Picture, xs: seq<int>, ys: seq<int>, fontSize: nat)
    requires |xs| == |ys|
    requires forall k :: 0 <= k < |xs| ==> InBounds(canvas, xs[k], ys[k]) && canvas[xs[k], ys[k]] != White
    ensures |xs| > 0 ==> HasNonWhite(canvas)
    ensures CropBox(xs, ys, fontSize).Success? ==> TouchesNonWhite(canvas, CropBox(xs, ys, fontSize).value, MarginFactor * fontSize)
  {
    if |xs| > 0 {
      assert NonWhite(canvas, xs[0], ys[0]);
      var box := CropBox(xs, ys, fontSize).value;
      var m := MarginFactor * fontSize;
      var kl :| 0 <= kl < |xs| && xs[kl] == box.left + m;
      assert NonWhite(canvas, xs[kl], ys[kl]);
      var kr :| 0 <= kr < |xs| && xs[kr] == box.right - m;
      assert NonWhite(canvas, xs[kr], ys[kr]);
      var kt :| 0 <= kt < |ys| && ys[kt] == box.top + m;
      assert NonWhite(canvas, xs[kt], ys[kt]);
      var kb :| 0 <= kb < |ys| && ys[kb] == box.bottom - m;
      assert NonWhite(canvas, xs[kb], ys[kb]);
    }
  }

  /** Since every non-white position is recorded, an empty record means there
      is no foreground, and the crop box encloses all of it. */
  lemma NonWhiteAreRecorded(canvas: Picture, xs: seq<int>, ys: seq<int>, fontSize: nat)
    requires |xs| == |ys|
    requires forall w, h :: InBounds(canvas, w, h) && canvas[w, h] != White ==>
      exists k :: 0 <= k < |xs| && xs[k] == w && ys[k] == h
    ensures |xs| == 0 ==> !HasNonWhite(canvas)
    ensures CropBox(xs, ys, fontSize).Success? ==> EnclosesNonWhite(canvas, CropBox(xs, ys, fontSize).value, MarginFactor * fontSize)
  {
    if |xs| > 0 {
      var box := CropBox(xs, ys, fontSize).value;
      var m := MarginFactor * fontSize;
      forall x, y | NonWhite(canvas, x, y)
        ensures box.left + m <= x <= box.right - m && box.top + m <= y <= box.bottom - m
      {
        var k :| 0 <= k < |xs| && xs[k] == x && ys[k] == y;
      }
    }
  }

  /** The intermediate canvas of the refiner is the picture `CanvasPixel`
      describes, so its non-white pixels are the foreground. */
  lemma CanvasIsForeground(image: Picture, fontSize: nat, bgColor: Rgb, canvas: Picture, box: Box)
    requires SizeOf(canvas) == Size(CanvasWidthFactor * fontSize, CanvasHeightFactor * fontSize)
    requires forall x, y :: InBounds(canvas, x, y) ==> canvas[x, y] == CanvasPixel(image, fontSize, bgColor, x, y)
    ensures HasNonWhite(canvas) <==> HasForeground(image, fontSize, bgColor)
    ensures TightBox(canvas, box, MarginFactor * fontSize) ==> BoundsForeground(image, fontSize, bgColor, box)
  {
    assert forall x, y :: NonWhite(canvas, x, y) <==> Foreground(image, fontSize, bgColor, x, y);
  }

  /** The intermediate canvas: 45 × font size wide, 100 × font size tall,
      background-filled, with `image` pasted at (18 × font size, 0). */
  method IntermediateCanvas(image: Picture, fontSize: nat, bgColor: Rgb) returns (canvas: Picture)
    ensures fresh(canvas)
    ensures SizeOf(canvas) == Size(CanvasWidthFactor * fontSize, CanvasHeightFactor * fontSize)
    ensures forall x, y :: InBounds(canvas, x, y) ==> canvas[x, y] == CanvasPixel(image, fontSize, bgColor, x, y)
  {
    canvas := NewPicture(CanvasWidthFactor * fontSize, CanvasHeightFactor * fontSize, bgColor);
    Paste(canvas, image, PasteOffsetFactor * fontSize, 0);
  }

  /** Cropping the intermediate canvas, padding with black, gives the
      picture `CroppedPixel` describes. */
  lemma CropOfCanvasIsCrop(image: Picture, fontSize: nat, bgColor: Rgb, canvas: Picture, box: Box, picture: Picture)
    requires SizeOf(canvas) == Size(CanvasWidthFactor * fontSize, CanvasHeightFactor * fontSize)
    requires forall x, y :: InBounds(canvas, x, y) ==> canvas[x, y] == CanvasPixel(image, fontSize, bgColor, x, y)
    requires forall x, y :: InBounds(picture, x, y) ==> picture[x, y] == PixelOr(canvas, box.left + x, box.top + y, Black)
    ensures CropOfCanvas(picture, image, fontSize, bgColor, box)
  {
    forall x, y | InBounds(picture, x, y)
      ensures picture[x, y] == CroppedPixel(image, fontSize, bgColor, box.left + x, box.top + y)
    {
      assert picture[x, y] == PixelOr(canvas, box.left + x, box.top + y, Black);
    }
  }

  /** The refiner. The input image is keyed in place; the result is the
      crop of the intermediate canvas, padded with black where the box
      reaches past the canvas, or an error when no pixel is non-white. */
  method RefineDrewTextImage(image: Picture, fontSize: nat, textColor: Rgb, bgColor: Rgb)
    returns (r: Result<Refined, RefineError>)
    modifies image
    ensures forall w, h :: InBounds(image, w, h) ==> image[w, h] == KeyPixel(old(image[w, h]), textColor, bgColor)
    ensures r.Failure? <==> !HasForeground(image, fontSize, bgColor)
    ensures r.Success? ==> BoundsForeground(image, fontSize, bgColor, r.value.cropBox)
    ensures r.Success? ==> fresh(r.value.picture)
    ensures r.Success? ==>
      SizeOf(r.value.picture) == Size(r.value.cropBox.right - r.value.cropBox.left, r.value.cropBox.bottom - r.value.cropBox.top)
    ensures r.Success? ==> CropOfCanvas(r.value.picture, image, fontSize, bgColor, r.value.cropBox)
  {
    ColorKey(image, textColor, bgColor);
    var canvas := IntermediateCanvas(image, fontSize, bgColor);
    var found := FindCropBox(canvas, fontSize);
    match found
    case Failure(e) =>
      CanvasIsForeground(image, fontSize, bgColor, canvas, Box(0, 0, 0, 0));
      r := Failure(e);
    case Success(box) =>
      CanvasIsForeground(image, fontSize, bgColor, canvas, box);
      var picture := Crop(canvas, box, Black);
      CropOfCanvasIsCrop(image, fontSize, bgColor, canvas, box, picture);
      r := Success(Refined(box, picture));
  }
}

/** What the refiner's error and crop box amount to for the colours it is
    given. */
module RefineFacts {
  import opened Pictures
  import opened Refine

  /** Whether image pixel (w, h), pasted at (18 × font size, h), lands on
      the intermediate canvas. */
  predicate Visible(fontSize: nat, w: int, h: int) {
    InCanvas(fontSize, PasteOffsetFactor * fontSize + w, h)
  }

  /** A background that is not white fills the canvas around the pasted
      image with non-white pixels, so the refiner never fails for it, not
      even when the text colour equals the background colour. */
  lemma NonWhiteBackgroundAlwaysFindsForeground(image: Picture, fontSize: nat, bgColor: Rgb)
    requires fontSize > 0 && bgColor != White
    ensures HasForeground(image, fontSize, bgColor)
  {
    assert Foreground(image, fontSize, bgColor, 0, 0);
  }

  /** At font size 0 the intermediate canvas is 0 × 0, so there is no
      foreground and the refiner fails whatever the colours. */
  lemma ZeroFontSizeHasNoForeground(image: Picture, bgColor: Rgb)
    ensures !HasForeground(image, 0, bgColor)
  {
  }

  /** With a white background, the foreground is exactly the text-coloured
      pixels of the keyed image that land on the canvas; so the refiner
      fails precisely when the text colour is white or no text-coloured
      pixel is visible. */
  lemma WhiteBackgroundForegroundIsText(image: Picture, fontSize: nat, textColor: Rgb)
    requires forall w, h :: InBounds(image, w, h) ==> image[w, h] == textColor || image[w, h] == White
    ensures HasForeground(image, fontSize, White) <==>
      textColor != White &&
      exists w, h :: InBounds(image, w, h) && Visible(fontSize, w, h) && image[w, h] == textColor
  {
    var offset := PasteOffsetFactor * fontSize;
    if HasForeground(image, fontSize, White) {
      var x, y :| Foreground(image, fontSize, White, x, y);
      assert InBounds(image, x - offset, y) && Visible(fontSize, x - offset, y) && image[x - offset, y] == textColor;
    }
    if textColor != White && exists w, h :: InBounds(image, w, h) && Visible(fontSize, w, h) && image[w, h] == textColor {
      var w, h :| InBounds(image, w, h) && Visible(fontSize, w, h) && image[w, h] == textColor;
      assert Foreground(image, fontSize, White, offset + w, h);
    }
  }

  /** With a white background, the refined picture is strictly smaller than
      the 45 × 100 font-size canvas whenever the image is at most 96 font
      sizes tall (a twisted image is 50). */
  lemma RefinedSmallerThanCanvas(image: Picture, fontSize: nat, box: Box)
    requires BoundsForeground(image, fontSize, White, box)
    requires image.Length1 <= (CanvasHeightFactor - 2 * MarginFactor) * fontSize
    ensures box.right - box.left < CanvasWidthFactor * fontSize
    ensures box.bottom - box.top < CanvasHeightFactor * fontSize
  {
    var m := MarginFactor * fontSize;
    var x1, y1 :| Foreground(image, fontSize, White, x1, y1) && x1 == box.left + m;
    var x2, y2 :| Foreground(image, fontSize, White, x2, y2) && x2 == box.right - m;
    var x3, y3 :| Foreground(image, fontSize, White, x3, y3) && y3 == box.top + m;
    var x4, y4 :| Foreground(image, fontSize, White, x4, y4) && y4 == box.bottom - m;
  }
}
