/** Pixel buffers as the imaging library holds them, and the buffer
    primitives the script relies on: a filled canvas, paste and crop. */
module Pictures {
  /** One 8-bit colour channel. */
  type Channel = c: int | 0 <= c < 256

  /** An RGB pixel; named colours are written as their triples. */
  datatype Rgb = Rgb(r: Channel, g: Channel, b: Channel)

  const White: Rgb := Rgb(255, 255, 255)
  const Black: Rgb := Rgb(0, 0, 0)

  /** A raster image: `p[x, y]` is the pixel in column x and row y, so
      `p.Length0` is the width and `p.Length1` the height. */
  type Picture = array2<Rgb>

  datatype Size = Size(width: nat, height: nat)

  /** A crop box as the imaging library takes it: left and top inclusive,
      right and bottom exclusive. */
  datatype Box = Box(left: int, top: int, right: int, bottom: int)

  function SizeOf(p: Picture): Size {
    Size(p.Length0, p.Length1)
  }

  predicate InBounds(p: Picture, x: int, y: int) {
    0 <= x < p.Length0 && 0 <= y < p.Length1
  }

  /** Whether (x, y) lies in the w×h rectangle whose top-left corner is (dx, dy). */
  predicate Covers(dx: int, dy: int, w: int, h: int, x: int, y: int) {
    dx <= x < dx + w && dy <= y < dy + h
  }

  /** The pixel at (x, y), or `outside` when (x, y) is off the picture. */
  function PixelOr(p: Picture, x: int, y: int, outside: Rgb): Rgb
    reads p
  {
    if InBounds(p, x, y) then p[x, y] else outside
  }

  /** `Image.new`: a fresh width×height picture filled with one colour. */
  method NewPicture(width: nat, height: nat, fill: Rgb) returns (p: Picture)
    ensures fresh(p)
    ensures SizeOf(p) == Size(width, height)
    ensures forall x, y :: InBounds(p, x, y) ==> p[x, y] == fill
  {
    p := new Rgb[width, height]((x, y) => fill);
  }

  /** `Image.paste`: copies `src` onto `dst` with its top-left corner at
      (dx, dy); whatever falls outside `dst` is clipped. */
  method Paste(dst: Picture, src: Picture, dx: int, dy: int)
    requires dst != src
    modifies dst
    ensures forall x, y :: InBounds(dst, x, y) ==>
      dst[x, y] == if Covers(dx, dy, src.Length0, src.Length1, x, y) then src[x - dx, y - dy] else old(dst[x, y])
  {
    var i := 0;
    while i < src.Length0
      invariant 0 <= i <= src.Length0
      invariant forall x, y :: InBounds(dst, x, y) ==>
        dst[x, y] == if Covers(dx, dy, i, src.Length1, x, y) then src[x - dx, y - dy] else old(dst[x, y])
    {
      var j := 0;
      while j < src.Length1
        invariant 0 <= j <= src.Length1
        invariant forall x, y :: InBounds(dst, x, y) ==>
          dst[x, y] == if Covers(dx, dy, i, src.Length1, x, y) || Covers(dx + i, dy, 1, j, x, y)
                       then src[x - dx, y - dy] else old(dst[x, y])
      {
        if InBounds(dst, dx + i, dy + j) {
          dst[dx + i, dy + j] := src[i, j];
        }
        j := j + 1;
      }
      i := i + 1;
    }
  }

  /** `Image.crop`: a fresh picture holding the part of `src` inside `box`;
      the part of the box off `src` is filled with `outside`. */
  method Crop(src: Picture, box: Box, outside: Rgb) returns (dst: Picture)
    requires box.left <= box.right && box.top <= box.bottom
    ensures fresh(dst)
    ensures SizeOf(dst) == Size(box.right - box.left, box.bottom - box.top)
    ensures forall x, y :: InBounds(dst, x, y) ==> dst[x, y] == PixelOr(src, box.left + x, box.top + y, outside)
  {
    dst := new Rgb[box.right - box.left, box.bottom - box.top]((x, y) reads src => PixelOr(src, box.left + x, box.top + y, outside));
  }
}
