/** RGB raster images as PIL holds them once a frame has been converted:
    a width, a height and one row of pixels per scan line. */
module Raster {

  newtype byte = x: int | 0 <= x < 256

  datatype Pixel = Pixel(r: byte, g: byte, b: byte)

  /** The background colour of a new grid canvas, (255, 255, 255). */
  const White: Pixel := Pixel(255, 255, 255)

  /** `pixels[y][x]` is the pixel in column `x` of scan line `y`. */
  datatype Image = Image(width: nat, height: nat, pixels: seq<seq<Pixel>>) {

    predicate Valid() {
      && |pixels| == height
      && forall y :: 0 <= y < height ==> |pixels[y]| == width
    }

    predicate SameSize(other: Image) {
      width == other.width && height == other.height
    }

    function At(x: nat, y: nat): Pixel
      requires Valid() && x < width && y < height
    {
      pixels[y][x]
    }
  }

  /** `Image.new("RGB", (width, height), color)`: every pixel has the fill colour. */
  function Blank(width: nat, height: nat, color: Pixel): (img: Image)
    ensures img.Valid() && img.width == width && img.height == height
    ensures forall x, y :: 0 <= x < width && 0 <= y < height ==> img.At(x, y) == color
  {
    Image(width, height, seq(height, _ => seq(width, _ => color)))
  }

  /** PIL's `canvas.paste(img, (x0, y0))` without a mask: the pixels of `img`
      replace those under it at native resolution, anything falling outside
      the canvas is clipped, and every other canvas pixel is left as it was. */
  function Paste(canvas: Image, img: Image, x0: nat, y0: nat): (r: Image)
    requires canvas.Valid() && img.Valid()
    ensures r.Valid() && r.SameSize(canvas)
    ensures forall x, y :: 0 <= x < canvas.width && 0 <= y < canvas.height ==>
      r.At(x, y) == (if x0 <= x < x0 + img.width && y0 <= y < y0 + img.height
                     then img.At(x - x0, y - y0) else canvas.At(x, y))
  {
    Image(canvas.width, canvas.height,
      seq(canvas.height, y requires 0 <= y < canvas.height =>
        seq(canvas.width, x requires 0 <= x < canvas.width =>
          if x0 <= x < x0 + img.width && y0 <= y < y0 + img.height
          then img.pixels[y - y0][x - x0]
          else canvas.pixels[y][x])))
  }

  /** Images are equal when they agree in size and in every pixel. */
  lemma SamePixelsSameImage(a: Image, b: Image)
    requires a.Valid() && b.Valid() && a.SameSize(b)
    requires forall x: nat, y: nat :: x < a.width && y < a.height ==> a.At(x, y) == b.At(x, y)
    ensures a == b
  {
    forall y | 0 <= y < a.height
      ensures a.pixels[y] == b.pixels[y]
    {
      forall x | 0 <= x < a.width
        ensures a.pixels[y][x] == b.pixels[y][x]
      {
        assert a.At(x, y) == b.At(x, y);
      }
    }
  }
}
