/** The in-memory image: a row-major buffer of interleaved R, G, B bytes together with
    its width and height, and the pixel-level view of such a buffer. */
module Raster {
  import opened Bytes

  /** `RGB_COMPONENTS`. */
  const Components: int := 3

  /** `ImageData`: the pixel buffer (possibly null) and the two dimensions. */
  class ImageData {
    var data: array?<byte>
    var width: int
    var height: int

    constructor (data: array?<byte>, width: int, height: int)
      ensures this.data == data && this.width == width && this.height == height
    {
      this.data := data;
      this.width := width;
      this.height := height;
    }
  }

  /** The buffer an image routine may write: the image's pixel buffer when there is
      one. */
  function Buffer(image: ImageData?): set<object>
    reads image
  {
    if image != null && image.data != null then {image.data} else {}
  }

  /** What every routine asks of its caller: an image with a buffer covers the pixels
      its dimensions describe. */
  predicate Sized(image: ImageData?)
    reads image
  {
    image != null && image.data != null ==> Covers(image.width, image.height, image.data.Length)
  }

  /** The number of pixels the row-major scan `for y < height, for x < width` visits. */
  function PixelCount(width: int, height: int): (n: nat)
    ensures n == 0 <==> width <= 0 || height <= 0
    ensures width > 0 && height > 0 ==> n == width * height
  {
    if width > 0 && height > 0 then width * height else 0
  }

  /** The buffer holds every pixel the scan visits. */
  predicate Covers(width: int, height: int, length: int)
  {
    Components * PixelCount(width, height) <= length
  }

  /** The colour of pixel k. */
  function PixelAt(s: seq<byte>, k: int): Rgb
    requires 0 <= k && Components * k + 2 < |s|
  {
    Rgb(s[Components * k], s[Components * k + 1], s[Components * k + 2])
  }

  /** The buffer with pixel k replaced by c; every other byte is kept. */
  function SetPixel(s: seq<byte>, k: int, c: Rgb): (r: seq<byte>)
    requires 0 <= k && Components * k + 2 < |s|
    ensures |r| == |s|
    ensures PixelAt(r, k) == c
    ensures forall j :: 0 <= j < |s| && (j < Components * k || Components * k + 2 < j) ==> r[j] == s[j]
  {
    s[Components * k := c.r][Components * k + 1 := c.g][Components * k + 2 := c.b]
  }

  /** Pixels other than k keep their colour when pixel k is replaced. */
  lemma SetPixelOthers(s: seq<byte>, k: int, c: Rgb, j: int)
    requires 0 <= k && Components * k + 2 < |s|
    requires 0 <= j && Components * j + 2 < |s| && j != k
    ensures PixelAt(SetPixel(s, k, c), j) == PixelAt(s, j)
  {}

  // ---------------------------------------------------------------------------
  // Row-major index arithmetic.

  /** `y * width + x` of an in-image position lies inside the image, and it is the
      position's place in the row-major scan. */
  lemma RowMajorIndex(width: int, height: int, x: int, y: int)
    requires 0 <= x < width && 0 <= y < height
    ensures 0 <= y * width + x < PixelCount(width, height)
    ensures (y * width + x) / width == y && (y * width + x) % width == x
  {
    MulMonotone(y, height - 1, width);
    MulDifference(height, height - 1, width);
    LinearDivision(width, x, y);
  }

  lemma LinearDivision(width: int, x: int, y: int)
    requires 0 <= x < width && 0 <= y
    ensures (y * width + x) / width == y && (y * width + x) % width == x
  {
    DivUnique(y * width + x, width, y, x);
  }

  /** The next pixel of the scan: the end of row y is the start of row y + 1. */
  lemma NextRow(width: int, y: int)
    ensures y * width + width == (y + 1) * width
  {}

  /** In the scan order, an in-image position (nx, ny) below row y, or to the right of x
      on row y, comes after (x, y). */
  lemma LaterInScan(width: int, x: int, y: int, nx: int, ny: int)
    requires 0 <= x < width && 0 <= nx < width && 0 <= y
    requires ny > y || (ny == y && nx > x)
    ensures ny * width + nx > y * width + x
  {
    if ny > y {
      assert ny * width >= (y + 1) * width;
    }
  }
}
