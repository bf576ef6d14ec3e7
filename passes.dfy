/** The dithering routines of the current converter (also copied into the monolithic
    one), working in place on an image's pixel buffer. Each refuses a missing image or
    buffer, reporting it and touching nothing, and otherwise scans the pixels row by
    row. */
module DitherPasses {
  import opened Bytes
  import opened Color
  import opened Raster
  import opened Dither

  /** `genericDither`: every pixel, in row-major order, is replaced by its grid-nearest
      palette colour and its quantisation error is spread over the in-image neighbours
      the stencil names. The buffer ends up exactly as the scan specification says. */
  method GenericDither(image: ImageData?, matrix: Stencil) returns (reported: bool)
    requires Sized(image)
    modifies Buffer(image)
    ensures reported <==> image == null || image.data == null
    ensures !reported ==>
      image.data[..] == Dithered(QuantizeReduced, old(image.data[..]), image.width, image.height, matrix, PixelCount(image.width, image.height))
  {
    if image == null || image.data == null {
      return true;
    }
    reported := false;
    Scan(QuantizeReduced, image.data, image.width, image.height, matrix);
  }

  /** The two nested loops of `genericDither` over the rows y < height and the columns
      x < width, with the pixel replacement a parameter. */
  method Scan(quantize: Rgb -> Rgb, data: array<byte>, width: int, height: int, matrix: Stencil)
    requires Covers(width, height, data.Length)
    modifies data
    ensures data[..] == Dithered(quantize, old(data[..]), width, height, matrix, PixelCount(width, height))
  {
    ghost var s0 := data[..];
    ghost var done := 0;
    var y := 0;
    while y < height
      invariant 0 <= y && (height > 0 ==> y <= height)
      invariant width > 0 ==> done == y * width
      invariant width <= 0 ==> done == 0
      invariant 0 <= done <= PixelCount(width, height)
      invariant data[..] == Dithered(quantize, s0, width, height, matrix, done)
    {
      if width > 0 {
        done := DitherRow(quantize, data, width, height, matrix, y, s0);
        NextRow(width, y);
      }
      y := y + 1;
    }
    assert done == PixelCount(width, height) by {
      if width > 0 && height > 0 {
        assert done == height * width;
      }
    }
  }

  /** One row of the scan in `genericDither`: the pixels (0, y) to (width - 1, y) in
      turn. Before the row the first `done` pixels of the scan have been processed;
      after it, the pixels of row y as well, and `next` counts them. */
  method DitherRow(quantize: Rgb -> Rgb, data: array<byte>, width: int, height: int, matrix: Stencil, y: int, ghost s0: seq<byte>)
      returns (ghost next: int)
    requires Covers(width, height, |s0|) && data.Length == |s0| && 0 <= y < height && 0 < width
    requires y * width <= PixelCount(width, height)
    requires data[..] == Dithered(quantize, s0, width, height, matrix, y * width)
    modifies data
    ensures next == y * width + width && next <= PixelCount(width, height)
    ensures data[..] == Dithered(quantize, s0, width, height, matrix, next)
  {
    ghost var start := y * width;
    next := start;
    var x := 0;
    while x < width
      invariant 0 <= x <= width
      invariant next == start + x
      invariant 0 <= next <= PixelCount(width, height)
      invariant data[..] == Dithered(quantize, s0, width, height, matrix, next)
    {
      RowMajorIndex(width, height, x, y);
      DitherAt(quantize, data, width, height, matrix, x, y, s0, next);
      next := next + 1;
      x := x + 1;
    }
    RowMajorIndex(width, height, width - 1, y);
  }

  /** The body of the scan in `genericDither` for pixel (x, y), the k-th of the scan:
      store the pixel's palette colour, then spread its error over the stencil. After
      it the first k + 1 pixels of the scan have been processed. */
  method DitherAt(quantize: Rgb -> Rgb, data: array<byte>, width: int, height: int, matrix: Stencil, x: int, y: int, ghost s0: seq<byte>, ghost k: int)
    requires Covers(width, height, |s0|) && data.Length == |s0| && 0 <= x < width && 0 <= y < height
    requires k == y * width + x && 0 <= k < PixelCount(width, height)
    requires data[..] == Dithered(quantize, s0, width, height, matrix, k)
    modifies data
    ensures data[..] == Dithered(quantize, s0, width, height, matrix, k + 1)
  {
    var pos := y * width + x;
    var idx := pos * Components;
    ghost var before := data[..];
    var oldR, oldG, oldB := data[idx], data[idx + 1], data[idx + 2];
    assert PixelAt(before, k) == Rgb(oldR, oldG, oldB);
    var quantized := quantize(Rgb(oldR, oldG, oldB));
    data[idx], data[idx + 1], data[idx + 2] := quantized.r, quantized.g, quantized.b;
    assert data[..] == SetPixel(before, k, quantized);
    var err := Error(oldR - quantized.r, oldG - quantized.g, oldB - quantized.b);
    assert err == ErrorOf(PixelAt(before, k), quantized);
    SpreadError(data, width, height, x, y, err, matrix);
    DitheredAt(quantize, s0, width, height, matrix, x, y, k, before);
  }

  /** The stencil loop of `genericDither`: each entry whose offset lands inside the
      image makes that neighbour absorb its share of the error, clamped to a byte. */
  method SpreadError(data: array<byte>, width: int, height: int, x: int, y: int, err: Error, matrix: Stencil)
    requires Covers(width, height, data.Length) && 0 <= x < width && 0 <= y < height
    modifies data
    ensures data[..] == Spread(old(data[..]), width, height, x, y, err, matrix)
  {
    ghost var s1 := data[..];
    var i := 0;
    while i < |matrix|
      invariant 0 <= i <= |matrix|
      invariant data[..] == Spread(s1, width, height, x, y, err, matrix[..i])
    {
      var nx, ny := x + matrix[i].dx, y + matrix[i].dy;
      assert matrix[..i + 1][..i] == matrix[..i];
      if nx >= 0 && nx < width && ny >= 0 && ny < height {
        RowMajorIndex(width, height, nx, ny);
        var adj := (ny * width + nx) * Components;
        var e := matrix[i];
        data[adj] := Diffuse(data[adj], err.r, e.num, e.den);
        data[adj + 1] := Diffuse(data[adj + 1], err.g, e.num, e.den);
        data[adj + 2] := Diffuse(data[adj + 2], err.b, e.num, e.den);
      }
      i := i + 1;
    }
    assert matrix[..|matrix|] == matrix;
  }

  /** `floydSteinbergDither`. */
  method FloydSteinbergDither(image: ImageData?) returns (reported: bool)
    requires Sized(image)
    modifies Buffer(image)
    ensures reported <==> image == null || image.data == null
    ensures !reported ==>
      image.data[..] == Dithered(QuantizeReduced, old(image.data[..]), image.width, image.height, FloydSteinberg(), PixelCount(image.width, image.height))
  {
    reported := GenericDither(image, FloydSteinberg());
  }

  /** `jarvisDither`. */
  method JarvisDither(image: ImageData?) returns (reported: bool)
    requires Sized(image)
    modifies Buffer(image)
    ensures reported <==> image == null || image.data == null
    ensures !reported ==>
      image.data[..] == Dithered(QuantizeReduced, old(image.data[..]), image.width, image.height, Jarvis(), PixelCount(image.width, image.height))
  {
    reported := GenericDither(image, Jarvis());
  }

  /** `atkinsonDither`. */
  method AtkinsonDither(image: ImageData?) returns (reported: bool)
    requires Sized(image)
    modifies Buffer(image)
    ensures reported <==> image == null || image.data == null
    ensures !reported ==>
      image.data[..] == Dithered(QuantizeReduced, old(image.data[..]), image.width, image.height, Atkinson(), PixelCount(image.width, image.height))
  {
    reported := GenericDither(image, Atkinson());
  }

  /** `bayer16x16Dither`: every pixel is replaced by the palette colour of its channels
      offset by the tiled threshold at its place; no error is carried to other pixels. */
  method Bayer16x16Dither(image: ImageData?) returns (reported: bool)
    requires Sized(image)
    modifies Buffer(image)
    ensures reported <==> image == null || image.data == null
    ensures !reported ==>
      image.data[..] == Recolored(BayerAt, old(image.data[..]), image.width, image.height, PixelCount(image.width, image.height))
  {
    if image == null || image.data == null {
      return true;
    }
    reported := false;
    Recolor(BayerAt, image.data, image.width, image.height);
  }

  /** `noDither`: every pixel is replaced by its grid-nearest palette colour. */
  method NoDither(image: ImageData?) returns (reported: bool)
    requires Sized(image)
    modifies Buffer(image)
    ensures reported <==> image == null || image.data == null
    ensures !reported ==>
      image.data[..] == Recolored(NoDitherAt, old(image.data[..]), image.width, image.height, PixelCount(image.width, image.height))
  {
    if image == null || image.data == null {
      return true;
    }
    reported := false;
    Recolor(NoDitherAt, image.data, image.width, image.height);
  }

  /** The two nested loops of `bayer16x16Dither` and `noDither`, with what is stored for
      a pixel a parameter. */
  method Recolor(recolor: (Rgb, int, int) -> Rgb, data: array<byte>, width: int, height: int)
    requires Covers(width, height, data.Length)
    modifies data
    ensures data[..] == Recolored(recolor, old(data[..]), width, height, PixelCount(width, height))
  {
    ghost var s0 := data[..];
    ghost var done := 0;
    var y := 0;
    while y < height
      invariant 0 <= y && (height > 0 ==> y <= height)
      invariant width > 0 ==> done == y * width
      invariant width <= 0 ==> done == 0
      invariant 0 <= done <= PixelCount(width, height)
      invariant data[..] == Recolored(recolor, s0, width, height, done)
    {
      if width > 0 {
        done := RecolorRow(recolor, data, width, height, y, s0);
        NextRow(width, y);
      }
      y := y + 1;
    }
    assert done == PixelCount(width, height) by {
      if width > 0 && height > 0 {
        assert done == height * width;
      }
    }
  }

  /** One row of the pixel-by-pixel pass: the pixels (0, y) to (width - 1, y). */
  method RecolorRow(recolor: (Rgb, int, int) -> Rgb, data: array<byte>, width: int, height: int, y: int, ghost s0: seq<byte>)
      returns (ghost next: int)
    requires Covers(width, height, |s0|) && data.Length == |s0| && 0 <= y < height && 0 < width
    requires y * width <= PixelCount(width, height)
    requires data[..] == Recolored(recolor, s0, width, height, y * width)
    modifies data
    ensures next == y * width + width && next <= PixelCount(width, height)
    ensures data[..] == Recolored(recolor, s0, width, height, next)
  {
    ghost var start := y * width;
    next := start;
    var x := 0;
    while x < width
      invariant 0 <= x <= width
      invariant next == start + x
      invariant 0 <= next <= PixelCount(width, height)
      invariant data[..] == Recolored(recolor, s0, width, height, next)
    {
      RowMajorIndex(width, height, x, y);
      RecolorAt(recolor, data, width, height, x, y, s0, next);
      next := next + 1;
      x := x + 1;
    }
    RowMajorIndex(width, height, width - 1, y);
  }

  /** Pixel (x, y), the k-th of the scan: read its channels, store what `recolor` makes
      of them. */
  method RecolorAt(recolor: (Rgb, int, int) -> Rgb, data: array<byte>, width: int, height: int, x: int, y: int, ghost s0: seq<byte>, ghost k: int)
    requires Covers(width, height, |s0|) && data.Length == |s0| && 0 <= x < width && 0 <= y < height
    requires k == y * width + x && 0 <= k < PixelCount(width, height)
    requires data[..] == Recolored(recolor, s0, width, height, k)
    modifies data
    ensures data[..] == Recolored(recolor, s0, width, height, k + 1)
  {
    var idx := (y * width + x) * Components;
    ghost var before := data[..];
    var r, g, b := data[idx], data[idx + 1], data[idx + 2];
    PixelKeptAbove(before, s0, k);
    assert Rgb(r, g, b) == PixelAt(s0, k);
    var c := recolor(Rgb(r, g, b), x, y);
    data[idx], data[idx + 1], data[idx + 2] := c.r, c.g, c.b;
    DivUnique(k, width, y, x);
    assert data[..] == SetPixel(before, k, c);
  }
}
