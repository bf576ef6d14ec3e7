/** The error-diffusion engine: a pixel is replaced by its quantised colour and the
    difference is spread over later neighbours through a stencil of weighted offsets.
    This module holds the step-by-step specification of one raster scan; the methods
    that perform it in place on a buffer are in `DitherPasses`. */
module Dither {
  import opened Bytes
  import opened Color
  import opened Raster

  /** `ErrorDiffusionEntry`: a neighbour offset and its weight num / den. */
  datatype Entry = Entry(dx: int, dy: int, num: int, den: pos)

  /** The entries a diffusion routine hands to the driver, in order. */
  type Stencil = seq<Entry>

  /** Every offset points to a pixel the row-major scan has not reached yet: a lower
      row, or the same row further right. */
  predicate Forward(st: Stencil)
  {
    forall i :: 0 <= i < |st| ==> st[i].dy > 0 || (st[i].dy == 0 && st[i].dx > 0)
  }

  /** The sum of the weights of a stencil. */
  function WeightSum(st: Stencil): real
  {
    if |st| == 0 then 0.0 else st[0].num as real / st[0].den as real + WeightSum(st[1..])
  }

  /** The weight of two stencils run one after the other is the sum of their weights. */
  lemma {:induction false} WeightSumAppend(a: Stencil, b: Stencil)
    ensures WeightSum(a + b) == WeightSum(a) + WeightSum(b)
  {
    if |a| == 0 {
      assert a + b == b;
    } else {
      assert (a + b)[1..] == a[1..] + b;
      WeightSumAppend(a[1..], b);
    }
  }

  /** Every weight has the given denominator. */
  predicate Over(st: Stencil, den: int)
  {
    forall i :: 0 <= i < |st| ==> st[i].den == den
  }

  /** The matrix of `floydSteinbergDither`: 7, 3, 5 and 1 sixteenths. */
  function FloydSteinberg(): (st: Stencil)
    ensures |st| == 4 && Forward(st) && Over(st, 16) && WeightSum(st) == 1.0
  {
    var st := [Entry(1, 0, 7, 16), Entry(-1, 1, 3, 16), Entry(0, 1, 5, 16), Entry(1, 1, 1, 16)];
    assert st[3..][1..] == [];
    assert WeightSum(st[3..]) == 1.0 / 16.0;
    assert st[2..][1..] == st[3..];
    assert WeightSum(st[2..]) == 6.0 / 16.0;
    assert st[1..][1..] == st[2..];
    assert WeightSum(st[1..]) == 9.0 / 16.0;
    st
  }

  /** The matrix of `jarvisDither`: twelve neighbours over two rows below and two
      columns to each side, in 48ths. */
  function Jarvis(): (st: Stencil)
    ensures |st| == 12 && Forward(st) && Over(st, 48) && WeightSum(st) == 1.0
  {
    var near := [Entry(1, 0, 7, 48), Entry(2, 0, 5, 48)];
    var middle := [Entry(-2, 1, 3, 48), Entry(-1, 1, 5, 48), Entry(0, 1, 7, 48), Entry(1, 1, 5, 48), Entry(2, 1, 3, 48)];
    var far := [Entry(-2, 2, 1, 48), Entry(-1, 2, 3, 48), Entry(0, 2, 5, 48), Entry(1, 2, 3, 48), Entry(2, 2, 1, 48)];
    assert near[1..][1..] == [];
    assert WeightSum(near[1..]) == 5.0 / 48.0;
    assert middle[4..][1..] == [];
    assert WeightSum(middle[4..]) == 3.0 / 48.0;
    assert middle[3..][1..] == middle[4..];
    assert WeightSum(middle[3..]) == 8.0 / 48.0;
    assert middle[2..][1..] == middle[3..];
    assert WeightSum(middle[2..]) == 15.0 / 48.0;
    assert middle[1..][1..] == middle[2..];
    assert WeightSum(middle[1..]) == 20.0 / 48.0;
    assert far[4..][1..] == [];
    assert WeightSum(far[4..]) == 1.0 / 48.0;
    assert far[3..][1..] == far[4..];
    assert WeightSum(far[3..]) == 4.0 / 48.0;
    assert far[2..][1..] == far[3..];
    assert WeightSum(far[2..]) == 9.0 / 48.0;
    assert far[1..][1..] == far[2..];
    assert WeightSum(far[1..]) == 12.0 / 48.0;
    WeightSumAppend(near, middle);
    WeightSumAppend(near + middle, far);
    near + middle + far
  }

  /** The matrix of `atkinsonDither`: six neighbours of one eighth each, so only
      three quarters of the error is passed on. */
  function Atkinson(): (st: Stencil)
    ensures |st| == 6 && Forward(st) && Over(st, 8) && WeightSum(st) == 0.75
  {
    var st :=
      [Entry(1, 0, 1, 8), Entry(2, 0, 1, 8),
       Entry(-1, 1, 1, 8), Entry(0, 1, 1, 8), Entry(1, 1, 1, 8),
       Entry(0, 2, 1, 8)];
    assert st[5..][1..] == [];
    assert WeightSum(st[5..]) == 1.0 / 8.0;
    assert st[4..][1..] == st[5..];
    assert WeightSum(st[4..]) == 2.0 / 8.0;
    assert st[3..][1..] == st[4..];
    assert WeightSum(st[3..]) == 3.0 / 8.0;
    assert st[2..][1..] == st[3..];
    assert WeightSum(st[2..]) == 4.0 / 8.0;
    assert st[1..][1..] == st[2..];
    assert WeightSum(st[1..]) == 5.0 / 8.0;
    st
  }

  // ---------------------------------------------------------------------------
  // One neighbour update.

  /** The quantisation error of one pixel, per channel: old minus new. */
  datatype Error = Error(r: int, g: int, b: int)

  function ErrorOf(before: Rgb, after: Rgb): Error
  {
    Error(before.r - after.r, before.g - after.g, before.b - after.b)
  }

  /** `(uint8_t)fmin(255, fmax(0, v + e * w))` for the weight w = num / den. With
      n = den * v + num * e, so that v + e * w = n / den: a negative sum gives 0, a
      sum of 255 or more gives 255, and otherwise the result r is the floor of the
      sum, r <= n / den < r + 1. */
  function Diffuse(v: byte, e: int, num: int, den: pos): (r: byte)
    ensures var n := den * v + num * e;
      (n < 0 ==> r == 0) && (n >= 255 * den ==> r == 255) &&
      (0 <= n < 255 * den ==> r * den <= n < r * den + den)
  {
    var n := den * v + num * e;
    FloorDivision(n, den);
    Clamp(n / den)
  }

  /** A neighbour update never lowers a channel for a non-negative error. */
  lemma DiffuseNonNegative(v: byte, e: int, num: int, den: pos)
    requires e >= 0 && num >= 0
    ensures Diffuse(v, e, num, den) >= v
  {
    var n := den * v + num * e;
    assert n >= den * v;
    FloorDivision(n, den);
    if n < 255 * den {
      MulDifference(v + 1, Diffuse(v, e, num, den), den);
      if Diffuse(v, e, num, den) < v {
        MulAtLeast(v - Diffuse(v, e, num, den), den);
      }
    }
  }

  /** The neighbour an entry reaches from (x, y) lies inside the image. */
  predicate Reaches(width: int, height: int, x: int, y: int, e: Entry)
  {
    0 <= x + e.dx < width && 0 <= y + e.dy < height
  }

  /** The scan position of the neighbour an entry reaches from (x, y). */
  function Target(width: int, x: int, y: int, e: Entry): int
  {
    (y + e.dy) * width + (x + e.dx)
  }

  /** The neighbour's colour after it absorbs the weighted error. */
  function Absorb(c: Rgb, err: Error, e: Entry): Rgb
  {
    Rgb(Diffuse(c.r, err.r, e.num, e.den), Diffuse(c.g, err.g, e.num, e.den), Diffuse(c.b, err.b, e.num, e.den))
  }

  /** The neighbour an entry reaches from (x, y), when it lies inside the image, is a
      pixel of the image, and a forward offset reaches a pixel later in the scan. */
  lemma EntryTarget(width: int, height: int, x: int, y: int, e: Entry)
    requires 0 <= x < width && 0 <= y < height
    ensures Reaches(width, height, x, y, e) ==>
      0 <= Target(width, x, y, e) < PixelCount(width, height) &&
      ((e.dy > 0 || (e.dy == 0 && e.dx > 0)) ==> Target(width, x, y, e) > y * width + x)
  {
    var nx, ny := x + e.dx, y + e.dy;
    if Reaches(width, height, x, y, e) {
      RowMajorIndex(width, height, nx, ny);
      if e.dy > 0 || (e.dy == 0 && e.dx > 0) {
        LaterInScan(width, x, y, nx, ny);
      }
    }
  }

  /** One stencil entry applied from pixel (x, y): if the offset lands inside the
      image, the neighbour absorbs the weighted error and no other byte changes;
      otherwise the buffer is unchanged. */
  function DiffuseEntry(s: seq<byte>, width: int, height: int, x: int, y: int, err: Error, e: Entry): (r: seq<byte>)
    requires Covers(width, height, |s|) && 0 <= x < width && 0 <= y < height
    ensures |r| == |s|
    ensures !Reaches(width, height, x, y, e) ==> r == s
    ensures Reaches(width, height, x, y, e) ==>
      0 <= Target(width, x, y, e) < PixelCount(width, height) &&
      PixelAt(r, Target(width, x, y, e)) == Absorb(PixelAt(s, Target(width, x, y, e)), err, e)
    ensures Reaches(width, height, x, y, e) ==>
      forall i :: 0 <= i < |s| && (i < Components * Target(width, x, y, e) || Components * Target(width, x, y, e) + 2 < i) ==> r[i] == s[i]
  {
    EntryTarget(width, height, x, y, e);
    if Reaches(width, height, x, y, e) then
      var j := Target(width, x, y, e);
      SetPixel(s, j, Absorb(PixelAt(s, j), err, e))
    else
      s
  }

  /** The entries of a stencil applied one after the other from pixel (x, y). Bytes
      past the image are never touched. */
  function Spread(s: seq<byte>, width: int, height: int, x: int, y: int, err: Error, st: Stencil): (r: seq<byte>)
    requires Covers(width, height, |s|) && 0 <= x < width && 0 <= y < height
    ensures |r| == |s|
    ensures forall i :: Components * PixelCount(width, height) <= i < |s| ==> r[i] == s[i]
    decreases |st|
  {
    if |st| == 0 then s
    else
      var mid := Spread(s, width, height, x, y, err, st[..|st| - 1]);
      var e := st[|st| - 1];
      var r := DiffuseEntry(mid, width, height, x, y, err, e);
      if Reaches(width, height, x, y, e) then
        EntryTarget(width, height, x, y, e);
        OutsidePixelKept(mid, r, Target(width, x, y, e), 0, PixelCount(width, height));
        r
      else
        r
  }

  /** With a forward stencil, spreading the error of pixel (x, y) touches neither that
      pixel nor any pixel before it in the scan. */
  lemma {:induction false} SpreadKeepsVisited(s: seq<byte>, width: int, height: int, x: int, y: int, err: Error, st: Stencil)
    requires Covers(width, height, |s|) && 0 <= x < width && 0 <= y < height
    requires Forward(st)
    ensures forall i :: 0 <= i < Components * (y * width + x + 1) && i < |s| ==> Spread(s, width, height, x, y, err, st)[i] == s[i]
    decreases |st|
  {
    if |st| > 0 {
      var prefix, e := st[..|st| - 1], st[|st| - 1];
      assert Forward(prefix);
      SpreadKeepsVisited(s, width, height, x, y, err, prefix);
      var mid := Spread(s, width, height, x, y, err, prefix);
      var r := DiffuseEntry(mid, width, height, x, y, err, e);
      assert e.dy > 0 || (e.dy == 0 && e.dx > 0);
      if Reaches(width, height, x, y, e) {
        EntryTarget(width, height, x, y, e);
        var t := Target(width, x, y, e);
        forall i | 0 <= i < Components * (y * width + x + 1) && i < |s|
          ensures r[i] == mid[i]
        {
          assert i < Components * t;
        }
      }
    }
  }

  /** A buffer that differs from another only in pixel t agrees with it on every
      byte before pixel lo <= t and from pixel hi > t on. */
  lemma OutsidePixelKept(s: seq<byte>, r: seq<byte>, t: int, lo: int, hi: int)
    requires |r| == |s| && 0 <= lo <= t < hi
    requires forall i :: 0 <= i < |s| && (i < Components * t || Components * t + 2 < i) ==> r[i] == s[i]
    ensures forall i :: 0 <= i < Components * lo && i < |s| ==> r[i] == s[i]
    ensures forall i :: Components * hi <= i < |s| ==> r[i] == s[i]
  {}

  // ---------------------------------------------------------------------------
  // The raster scan.

  /** Position k of the scan is column k % width of row k / width. */
  lemma ScanPosition(width: int, height: int, k: int)
    requires 0 <= k < PixelCount(width, height)
    ensures 0 <= k % width < width && 0 <= k / width < height
    ensures k / width * width + k % width == k
  {
    if k / width >= height {
      MulDifference(k / width, height, width);
      MulAtLeast(k / width - height + 1, width);
    }
  }

  /** The body of the scan for pixel k: store its quantised colour, then spread the
      error it leaves over the stencil. */
  function DitherPixel(quantize: Rgb -> Rgb, s: seq<byte>, width: int, height: int, st: Stencil, k: int): (r: seq<byte>)
    requires Covers(width, height, |s|) && 0 <= k < PixelCount(width, height)
    ensures |r| == |s|
    ensures forall i :: Components * PixelCount(width, height) <= i < |s| ==> r[i] == s[i]
  {
    ScanPosition(width, height, k);
    var before := PixelAt(s, k);
    var after := quantize(before);
    Spread(SetPixel(s, k, after), width, height, k % width, k / width, ErrorOf(before, after), st)
  }

  /** With a forward stencil, processing pixel k leaves every earlier pixel alone and
      leaves pixel k at the quantised colour of its value. */
  lemma DitherPixelSettles(quantize: Rgb -> Rgb, s: seq<byte>, width: int, height: int, st: Stencil, k: int)
    requires Covers(width, height, |s|) && 0 <= k < PixelCount(width, height)
    requires Forward(st)
    ensures forall i :: 0 <= i < Components * k ==> DitherPixel(quantize, s, width, height, st, k)[i] == s[i]
    ensures PixelAt(DitherPixel(quantize, s, width, height, st, k), k) == quantize(PixelAt(s, k))
  {
    ScanPosition(width, height, k);
    var x, y := k % width, k / width;
    var before := PixelAt(s, k);
    var after := quantize(before);
    var s1 := SetPixel(s, k, after);
    SpreadKeepsVisited(s1, width, height, x, y, ErrorOf(before, after), st);
    var r := DitherPixel(quantize, s, width, height, st, k);
    assert Components * (y * width + x + 1) == Components * k + 3;
    assert r[Components * k] == s1[Components * k];
    assert r[Components * k + 1] == s1[Components * k + 1];
    assert r[Components * k + 2] == s1[Components * k + 2];
  }

  /** The buffer after the scan has processed its first n pixels. */
  function Dithered(quantize: Rgb -> Rgb, s: seq<byte>, width: int, height: int, st: Stencil, n: int): (r: seq<byte>)
    requires Covers(width, height, |s|) && 0 <= n <= PixelCount(width, height)
    ensures |r| == |s|
    ensures forall i :: Components * PixelCount(width, height) <= i < |s| ==> r[i] == s[i]
  {
    if n == 0 then s else DitherPixel(quantize, Dithered(quantize, s, width, height, st, n - 1), width, height, st, n - 1)
  }

  /** With a forward stencil, once pixel k has been processed it never changes again:
      it keeps the quantised colour of the value it had when the scan reached it. */
  lemma {:induction false} DitheredKeepsVisited(quantize: Rgb -> Rgb, s: seq<byte>, width: int, height: int, st: Stencil, n: int, k: int)
    requires Covers(width, height, |s|) && 0 <= k < n <= PixelCount(width, height)
    requires Forward(st)
    ensures PixelAt(Dithered(quantize, s, width, height, st, n), k)
         == quantize(PixelAt(Dithered(quantize, s, width, height, st, k), k))
  {
    DitheredStep(quantize, s, width, height, st, n);
    if n - 1 > k {
      DitheredKeepsVisited(quantize, s, width, height, st, n - 1, k);
      PixelKept(Dithered(quantize, s, width, height, st, n - 1), Dithered(quantize, s, width, height, st, n), k, n - 1);
    }
  }

  /** Step n of the scan, with a forward stencil, leaves the bytes of the pixels before
      n - 1 alone and settles pixel n - 1. */
  lemma DitheredStep(quantize: Rgb -> Rgb, s: seq<byte>, width: int, height: int, st: Stencil, n: int)
    requires Covers(width, height, |s|) && 0 < n <= PixelCount(width, height)
    requires Forward(st)
    ensures var prev, cur := Dithered(quantize, s, width, height, st, n - 1), Dithered(quantize, s, width, height, st, n);
      (forall i :: 0 <= i < Components * (n - 1) ==> cur[i] == prev[i]) &&
      PixelAt(cur, n - 1) == quantize(PixelAt(prev, n - 1))
  {
    var prev := Dithered(quantize, s, width, height, st, n - 1);
    DitheredUnfold(quantize, s, width, height, st, n);
    DitherPixelSettles(quantize, prev, width, height, st, n - 1);
  }

  lemma DitheredUnfold(quantize: Rgb -> Rgb, s: seq<byte>, width: int, height: int, st: Stencil, n: int)
    requires Covers(width, height, |s|) && 0 < n <= PixelCount(width, height)
    ensures Dithered(quantize, s, width, height, st, n) == DitherPixel(quantize, Dithered(quantize, s, width, height, st, n - 1), width, height, st, n - 1)
  {}

  /** Step k + 1 of the scan, for the pixel k at column x of row y: the buffer `before`
      the step gets pixel k's quantised colour, then the error is spread around (x, y). */
  lemma DitheredAt(quantize: Rgb -> Rgb, s: seq<byte>, width: int, height: int, st: Stencil, x: int, y: int, k: int, before: seq<byte>)
    requires Covers(width, height, |s|) && 0 <= x < width && 0 <= y < height
    requires k == y * width + x && 0 <= k < PixelCount(width, height)
    requires before == Dithered(quantize, s, width, height, st, k)
    ensures Dithered(quantize, s, width, height, st, k + 1)
         == Spread(SetPixel(before, k, quantize(PixelAt(before, k))), width, height, x, y,
                   ErrorOf(PixelAt(before, k), quantize(PixelAt(before, k))), st)
  {
    DivUnique(k, width, y, x);
    DitheredUnfold(quantize, s, width, height, st, k + 1);
  }

  /** A pixel lying wholly before byte 3 * m keeps its colour when those bytes do. */
  lemma PixelKept(s: seq<byte>, r: seq<byte>, k: int, m: int)
    requires |r| == |s| && 0 <= k < m && Components * m <= |s|
    requires forall i :: 0 <= i < Components * m ==> r[i] == s[i]
    ensures PixelAt(r, k) == PixelAt(s, k)
  {
    var i := Components * k;
    assert i + 2 < Components * m;
    assert r[i] == s[i] && r[i + 1] == s[i + 1] && r[i + 2] == s[i + 2];
  }

  /** With a forward stencil and the grid-nearest quantiser, every pixel of the image
      holds a palette colour once the scan is over. */
  lemma DitheredToPalette(s: seq<byte>, width: int, height: int, st: Stencil)
    requires Covers(width, height, |s|) && Forward(st)
    ensures var r := Dithered(QuantizeReduced, s, width, height, st, PixelCount(width, height));
      forall k :: 0 <= k < PixelCount(width, height) ==> IsPaletteColor(PixelAt(r, k))
  {
    forall k | 0 <= k < PixelCount(width, height)
      ensures IsPaletteColor(PixelAt(Dithered(QuantizeReduced, s, width, height, st, PixelCount(width, height)), k))
    {
      var r := Dithered(QuantizeReduced, s, width, height, st, PixelCount(width, height));
      DitheredKeepsVisited(QuantizeReduced, s, width, height, st, PixelCount(width, height), k);
      QuantizeReducedIsPalette(PixelAt(Dithered(QuantizeReduced, s, width, height, st, k), k));
    }
  }

  /** With a forward stencil and the bit truncation, every pixel of the image has the
      low five bits of red and green and the low six bits of blue clear once the scan
      is over. */
  lemma DitheredToTruncated(s: seq<byte>, width: int, height: int, st: Stencil)
    requires Covers(width, height, |s|) && Forward(st)
    ensures var r := Dithered(Truncate332, s, width, height, st, PixelCount(width, height));
      forall k :: 0 <= k < PixelCount(width, height) ==>
        PixelAt(r, k).r % 32 == 0 && PixelAt(r, k).g % 32 == 0 && PixelAt(r, k).b % 64 == 0
  {
    forall k | 0 <= k < PixelCount(width, height)
      ensures var c := PixelAt(Dithered(Truncate332, s, width, height, st, PixelCount(width, height)), k);
        c.r % 32 == 0 && c.g % 32 == 0 && c.b % 64 == 0
    {
      DitheredKeepsVisited(Truncate332, s, width, height, st, PixelCount(width, height), k);
    }
  }

  // ---------------------------------------------------------------------------
  // The ordered dither.

  /** `BAYER_SIZE`. */
  const BayerSize: int := 16

  /** `BAYER_MATRIX_16X16`, row by row. */
  const BayerMatrix: seq<seq<byte>> :=
    [
     [0, 128, 32, 160, 8, 136, 40, 168, 2, 130, 34, 162, 10, 138, 42, 170],
     [192, 64, 224, 96, 200, 72, 232, 104, 194, 66, 226, 98, 202, 74, 234, 106],
     [48, 176, 16, 144, 56, 184, 24, 152, 50, 178, 18, 146, 58, 186, 26, 154],
     [240, 112, 208, 80, 248, 120, 216, 88, 242, 114, 210, 82, 250, 122, 218, 90],
     [12, 140, 44, 172, 4, 132, 36, 164, 14, 142, 46, 174, 6, 134, 38, 166],
     [204, 76, 236, 108, 196, 68, 228, 100, 206, 78, 238, 110, 198, 70, 230, 102],
     [60, 188, 28, 156, 52, 180, 20, 148, 62, 190, 30, 158, 54, 182, 22, 150],
     [252, 124, 220, 92, 244, 116, 212, 84, 254, 126, 222, 94, 246, 118, 214, 86],
     [3, 131, 35, 163, 11, 139, 43, 171, 1, 129, 33, 161, 9, 137, 41, 169],
     [195, 67, 227, 99, 203, 75, 235, 107, 193, 65, 225, 97, 201, 73, 233, 105],
     [51, 179, 19, 147, 59, 187, 27, 155, 49, 177, 17, 145, 57, 185, 25, 153],
     [243, 115, 211, 83, 251, 123, 219, 91, 241, 113, 209, 81, 249, 121, 217, 89],
     [15, 143, 47, 175, 7, 135, 39, 167, 13, 141, 45, 173, 5, 133, 37, 165],
     [207, 79, 239, 111, 199, 71, 231, 103, 205, 77, 237, 109, 197, 69, 229, 101],
     [63, 191, 31, 159, 55, 183, 23, 151, 61, 189, 29, 157, 53, 181, 21, 149],
     [255, 127, 223, 95, 247, 119, 215, 87, 253, 125, 221, 93, 245, 117, 213, 85]
    ]

  /** The rule the matrix follows: reading the threshold's bits from the top, they
      alternate between the bits of x xor y and the bits of y, lowest bits first. This
      is the recursive Bayer construction, each 2x2 step splitting a cell's range in
      four. */
  function BayerRule(x: bv8, y: bv8): bv8
  {
    var z := x ^ y;
    ((z & 1) << 7) | ((y & 1) << 6) | ((z & 2) << 4) | ((y & 2) << 3) |
    ((z & 4) << 1) | (y & 4) | ((z & 8) >> 2) | ((y & 8) >> 3)
  }

  /** Every entry of the literal matrix is the rule's value at its column and row. */
  lemma BayerMatrixRule(x: int, y: int)
    requires 0 <= x < BayerSize && 0 <= y < BayerSize
    ensures BayerMatrix[y][x] == BayerRule(x as bv8, y as bv8) as int
  {
    if y < 4 {
      BayerRows0To3(x, y);
    } else if y < 8 {
      BayerRows4To7(x, y);
    } else if y < 12 {
      BayerRows8To11(x, y);
    } else {
      BayerRows12To15(x, y);
    }
  }

  lemma BayerRows0To3(x: int, y: int)
    requires 0 <= x < BayerSize && 0 <= y < 4
    ensures BayerMatrix[y][x] == BayerRule(x as bv8, y as bv8) as int
  {
    if y == 0 {
      if x == 0 {} else if x == 1 {} else if x == 2 {} else if x == 3 {} else if x == 4 {} else if x == 5 {} else if x == 6 {} else if x == 7 {} else if x == 8 {} else if x == 9 {} else if x == 10 {} else if x == 11 {} else if x == 12 {} else if x == 13 {} else if x == 14 {} else {}
    } else if y == 1 {
      if x == 0 {} else if x == 1 {} else if x == 2 {} else if x == 3 {} else if x == 4 {} else if x == 5 {} else if x == 6 {} else if x == 7 {} else if x == 8 {} else if x == 9 {} else if x == 10 {} else if x == 11 {} else if x == 12 {} else if x == 13 {} else if x == 14 {} else {}
    } else if y == 2 {
      if x == 0 {} else if x == 1 {} else if x == 2 {} else if x == 3 {} else if x == 4 {} else if x == 5 {} else if x == 6 {} else if x == 7 {} else if x == 8 {} else if x == 9 {} else if x == 10 {} else if x == 11 {} else if x == 12 {} else if x == 13 {} else if x == 14 {} else {}
    } else if y == 3 {
      if x == 0 {} else if x == 1 {} else if x == 2 {} else if x == 3 {} else if x == 4 {} else if x == 5 {} else if x == 6 {} else if x == 7 {} else if x == 8 {} else if x == 9 {} else if x == 10 {} else if x == 11 {} else if x == 12 {} else if x == 13 {} else if x == 14 {} else {}
    } else {}
  }

  lemma BayerRows4To7(x: int, y: int)
    requires 0 <= x < BayerSize && 4 <= y < 8
    ensures BayerMatrix[y][x] == BayerRule(x as bv8, y as bv8) as int
  {
    if y == 4 {
      if x == 0 {} else if x == 1 {} else if x == 2 {} else if x == 3 {} else if x == 4 {} else if x == 5 {} else if x == 6 {} else if x == 7 {} else if x == 8 {} else if x == 9 {} else if x == 10 {} else if x == 11 {} else if x == 12 {} else if x == 13 {} else if x == 14 {} else {}
    } else if y == 5 {
      if x == 0 {} else if x == 1 {} else if x == 2 {} else if x == 3 {} else if x == 4 {} else if x == 5 {} else if x == 6 {} else if x == 7 {} else if x == 8 {} else if x == 9 {} else if x == 10 {} else if x == 11 {} else if x == 12 {} else if x == 13 {} else if x == 14 {} else {}
    } else if y == 6 {
      if x == 0 {} else if x == 1 {} else if x == 2 {} else if x == 3 {} else if x == 4 {} else if x == 5 {} else if x == 6 {} else if x == 7 {} else if x == 8 {} else if x == 9 {} else if x == 10 {} else if x == 11 {} else if x == 12 {} else if x == 13 {} else if x == 14 {} else {}
    } else if y == 7 {
      if x == 0 {} else if x == 1 {} else if x == 2 {} else if x == 3 {} else if x == 4 {} else if x == 5 {} else if x == 6 {} else if x == 7 {} else if x == 8 {} else if x == 9 {} else if x == 10 {} else if x == 11 {} else if x == 12 {} else if x == 13 {} else if x == 14 {} else {}
    } else {}
  }

  lemma BayerRows8To11(x: int, y: int)
    requires 0 <= x < BayerSize && 8 <= y < 12
    ensures BayerMatrix[y][x] == BayerRule(x as bv8, y as bv8) as int
  {
    if y == 8 {
      if x == 0 {} else if x == 1 {} else if x == 2 {} else if x == 3 {} else if x == 4 {} else if x == 5 {} else if x == 6 {} else if x == 7 {} else if x == 8 {} else if x == 9 {} else if x == 10 {} else if x == 11 {} else if x == 12 {} else if x == 13 {} else if x == 14 {} else {}
    } else if y == 9 {
      if x == 0 {} else if x == 1 {} else if x == 2 {} else if x == 3 {} else if x == 4 {} else if x == 5 {} else if x == 6 {} else if x == 7 {} else if x == 8 {} else if x == 9 {} else if x == 10 {} else if x == 11 {} else if x == 12 {} else if x == 13 {} else if x == 14 {} else {}
    } else if y == 10 {
      if x == 0 {} else if x == 1 {} else if x == 2 {} else if x == 3 {} else if x == 4 {} else if x == 5 {} else if x == 6 {} else if x == 7 {} else if x == 8 {} else if x == 9 {} else if x == 10 {} else if x == 11 {} else if x == 12 {} else if x == 13 {} else if x == 14 {} else {}
    } else if y == 11 {
      if x == 0 {} else if x == 1 {} else if x == 2 {} else if x == 3 {} else if x == 4 {} else if x == 5 {} else if x == 6 {} else if x == 7 {} else if x == 8 {} else if x == 9 {} else if x == 10 {} else if x == 11 {} else if x == 12 {} else if x == 13 {} else if x == 14 {} else {}
    } else {}
  }

  lemma BayerRows12To15(x: int, y: int)
    requires 0 <= x < BayerSize && 12 <= y < 16
    ensures BayerMatrix[y][x] == BayerRule(x as bv8, y as bv8) as int
  {
    if y == 12 {
      if x == 0 {} else if x == 1 {} else if x == 2 {} else if x == 3 {} else if x == 4 {} else if x == 5 {} else if x == 6 {} else if x == 7 {} else if x == 8 {} else if x == 9 {} else if x == 10 {} else if x == 11 {} else if x == 12 {} else if x == 13 {} else if x == 14 {} else {}
    } else if y == 13 {
      if x == 0 {} else if x == 1 {} else if x == 2 {} else if x == 3 {} else if x == 4 {} else if x == 5 {} else if x == 6 {} else if x == 7 {} else if x == 8 {} else if x == 9 {} else if x == 10 {} else if x == 11 {} else if x == 12 {} else if x == 13 {} else if x == 14 {} else {}
    } else if y == 14 {
      if x == 0 {} else if x == 1 {} else if x == 2 {} else if x == 3 {} else if x == 4 {} else if x == 5 {} else if x == 6 {} else if x == 7 {} else if x == 8 {} else if x == 9 {} else if x == 10 {} else if x == 11 {} else if x == 12 {} else if x == 13 {} else if x == 14 {} else {}
    } else if y == 15 {
      if x == 0 {} else if x == 1 {} else if x == 2 {} else if x == 3 {} else if x == 4 {} else if x == 5 {} else if x == 6 {} else if x == 7 {} else if x == 8 {} else if x == 9 {} else if x == 10 {} else if x == 11 {} else if x == 12 {} else if x == 13 {} else if x == 14 {} else {}
    } else {}
  }

  /** The threshold of pixel (x, y): the matrix tiled over the image, so the rule at the
      pixel's position within its 16x16 tile. */
  function BayerThreshold(x: int, y: int): (t: byte)
    ensures t == BayerRule((x % BayerSize) as bv8, (y % BayerSize) as bv8) as int
  {
    BayerMatrixRule(x % BayerSize, y % BayerSize);
    BayerMatrix[y % BayerSize][x % BayerSize]
  }

  /** C's `round`: the nearest integer to n / d, halves rounded away from zero. The
      result r is within one half of n / d, and a tie goes up only for a non-negative
      n and down only for a negative one. */
  function RoundHalfAway(n: int, d: pos): (r: int)
    ensures 2 * d * r - d <= 2 * n <= 2 * d * r + d
    ensures 2 * d * r == 2 * n + d ==> n >= 0
    ensures 2 * d * r == 2 * n - d ==> n < 0
  {
    if n >= 0 then (2 * n + d) / (2 * d) else -((2 * -n + d) / (2 * d))
  }

  /** One channel of `bayer16x16Dither` before quantisation:
      `round(c + (T - 128) / 8)` clamped to [0, 255]. Writing n = 8 * c + T - 128, so
      that the unrounded value is n / 8: a channel strictly inside (0, 255) is within
      one half of n / 8, with a tie n / 8 = v + 1/2 going up to v + 1 (n is never
      negative there); 0 means n / 8 < 1/2 and 255 means n / 8 >= 254.5. */
  function BayerChannel(c: byte, threshold: byte): (v: byte)
    ensures var n := 8 * c + threshold - 128;
      (0 < v < 255 ==> 16 * v - 8 <= 2 * n < 16 * v + 8) &&
      (v == 0 ==> 2 * n < 8) && (v == 255 ==> 2 * n >= 16 * 255 - 8)
  {
    Clamp(RoundHalfAway(8 * c + threshold - 128, 8))
  }

  /** The colour `bayer16x16Dither` stores for a pixel: the palette colour of the
      grid-nearest code of the offset channels. */
  function BayerPixel(c: Rgb, threshold: byte): (q: Rgb)
    ensures q.r in PaletteLevels && q.g in PaletteLevels && q.b in PaletteBlueLevels
    ensures threshold == 128 ==> q == QuantizeReduced(c)
  {
    BayerNeutralThreshold(c.r);
    BayerNeutralThreshold(c.g);
    BayerNeutralThreshold(c.b);
    QuantizeReduced(Rgb(BayerChannel(c.r, threshold), BayerChannel(c.g, threshold), BayerChannel(c.b, threshold)))
  }

  /** The stored colour is a palette colour, and its code is the grid-nearest code of the
      offset channels. */
  lemma BayerPixelIsPalette(c: Rgb, threshold: byte)
    ensures IsPaletteColor(BayerPixel(c, threshold))
    ensures Encode(BayerPixel(c, threshold))
         == MapColorToR3G3B2Reduced(BayerChannel(c.r, threshold), BayerChannel(c.g, threshold), BayerChannel(c.b, threshold))
  {
    QuantizeReducedIsPalette(Rgb(BayerChannel(c.r, threshold), BayerChannel(c.g, threshold), BayerChannel(c.b, threshold)));
  }

  /** The threshold 128 is the neutral offset: it leaves a channel as it is. */
  lemma BayerNeutralThreshold(c: byte)
    ensures BayerChannel(c, 128) == c
  {}

  /** What `bayer16x16Dither` stores for the pixel at column x of row y. */
  function BayerAt(c: Rgb, x: int, y: int): (q: Rgb)
    ensures q.r in PaletteLevels && q.g in PaletteLevels && q.b in PaletteBlueLevels
    ensures BayerThreshold(x, y) == 128 ==> q == QuantizeReduced(c)
  {
    BayerPixel(c, BayerThreshold(x, y))
  }

  // ---------------------------------------------------------------------------
  // The pixel-by-pixel passes.

  /** What `noDither` stores for a pixel: its grid-nearest palette colour, wherever it
      is. */
  function NoDitherAt(c: Rgb, x: int, y: int): (q: Rgb)
    ensures q.r in PaletteLevels && q.g in PaletteLevels && q.b in PaletteBlueLevels
    ensures Encode(q) == MapColorToR3G3B2Reduced(c.r, c.g, c.b)
  {
    PaletteRoundTrip(MapColorToR3G3B2Reduced(c.r, c.g, c.b));
    QuantizeReduced(c)
  }

  /** The buffer once the first n pixels of the row-major scan have each been replaced by
      `recolor` of their own original colour and their position (column, row); the
      bytes of the later pixels, and any bytes past the image, are those of s. */
  function Recolored(recolor: (Rgb, int, int) -> Rgb, s: seq<byte>, width: int, height: int, n: int): (r: seq<byte>)
    requires Covers(width, height, |s|) && 0 <= n <= PixelCount(width, height)
    ensures |r| == |s|
    ensures forall i :: Components * n <= i < |s| ==> r[i] == s[i]
  {
    if n == 0 then s
    else SetPixel(Recolored(recolor, s, width, height, n - 1), n - 1, recolor(PixelAt(s, n - 1), (n - 1) % width, (n - 1) / width))
  }

  /** After the pass over n pixels, pixel k < n holds `recolor` of its own original
      colour at its own position, whatever the other pixels held. */
  lemma {:induction false} RecoloredPixel(recolor: (Rgb, int, int) -> Rgb, s: seq<byte>, width: int, height: int, n: int, k: int)
    requires Covers(width, height, |s|) && 0 <= k < n <= PixelCount(width, height)
    ensures PixelAt(Recolored(recolor, s, width, height, n), k) == recolor(PixelAt(s, k), k % width, k / width)
  {
    var prev := Recolored(recolor, s, width, height, n - 1);
    if k < n - 1 {
      RecoloredPixel(recolor, s, width, height, n - 1, k);
      SetPixelOthers(prev, n - 1, recolor(PixelAt(s, n - 1), (n - 1) % width, (n - 1) / width), k);
    }
  }

  /** `noDither` is the error-diffusion scan with an empty stencil: quantising a pixel
      in place and diffusing nothing give the same buffer. */
  lemma NoDitherIsEmptyStencil(s: seq<byte>, width: int, height: int)
    requires Covers(width, height, |s|)
    ensures Recolored(NoDitherAt, s, width, height, PixelCount(width, height))
         == Dithered(QuantizeReduced, s, width, height, [], PixelCount(width, height))
  {
    PositionBlindIsEmptyStencil(NoDitherAt, QuantizeReduced, s, width, height, [], PixelCount(width, height));
  }

  /** A pass whose colour ignores the position is the diffusion scan, with the same
      quantiser, over an empty stencil. */
  lemma {:induction false} PositionBlindIsEmptyStencil(recolor: (Rgb, int, int) -> Rgb, quantize: Rgb -> Rgb, s: seq<byte>, width: int, height: int, st: Stencil, n: int)
    requires Covers(width, height, |s|) && 0 <= n <= PixelCount(width, height) && |st| == 0
    requires forall c, x, y :: recolor(c, x, y) == quantize(c)
    ensures Recolored(recolor, s, width, height, n) == Dithered(quantize, s, width, height, st, n)
  {
    if n > 0 {
      PositionBlindIsEmptyStencil(recolor, quantize, s, width, height, st, n - 1);
      var c := PixelAt(s, n - 1);
      assert recolor(c, (n - 1) % width, (n - 1) / width) == quantize(c);
      EmptyStencilStep(recolor, quantize, s, width, height, st, n);
    }
  }

  /** One pixel more of both passes: when they agree on the first n - 1 pixels and the
      recoloured pixel n - 1 is its quantised colour, they agree on n. */
  lemma EmptyStencilStep(recolor: (Rgb, int, int) -> Rgb, quantize: Rgb -> Rgb, s: seq<byte>, width: int, height: int, st: Stencil, n: int)
    requires Covers(width, height, |s|) && 0 < n <= PixelCount(width, height) && |st| == 0
    requires Recolored(recolor, s, width, height, n - 1) == Dithered(quantize, s, width, height, st, n - 1)
    requires recolor(PixelAt(s, n - 1), (n - 1) % width, (n - 1) / width) == quantize(PixelAt(s, n - 1))
    ensures Recolored(recolor, s, width, height, n) == Dithered(quantize, s, width, height, st, n)
  {
    var prev := Recolored(recolor, s, width, height, n - 1);
    var c := PixelAt(s, n - 1);
    PixelKeptAbove(prev, s, n - 1);
    DitheredUnfold(quantize, s, width, height, st, n);
    DitherPixelEmptyStencil(quantize, prev, width, height, st, n - 1);
    assert Dithered(quantize, s, width, height, st, n) == SetPixel(prev, n - 1, quantize(c));
  }

  /** With an empty stencil, processing a pixel only stores its quantised colour. */
  lemma DitherPixelEmptyStencil(quantize: Rgb -> Rgb, s: seq<byte>, width: int, height: int, st: Stencil, k: int)
    requires Covers(width, height, |s|) && 0 <= k < PixelCount(width, height) && |st| == 0
    ensures DitherPixel(quantize, s, width, height, st, k) == SetPixel(s, k, quantize(PixelAt(s, k)))
  {
    ScanPosition(width, height, k);
    var after := SetPixel(s, k, quantize(PixelAt(s, k)));
    assert Spread(after, width, height, k % width, k / width, ErrorOf(PixelAt(s, k), quantize(PixelAt(s, k))), st) == after;
  }

  /** A pixel at or after byte 3 * k keeps its colour when those bytes do. */
  lemma PixelKeptAbove(r: seq<byte>, s: seq<byte>, k: int)
    requires |r| == |s| && 0 <= k && Components * k + 2 < |s|
    requires forall i :: Components * k <= i < |s| ==> r[i] == s[i]
    ensures PixelAt(r, k) == PixelAt(s, k)
  {}

  /** After `noDither` every pixel of the image holds a palette colour. */
  lemma NoDitherToPalette(s: seq<byte>, width: int, height: int)
    requires Covers(width, height, |s|)
    ensures var r := Recolored(NoDitherAt, s, width, height, PixelCount(width, height));
      forall k :: 0 <= k < PixelCount(width, height) ==> IsPaletteColor(PixelAt(r, k))
  {
    var r := Recolored(NoDitherAt, s, width, height, PixelCount(width, height));
    forall k | 0 <= k < PixelCount(width, height)
      ensures IsPaletteColor(PixelAt(r, k))
    {
      RecoloredPixel(NoDitherAt, s, width, height, PixelCount(width, height), k);
      QuantizeReducedIsPalette(PixelAt(s, k));
    }
  }

  /** After `bayer16x16Dither` every pixel of the image holds a palette colour: the
      one of its offset channels, with the threshold of its place in the tiled matrix. */
  lemma BayerToPalette(s: seq<byte>, width: int, height: int)
    requires Covers(width, height, |s|)
    ensures var r := Recolored(BayerAt, s, width, height, PixelCount(width, height));
      forall k :: 0 <= k < PixelCount(width, height) ==>
        PixelAt(r, k) == BayerPixel(PixelAt(s, k), BayerThreshold(k % width, k / width)) &&
        IsPaletteColor(PixelAt(r, k))
  {
    forall k | 0 <= k < PixelCount(width, height) {
      BayerPixelAt(s, width, height, k);
    }
  }

  lemma BayerPixelAt(s: seq<byte>, width: int, height: int, k: int)
    requires Covers(width, height, |s|) && 0 <= k < PixelCount(width, height)
    ensures var r := Recolored(BayerAt, s, width, height, PixelCount(width, height));
      PixelAt(r, k) == BayerPixel(PixelAt(s, k), BayerThreshold(k % width, k / width)) &&
      IsPaletteColor(PixelAt(r, k))
  {
    RecoloredPixel(BayerAt, s, width, height, PixelCount(width, height), k);
    BayerPixelIsPalette(PixelAt(s, k), BayerThreshold(k % width, k / width));
  }
}
