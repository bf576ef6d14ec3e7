/** The tone look-up tables: a gamma table and a contrast/brightness table of 256
    entries each, filled once, then applied to every channel byte of the image as
    `tone[gamma[v]]`. The floating-point formulas that compute the entries are given to
    the model as two functions of the entry index. */
module Tone {
  import opened Bytes
  import opened Raster

  /** `LUT_SIZE`. */
  const LutSize: int := 256

  /** The tables of one run: both hold an entry for every byte value. */
  predicate Tables(gammaLut: seq<byte>, toneLut: seq<byte>)
  {
    LutSize <= |gammaLut| && LutSize <= |toneLut|
  }

  /** A channel byte after both tables: first the gamma table, then the contrast and
      brightness table. */
  function Adjust(v: byte, gammaLut: seq<byte>, toneLut: seq<byte>): (r: byte)
    requires Tables(gammaLut, toneLut)
    ensures r in toneLut[..LutSize]
    ensures (forall i :: 0 <= i < LutSize ==> gammaLut[i] == i && toneLut[i] == i) ==> r == v
  {
    toneLut[gammaLut[v]]
  }

  /** The buffer `s` once its first `m` bytes have been put through both tables. */
  function ToneMapped(s: seq<byte>, gammaLut: seq<byte>, toneLut: seq<byte>, m: int): (r: seq<byte>)
    requires Tables(gammaLut, toneLut) && 0 <= m <= |s|
    ensures |r| == |s|
  {
    seq(|s|, i requires 0 <= i < |s| => if i < m then Adjust(s[i], gammaLut, toneLut) else s[i])
  }

  /** Seen pixel by pixel: each pixel of the scan has each of its three channels put
      through both tables, and every other pixel of the buffer is as it was. */
  lemma ToneMappedPixel(s: seq<byte>, gammaLut: seq<byte>, toneLut: seq<byte>, n: int, k: int)
    requires Tables(gammaLut, toneLut) && 0 <= n && Components * n <= |s| && 0 <= k && Components * k + Components <= |s|
    ensures k < n ==>
      PixelAt(ToneMapped(s, gammaLut, toneLut, Components * n), k) ==
      Rgb(Adjust(PixelAt(s, k).r, gammaLut, toneLut), Adjust(PixelAt(s, k).g, gammaLut, toneLut), Adjust(PixelAt(s, k).b, gammaLut, toneLut))
    ensures n <= k ==> PixelAt(ToneMapped(s, gammaLut, toneLut, Components * n), k) == PixelAt(s, k)
  {}

  /** The identity table. */
  predicate Identity(lut: seq<byte>)
  {
    LutSize <= |lut| && forall v :: 0 <= v < LutSize ==> lut[v] == v
  }

  /** With a gamma of 1, no contrast and a brightness of 1 both tables are the identity,
      and then the pass leaves the image as it was. */
  lemma IdentityTablesKeepImage(s: seq<byte>, gammaLut: seq<byte>, toneLut: seq<byte>, m: int)
    requires Identity(gammaLut) && Identity(toneLut) && 0 <= m <= |s|
    ensures ToneMapped(s, gammaLut, toneLut, m) == s
  {
    forall i | 0 <= i < |s|
      ensures ToneMapped(s, gammaLut, toneLut, m)[i] == s[i]
    {
      if i < m {
        assert gammaLut[s[i]] == s[i];
      }
    }
  }

  /** `initialize_luts` of the current converter: with either table missing it reports
      the failure and writes nothing; otherwise entry i of the contrast/brightness table
      becomes `toneOf(i)` and entry i of the gamma table `gammaOf(i)`, for each i below
      256 in turn, and nothing else changes. When the caller passes the same table twice,
      the gamma entry is written last and wins. */
  method InitializeLuts(gammaOf: int -> byte, toneOf: int -> byte, gammaLut: array?<byte>, toneLut: array?<byte>)
      returns (status: int)
    requires gammaLut != null ==> LutSize <= gammaLut.Length
    requires toneLut != null ==> LutSize <= toneLut.Length
    modifies if gammaLut != null && toneLut != null then {gammaLut, toneLut} else {}
    ensures status == ExitSuccess || status == ExitFailure
    ensures status == ExitFailure <==> gammaLut == null || toneLut == null
    ensures status == ExitSuccess ==> Filled(gammaOf, toneOf, gammaLut[..], toneLut[..], gammaLut == toneLut)
    ensures status == ExitSuccess ==> gammaLut[LutSize..] == old(gammaLut[LutSize..]) && toneLut[LutSize..] == old(toneLut[LutSize..])
  {
    if gammaLut == null || toneLut == null {
      return ExitFailure;
    }
    FillLuts(gammaOf, toneOf, gammaLut, toneLut);
    status := ExitSuccess;
  }

  /** The static `initialize_luts` of the monolithic converter: the same filling, but a
      missing table ends the whole program (`exit(EXIT_FAILURE)`), which the model
      reports as `exits`. */
  method InitializeLutsOrExit(gammaOf: int -> byte, toneOf: int -> byte, gammaLut: array?<byte>, toneLut: array?<byte>)
      returns (exits: bool)
    requires gammaLut != null ==> LutSize <= gammaLut.Length
    requires toneLut != null ==> LutSize <= toneLut.Length
    modifies if gammaLut != null && toneLut != null then {gammaLut, toneLut} else {}
    ensures exits <==> gammaLut == null || toneLut == null
    ensures !exits ==> Filled(gammaOf, toneOf, gammaLut[..], toneLut[..], gammaLut == toneLut)
    ensures !exits ==> gammaLut[LutSize..] == old(gammaLut[LutSize..]) && toneLut[LutSize..] == old(toneLut[LutSize..])
  {
    if gammaLut == null || toneLut == null {
      return true;
    }
    FillLuts(gammaOf, toneOf, gammaLut, toneLut);
    exits := false;
  }

  /** The first 256 entries of both tables hold the computed values (for the gamma
      table alone when both are one table). */
  predicate Filled(gammaOf: int -> byte, toneOf: int -> byte, gammaLut: seq<byte>, toneLut: seq<byte>, shared: bool)
  {
    Tables(gammaLut, toneLut) &&
    (forall i :: 0 <= i < LutSize ==> gammaLut[i] == gammaOf(i)) &&
    (!shared ==> forall i :: 0 <= i < LutSize ==> toneLut[i] == toneOf(i))
  }

  /** The loop of `initialize_luts` over i < 256. */
  method FillLuts(gammaOf: int -> byte, toneOf: int -> byte, gammaLut: array<byte>, toneLut: array<byte>)
    requires LutSize <= gammaLut.Length && LutSize <= toneLut.Length
    modifies gammaLut, toneLut
    ensures Filled(gammaOf, toneOf, gammaLut[..], toneLut[..], gammaLut == toneLut)
    ensures gammaLut[LutSize..] == old(gammaLut[LutSize..]) && toneLut[LutSize..] == old(toneLut[LutSize..])
  {
    var i := 0;
    while i < LutSize
      invariant 0 <= i <= LutSize
      invariant forall j :: 0 <= j < i ==> gammaLut[j] == gammaOf(j)
      invariant gammaLut != toneLut ==> forall j :: 0 <= j < i ==> toneLut[j] == toneOf(j)
      invariant gammaLut[LutSize..] == old(gammaLut[LutSize..]) && toneLut[LutSize..] == old(toneLut[LutSize..])
    {
      toneLut[i] := toneOf(i);
      gammaLut[i] := gammaOf(i);
      i := i + 1;
    }
  }

  /** `process_image_with_luts`: with the image, its buffer or either table missing it
      reports the failure and changes nothing; otherwise every channel byte of every
      pixel is replaced by `tone[gamma[v]]` of its old value v. The monolithic
      converter's copy does the same but returns nothing. */
  method ProcessImageWithLuts(image: ImageData?, gammaLut: array?<byte>, toneLut: array?<byte>)
      returns (status: int)
    requires Sized(image)
    requires gammaLut != null ==> LutSize <= gammaLut.Length
    requires toneLut != null ==> LutSize <= toneLut.Length
    requires image != null && image.data != null ==> image.data != gammaLut && image.data != toneLut
    modifies Buffer(image)
    ensures status == ExitSuccess || status == ExitFailure
    ensures status == ExitFailure <==> image == null || image.data == null || gammaLut == null || toneLut == null
    ensures status == ExitFailure && image != null && image.data != null ==> image.data[..] == old(image.data[..])
    ensures status == ExitSuccess ==>
      image.data[..] == ToneMapped(old(image.data[..]), gammaLut[..], toneLut[..], Components * PixelCount(image.width, image.height))
  {
    if image == null || image.data == null || gammaLut == null || toneLut == null {
      return ExitFailure;
    }
    ToneScan(image.data, image.width, image.height, gammaLut, toneLut);
    status := ExitSuccess;
  }

  /** The two nested loops of `process_image_with_luts`. */
  method ToneScan(data: array<byte>, width: int, height: int, gammaLut: array<byte>, toneLut: array<byte>)
    requires Covers(width, height, data.Length) && Tables(gammaLut[..], toneLut[..])
    requires data != gammaLut && data != toneLut
    modifies data
    ensures data[..] == ToneMapped(old(data[..]), gammaLut[..], toneLut[..], Components * PixelCount(width, height))
  {
    ghost var s0 := data[..];
    ghost var done := 0;
    var y := 0;
    while y < height
      invariant 0 <= y && (height > 0 ==> y <= height)
      invariant width > 0 ==> done == y * width
      invariant width <= 0 ==> done == 0
      invariant 0 <= done <= PixelCount(width, height)
      invariant data[..] == ToneMapped(s0, gammaLut[..], toneLut[..], Components * done)
    {
      if width > 0 {
        done := ToneRow(data, width, height, y, gammaLut, toneLut, s0);
        NextRow(width, y);
      }
      y := y + 1;
    }
    assert done == PixelCount(width, height) by {
      if width > 0 && height > 0 {
        assert done == height * width;
      }
    }
  }

  /** One row of `process_image_with_luts`. */
  method ToneRow(data: array<byte>, width: int, height: int, y: int, gammaLut: array<byte>, toneLut: array<byte>, ghost s0: seq<byte>)
      returns (ghost next: int)
    requires Covers(width, height, |s0|) && data.Length == |s0| && 0 <= y < height && 0 < width
    requires Tables(gammaLut[..], toneLut[..]) && data != gammaLut && data != toneLut
    requires y * width <= PixelCount(width, height)
    requires data[..] == ToneMapped(s0, gammaLut[..], toneLut[..], Components * (y * width))
    modifies data
    ensures next == y * width + width && next <= PixelCount(width, height)
    ensures data[..] == ToneMapped(s0, gammaLut[..], toneLut[..], Components * next)
  {
    next := y * width;
    var x := 0;
    while x < width
      invariant 0 <= x <= width
      invariant next == y * width + x
      invariant 0 <= next <= PixelCount(width, height)
      invariant data[..] == ToneMapped(s0, gammaLut[..], toneLut[..], Components * next)
    {
      RowMajorIndex(width, height, x, y);
      ToneAt(data, width, height, x, y, gammaLut, toneLut, s0, next);
      next := next + 1;
      x := x + 1;
    }
    RowMajorIndex(width, height, width - 1, y);
  }

  /** Pixel (x, y), the k-th of the scan: its red, green and blue bytes in turn. */
  method ToneAt(data: array<byte>, width: int, height: int, x: int, y: int, gammaLut: array<byte>, toneLut: array<byte>, ghost s0: seq<byte>, ghost k: int)
    requires Covers(width, height, |s0|) && data.Length == |s0| && 0 <= x < width && 0 <= y < height
    requires Tables(gammaLut[..], toneLut[..]) && data != gammaLut && data != toneLut
    requires k == y * width + x && 0 <= k < PixelCount(width, height)
    requires data[..] == ToneMapped(s0, gammaLut[..], toneLut[..], Components * k)
    modifies data
    ensures data[..] == ToneMapped(s0, gammaLut[..], toneLut[..], Components * (k + 1))
  {
    var idx := (y * width + x) * Components;
    data[idx] := toneLut[gammaLut[data[idx]]];
    data[idx + 1] := toneLut[gammaLut[data[idx + 1]]];
    data[idx + 2] := toneLut[gammaLut[data[idx + 2]]];
  }
}
