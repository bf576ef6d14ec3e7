/** The oldest converter's Floyd-Steinberg pass (the same code in both of its programs)
    and its debug decode-back. The pass cuts each pixel down to the bits its RGB332 code
    keeps and spreads the remainder with C integer arithmetic; because that remainder is
    never negative, the integer updates are exactly the weighted ones of the generic
    scan, so the pass is the generic scan with the cutting quantiser and the
    Floyd-Steinberg stencil. */
module LegacyDither {
  import opened Bytes
  import opened Color
  import opened Raster
  import opened Dither
  import opened Decode
  import opened Payload

  /** `min(255, max(0, v + e * num / 16))`, with C's truncating `/`. */
  function AddError(v: byte, e: int, num: int): (r: byte)
    ensures e * num >= 0 ==> v <= r && 16 * (r - v) <= e * num
    ensures e * num <= 0 ==> r <= v && 16 * (v - r) <= -(e * num)
    ensures -16 < e * num < 16 ==> r == v
  {
    Clamp(v + CDiv(e * num, 16))
  }

  /** For a non-negative error and weight, C's truncating division of e * num by 16 is
      the floor of e * num / 16, so the integer update is the weighted one. */
  lemma AddErrorIsDiffuse(v: byte, e: int, num: int)
    requires e >= 0 && num >= 0
    ensures AddError(v, e, num) == Diffuse(v, e, num, 16)
  {
    var q, r := (e * num) / 16, (e * num) % 16;
    DivUnique(16 * v + num * e, 16, v + q, r);
  }

  /** The remainder the cut leaves is never negative: below 32 for red and green and
      below 64 for blue. */
  lemma TruncationErrorBounds(c: Rgb)
    ensures var err := ErrorOf(c, Truncate332(c));
      0 <= err.r < 32 && 0 <= err.g < 32 && 0 <= err.b < 64
  {}

  /** `floydSteinbergDither` of the oldest converter, over the buffer of a loaded image:
      the raster scan leaves the buffer exactly as the generic scan with the cutting
      quantiser and the Floyd-Steinberg stencil does. */
  method FloydSteinbergDither(data: array<byte>, width: int, height: int)
    requires Covers(width, height, data.Length)
    modifies data
    ensures data[..] == Dithered(Truncate332, old(data[..]), width, height, FloydSteinberg(), PixelCount(width, height))
  {
    TruncateScan(data, width, height, FloydSteinberg());
  }

  /** The stencil the oldest pass hard-codes: east 7/16, south-west 3/16, south 5/16
      and south-east 1/16, in the order of its four guarded updates. */
  predicate FloydSteinbergEntries(st: Stencil)
  {
    st == [Entry(1, 0, 7, 16), Entry(-1, 1, 3, 16), Entry(0, 1, 5, 16), Entry(1, 1, 1, 16)]
  }

  /** The two nested loops of the pass. */
  method TruncateScan(data: array<byte>, width: int, height: int, ghost st: Stencil)
    requires Covers(width, height, data.Length) && FloydSteinbergEntries(st)
    modifies data
    ensures data[..] == Dithered(Truncate332, old(data[..]), width, height, st, PixelCount(width, height))
  {
    ghost var s0 := data[..];
    ghost var done := 0;
    var y := 0;
    while y < height
      invariant 0 <= y && (height > 0 ==> y <= height)
      invariant width > 0 ==> done == y * width
      invariant width <= 0 ==> done == 0
      invariant 0 <= done <= PixelCount(width, height)
      invariant data[..] == Dithered(Truncate332, s0, width, height, st, done)
    {
      if width > 0 {
        done := TruncateRow(data, width, height, y, s0, st);
        NextRow(width, y);
      }
      y := y + 1;
    }
    assert done == PixelCount(width, height) by {
      if width > 0 && height > 0 {
        assert done == height * width;
      }
    }
  }

  /** One row of the scan: the pixels (0, y) to (width - 1, y). */
  method TruncateRow(data: array<byte>, width: int, height: int, y: int, ghost s0: seq<byte>, ghost st: Stencil)
      returns (ghost next: int)
    requires Covers(width, height, |s0|) && data.Length == |s0| && 0 <= y < height && 0 < width
    requires FloydSteinbergEntries(st)
    requires y * width <= PixelCount(width, height)
    requires data[..] == Dithered(Truncate332, s0, width, height, st, y * width)
    modifies data
    ensures next == y * width + width && next <= PixelCount(width, height)
    ensures data[..] == Dithered(Truncate332, s0, width, height, st, next)
  {
    next := y * width;
    var x := 0;
    while x < width
      invariant 0 <= x <= width
      invariant next == y * width + x
      invariant 0 <= next <= PixelCount(width, height)
      invariant data[..] == Dithered(Truncate332, s0, width, height, st, next)
    {
      RowMajorIndex(width, height, x, y);
      TruncateAt(data, width, height, x, y, s0, st, next);
      next := next + 1;
      x := x + 1;
    }
    RowMajorIndex(width, height, width - 1, y);
  }

  /** The body of the scan for pixel (x, y), the k-th: store `(R & 0xE0, G & 0xE0,
      B & 0xC0)` and spread the three remainders. */
  method TruncateAt(data: array<byte>, width: int, height: int, x: int, y: int, ghost s0: seq<byte>, ghost st: Stencil, ghost k: int)
    requires Covers(width, height, |s0|) && data.Length == |s0| && 0 <= x < width && 0 <= y < height
    requires FloydSteinbergEntries(st)
    requires k == y * width + x && 0 <= k < PixelCount(width, height)
    requires data[..] == Dithered(Truncate332, s0, width, height, st, k)
    modifies data
    ensures data[..] == Dithered(Truncate332, s0, width, height, st, k + 1)
  {
    var idx := (y * width + x) * 3;
    ghost var before := data[..];
    var oldR, oldG, oldB := data[idx], data[idx + 1], data[idx + 2];
    assert PixelAt(before, k) == Rgb(oldR, oldG, oldB);
    var newR, newG, newB := MaskByte(oldR, 0xE0), MaskByte(oldG, 0xE0), MaskByte(oldB, 0xC0);
    assert Rgb(newR, newG, newB) == Truncate332(PixelAt(before, k));
    data[idx], data[idx + 1], data[idx + 2] := newR, newG, newB;
    assert data[..] == SetPixel(before, k, Rgb(newR, newG, newB));
    var err := Error(oldR - newR, oldG - newG, oldB - newB);
    assert err == ErrorOf(PixelAt(before, k), Truncate332(PixelAt(before, k)));
    SpreadRemainder(data, width, height, x, y, err, st);
    DitheredAt(Truncate332, s0, width, height, st, x, y, k, before);
  }

  /** The four guarded neighbour updates: east if `x < width - 1`; then, if
      `y < height - 1`, south-west if `x > 0`, south, and south-east if
      `x < width - 1`. They are the Floyd-Steinberg stencil applied from (x, y). */
  method SpreadRemainder(data: array<byte>, width: int, height: int, x: int, y: int, err: Error, ghost st: Stencil)
    requires Covers(width, height, data.Length) && 0 <= x < width && 0 <= y < height
    requires FloydSteinbergEntries(st)
    requires err.r >= 0 && err.g >= 0 && err.b >= 0
    modifies data
    ensures data[..] == Spread(old(data[..]), width, height, x, y, err, st)
  {
    ghost var st := st;
    ghost var s1 := data[..];
    if x < width - 1 {
      AddErrorAt(data, width, height, x, y, err, Entry(1, 0, 7, 16));
    }
    ghost var s2 := data[..];
    assert s2 == DiffuseEntry(s1, width, height, x, y, err, st[0]);
    if y < height - 1 {
      if x > 0 {
        AddErrorAt(data, width, height, x, y, err, Entry(-1, 1, 3, 16));
      }
      ghost var s3 := data[..];
      assert s3 == DiffuseEntry(s2, width, height, x, y, err, st[1]);
      AddErrorAt(data, width, height, x, y, err, Entry(0, 1, 5, 16));
      ghost var s4 := data[..];
      if x < width - 1 {
        AddErrorAt(data, width, height, x, y, err, Entry(1, 1, 1, 16));
      }
      SpreadOfFour(s1, width, height, x, y, err, st, s2, s3, s4, data[..]);
    } else {
      SpreadOfFour(s1, width, height, x, y, err, st, s2, s2, s2, s2);
    }
  }

  /** One neighbour update of the pass, for an entry whose offset lands inside the
      image: each channel of the neighbour becomes `AddError` of its value. */
  method AddErrorAt(data: array<byte>, width: int, height: int, x: int, y: int, err: Error, e: Entry)
    requires Covers(width, height, data.Length) && 0 <= x < width && 0 <= y < height
    requires Reaches(width, height, x, y, e) && e.den == 16 && e.num >= 0
    requires err.r >= 0 && err.g >= 0 && err.b >= 0
    modifies data
    ensures data[..] == DiffuseEntry(old(data[..]), width, height, x, y, err, e)
  {
    EntryTarget(width, height, x, y, e);
    var adj := ((y + e.dy) * width + x + e.dx) * 3;
    AddErrorIsDiffuse(data[adj], err.r, e.num);
    AddErrorIsDiffuse(data[adj + 1], err.g, e.num);
    AddErrorIsDiffuse(data[adj + 2], err.b, e.num);
    data[adj], data[adj + 1], data[adj + 2] :=
      AddError(data[adj], err.r, e.num), AddError(data[adj + 1], err.g, e.num), AddError(data[adj + 2], err.b, e.num);
  }

  /** The Floyd-Steinberg stencil applied from (x, y) is its four entries applied in
      turn, each one only when its offset lands inside the image. */
  lemma SpreadOfFour(s1: seq<byte>, width: int, height: int, x: int, y: int, err: Error, st: Stencil,
                     s2: seq<byte>, s3: seq<byte>, s4: seq<byte>, s5: seq<byte>)
    requires Covers(width, height, |s1|) && 0 <= x < width && 0 <= y < height
    requires FloydSteinbergEntries(st)
    requires s2 == DiffuseEntry(s1, width, height, x, y, err, st[0])
    requires s3 == DiffuseEntry(s2, width, height, x, y, err, st[1])
    requires s4 == DiffuseEntry(s3, width, height, x, y, err, st[2])
    requires s5 == DiffuseEntry(s4, width, height, x, y, err, st[3])
    ensures s5 == Spread(s1, width, height, x, y, err, st)
  {
    SpreadStep(s1, width, height, x, y, err, st, 0);
    SpreadStep(s1, width, height, x, y, err, st, 1);
    SpreadStep(s1, width, height, x, y, err, st, 2);
    SpreadStep(s1, width, height, x, y, err, st, 3);
    assert st[..4] == st;
  }

  /** Applying the first i + 1 entries is applying the first i, then entry i. */
  lemma SpreadStep(s: seq<byte>, width: int, height: int, x: int, y: int, err: Error, st: Stencil, i: int)
    requires Covers(width, height, |s|) && 0 <= x < width && 0 <= y < height && 0 <= i < |st|
    ensures Spread(s, width, height, x, y, err, st[..i + 1])
         == DiffuseEntry(Spread(s, width, height, x, y, err, st[..i]), width, height, x, y, err, st[i])
  {
    assert st[..i + 1][..i] == st[..i];
  }

  // ---------------------------------------------------------------------------
  // The debug decode-back.

  /** What the debug mode stores for a pixel once its code has been written: the colour
      the decode table gives for that code. The position `x`, `y` is unused: it is
      there only so the function fits the per-pixel pass `Recolored`. */
  function DecodeBackAt(c: Rgb, x: int, y: int): (d: Rgb)
    ensures Encode(d) == Encode(c)
    ensures d == Unpack(R3G3B2ToR8G8B8(Encode(c)))
  {
    DecodeEncodeRoundTrip(Encode(c));
    DecoderMatchesTable(Encode(c));
    DecodeColor(Encode(c))
  }

  /** The code loop of the oldest converter's output step: the code of every pixel, in
      row-major order; in debug mode each pixel is overwritten, right after its code is
      taken, with the decoded channels of that code. */
  method EmitCodes(data: array<byte>, width: int, height: int, debug: bool) returns (codes: seq<byte>)
    requires Covers(width, height, data.Length)
    modifies data
    ensures codes == Codes(old(data[..]), PixelCount(width, height))
    ensures debug ==> data[..] == Recolored(DecodeBackAt, old(data[..]), width, height, PixelCount(width, height))
    ensures !debug ==> data[..] == old(data[..])
  {
    ghost var s0 := data[..];
    codes := [];
    var y := 0;
    while y < height
      invariant 0 <= y && (height > 0 ==> y <= height)
      invariant width > 0 ==> |codes| == y * width
      invariant width <= 0 ==> |codes| == 0
      invariant |codes| <= PixelCount(width, height)
      invariant codes == Codes(s0, |codes|)
      invariant debug ==> data[..] == Recolored(DecodeBackAt, s0, width, height, |codes|)
      invariant !debug ==> data[..] == s0
    {
      if width > 0 {
        codes := EmitRow(data, width, height, y, debug, s0, codes);
        NextRow(width, y);
      }
      y := y + 1;
    }
    assert |codes| == PixelCount(width, height) by {
      if width > 0 && height > 0 {
        assert |codes| == height * width;
      }
    }
  }

  /** One row of the code loop: the codes of the pixels (0, y) to (width - 1, y) are
      appended to those taken so far. */
  method EmitRow(data: array<byte>, width: int, height: int, y: int, debug: bool, ghost s0: seq<byte>, prefix: seq<byte>)
      returns (codes: seq<byte>)
    requires Covers(width, height, |s0|) && data.Length == |s0| && 0 <= y < height && 0 < width
    requires |prefix| == y * width && |prefix| <= PixelCount(width, height)
    requires prefix == Codes(s0, |prefix|)
    requires debug ==> data[..] == Recolored(DecodeBackAt, s0, width, height, |prefix|)
    requires !debug ==> data[..] == s0
    modifies data
    ensures |codes| == y * width + width && |codes| <= PixelCount(width, height)
    ensures codes == Codes(s0, |codes|)
    ensures debug ==> data[..] == Recolored(DecodeBackAt, s0, width, height, |codes|)
    ensures !debug ==> data[..] == s0
  {
    codes := prefix;
    var x := 0;
    while x < width
      invariant 0 <= x <= width
      invariant |codes| == y * width + x && |codes| <= PixelCount(width, height)
      invariant codes == Codes(s0, |codes|)
      invariant debug ==> data[..] == Recolored(DecodeBackAt, s0, width, height, |codes|)
      invariant !debug ==> data[..] == s0
    {
      RowMajorIndex(width, height, x, y);
      var code := EmitAt(data, width, height, x, y, debug, s0, |codes|);
      codes := codes + [code];
      x := x + 1;
    }
    RowMajorIndex(width, height, width - 1, y);
  }

  /** Pixel (x, y), the k-th of the loop: take its code and, in debug mode, store the
      decoded channels of that code in its place. */
  method EmitAt(data: array<byte>, width: int, height: int, x: int, y: int, debug: bool, ghost s0: seq<byte>, ghost k: int)
      returns (code: byte)
    requires Covers(width, height, |s0|) && data.Length == |s0| && 0 <= x < width && 0 <= y < height
    requires k == y * width + x && 0 <= k < PixelCount(width, height)
    requires debug ==> data[..] == Recolored(DecodeBackAt, s0, width, height, k)
    requires !debug ==> data[..] == s0
    modifies data
    ensures code == Encode(PixelAt(s0, k))
    ensures debug ==> data[..] == Recolored(DecodeBackAt, s0, width, height, k + 1)
    ensures !debug ==> data[..] == s0
  {
    var idx := (y * width + x) * 3;
    ghost var before := data[..];
    PixelKeptAbove(before, s0, k);
    code := Rgb332(data[idx], data[idx + 1], data[idx + 2]);
    Rgb332Encodes(data[idx], data[idx + 1], data[idx + 2]);
    assert code == Encode(PixelAt(s0, k));
    if debug {
      var decoded := DecodeColor(code);
      DecodeBackOfCode(PixelAt(s0, k), x, y);
      data[idx], data[idx + 1], data[idx + 2] := decoded.r, decoded.g, decoded.b;
      DivUnique(k, width, y, x);
      assert data[..] == SetPixel(before, k, decoded);
      assert Recolored(DecodeBackAt, s0, width, height, k + 1) == SetPixel(before, k, DecodeBackAt(PixelAt(s0, k), x, y));
    }
  }

  lemma DecodeBackOfCode(c: Rgb, x: int, y: int)
    ensures DecodeBackAt(c, x, y) == DecodeColor(Encode(c))
  {}

  /** Re-encoding a decoded-back image gives the codes already written: in debug mode
      the stored image shows exactly what the emitted codes encode. */
  lemma DecodeBackKeepsCodes(s: seq<byte>, width: int, height: int)
    requires Covers(width, height, |s|)
    ensures var r := Recolored(DecodeBackAt, s, width, height, PixelCount(width, height));
      forall k :: 0 <= k < PixelCount(width, height) ==>
        Encode(PixelAt(r, k)) == Encode(PixelAt(s, k))
  {
    var r := Recolored(DecodeBackAt, s, width, height, PixelCount(width, height));
    forall k | 0 <= k < PixelCount(width, height)
      ensures Encode(PixelAt(r, k)) == Encode(PixelAt(s, k))
    {
      RecoloredPixel(DecodeBackAt, s, width, height, PixelCount(width, height), k);
      DecodeEncodeRoundTrip(Encode(PixelAt(s, k)));
    }
  }

  /** Every pixel the oldest pass leaves has the low five bits of red and green and the
      low six bits of blue clear, and its code is the code of the colour the scan found
      there. */
  lemma LegacyPassTruncates(s: seq<byte>, width: int, height: int)
    requires Covers(width, height, |s|)
    ensures var r := Dithered(Truncate332, s, width, height, FloydSteinberg(), PixelCount(width, height));
      forall k :: 0 <= k < PixelCount(width, height) ==>
        PixelAt(r, k).r % 32 == 0 && PixelAt(r, k).g % 32 == 0 && PixelAt(r, k).b % 64 == 0
  {
    DitheredToTruncated(s, width, height, FloydSteinberg());
  }
}
