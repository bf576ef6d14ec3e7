/** The palette mapper: the RGB332 bit-truncation encoder and the "grid-nearest"
    mapper that reduces each channel to one of 16 levels, looks the triplet up in a
    4096-entry table of RGB332 codes and replaces the pixel by the palette colour of
    that code. */
module Color {
  import opened Bytes

  // ---------------------------------------------------------------------------
  // Bit-level facts about the masks and shifts the encoders use.

  /** A byte read as an 8-bit vector has the same value. The facts below are stated
      on bit vectors and carried over to bytes through this one. */
  lemma ByteAsBv8(v: int)
    requires 0 <= v < 256
    ensures (v as bv8) as int == v
  {
    assert v % 256 == v;
  }

  lemma MaskTop3Bits(q: bv8)
    ensures (q & 0xE0) as int == q as int / 32 * 32
  {}

  lemma MaskTop3(v: byte)
    ensures ((v as bv8) & 0xE0) as int == v / 32 * 32
  {
    MaskTop3Bits(v as bv8);
    ByteAsBv8(v);
  }

  lemma MaskTop3Shift3Bits(q: bv8)
    ensures ((q & 0xE0) >> 3) as int == q as int / 32 * 4
  {}

  lemma MaskTop3Shift3(v: byte)
    ensures (((v as bv8) & 0xE0) >> 3) as int == v / 32 * 4
  {
    MaskTop3Shift3Bits(v as bv8);
    ByteAsBv8(v);
  }

  lemma Shift6Bits(q: bv8)
    ensures (q >> 6) as int == q as int / 64
  {}

  lemma Shift6(v: byte)
    ensures ((v as bv8) >> 6) as int == v / 64
  {
    Shift6Bits(v as bv8);
    ByteAsBv8(v);
  }

  lemma MaskTop2Bits(q: bv8)
    ensures (q & 0xC0) as int == q as int / 64 * 64
  {}

  lemma MaskTop2(v: byte)
    ensures ((v as bv8) & 0xC0) as int == v / 64 * 64
  {
    MaskTop2Bits(v as bv8);
    ByteAsBv8(v);
  }

  lemma Shift5Bits(q: bv8)
    requires q < 8
    ensures (q << 5) as int == q as int * 32
  {}

  lemma Shift5(k: int)
    requires 0 <= k < 8
    ensures ((k as bv8) << 5) as int == k * 32
  {
    ByteAsBv8(k);
    Shift5Bits(k as bv8);
  }

  lemma Shift2Bits(q: bv8)
    requires q < 8
    ensures (q << 2) as int == q as int * 4
  {}

  lemma Shift2(k: int)
    requires 0 <= k < 8
    ensures ((k as bv8) << 2) as int == k * 4
  {
    ByteAsBv8(k);
    Shift2Bits(k as bv8);
  }

  /** Or-ing three values whose set bits lie in bits 7-5, 4-2 and 1-0 adds them. */
  lemma OrOfFieldsIsSum(x: bv8, y: bv8, z: bv8)
    requires x & 0x1F == 0 && y & 0xE3 == 0 && z & 0xFC == 0
    ensures (x | y | z) as int == x as int + y as int + z as int
  {}

  /** The three fields of a sum of field values are the summands. */
  lemma FieldsOfSum(a: int, b: int, c: int)
    requires 0 <= a < 8 && 0 <= b < 8 && 0 <= c < 4
    ensures (a * 32 + b * 4 + c) / 32 == a
    ensures (a * 32 + b * 4 + c) / 4 % 8 == b
    ensures (a * 32 + b * 4 + c) % 4 == c
  {
    var n := a * 32 + b * 4 + c;
    DivUnique(n, 32, a, b * 4 + c);
    DivUnique(n, 4, a * 8 + b, c);
    DivUnique(a * 8 + b, 8, a, b);
  }

  lemma SmallAsBv8(k: int, n: int)
    requires 0 <= k < n <= 256
    ensures (k as bv8) as int == k && (k as bv8) as int < n
  {
    ByteAsBv8(k);
  }

  lemma ShiftedFieldsDisjoint(a: bv8, b: bv8, c: bv8)
    requires a as int < 8 && b as int < 8 && c as int < 4
    ensures (a << 5) & 0x1F == 0 && (b << 2) & 0xE3 == 0 && c & 0xFC == 0
  {
    assert a < 8 && b < 8 && c < 4;
  }

  /** Every byte is the sum of its three RGB332 fields. */
  lemma FieldsDetermineByte(p: byte)
    ensures p == p / 32 * 32 + p / 4 % 8 * 4 + p % 4
  {}

  // ---------------------------------------------------------------------------
  // Direct truncation.

  /** `rgbToRgb332` (also `rgbTo332` and `r8g8b8_to_r3g3b2` of the older tools):
      `(r & 0xE0) | ((g & 0xE0) >> 3) | (b >> 6)`. Bits 7-5 hold the top three bits of
      red, bits 4-2 the top three bits of green and bits 1-0 the top two bits of blue. */
  function Rgb332(r: byte, g: byte, b: byte): (p: byte)
    ensures p / 32 == r / 32
    ensures p / 4 % 8 == g / 32
    ensures p % 4 == b / 64
  {
    MaskTop3(r);
    MaskTop3Shift3(g);
    Shift6(b);
    OrOfFieldsIsSum((r as bv8) & 0xE0, ((g as bv8) & 0xE0) >> 3, (b as bv8) >> 6);
    var p := (((r as bv8) & 0xE0) | (((g as bv8) & 0xE0) >> 3) | ((b as bv8) >> 6)) as int;
    FieldsOfSum(r / 32, g / 32, b / 64);
    p
  }

  /** The RGB332 code of a pixel, as a number: the top three bits of red, the top three
      bits of green and the top two bits of blue are its three fields. */
  function Encode(c: Rgb): (p: byte)
    ensures p / 32 == c.r / 32 && p / 4 % 8 == c.g / 32 && p % 4 == c.b / 64
  {
    FieldsOfSum(c.r / 32, c.g / 32, c.b / 64);
    c.r / 32 * 32 + c.g / 32 * 4 + c.b / 64
  }

  /** The bit expression of the converters computes that code. */
  lemma Rgb332Encodes(r: byte, g: byte, b: byte)
    ensures Rgb332(r, g, b) == Encode(Rgb(r, g, b))
  {
    FieldsDetermineByte(Rgb332(r, g, b));
    FieldsDetermineByte(Encode(Rgb(r, g, b)));
  }

  /** `rgbTo332` of the C++ tool, written with divisions:
      `((r / 32) << 5) | ((g / 32) << 2) | (b / 64)`. It computes the same code as the
      mask form for every byte triple. */
  function Rgb332Div(red: byte, green: byte, blue: byte): (p: byte)
    ensures p == Rgb332(red, green, blue)
  {
    Shift5(red / 32);
    Shift2(green / 32);
    SmallAsBv8(red / 32, 8);
    SmallAsBv8(green / 32, 8);
    SmallAsBv8(blue / 64, 4);
    ShiftedFieldsDisjoint((red / 32) as bv8, (green / 32) as bv8, (blue / 64) as bv8);
    var hi, mid, lo := ((red / 32) as bv8) << 5, ((green / 32) as bv8) << 2, (blue / 64) as bv8;
    OrOfFieldsIsSum(hi, mid, lo);
    var p := (hi | mid | lo) as int;
    FieldsOfSum(red / 32, green / 32, blue / 64);
    FieldsDetermineByte(Rgb332(red, green, blue));
    p
  }

  /** The code never decreases when one channel grows and the others stay. */
  lemma Rgb332Monotone(r: byte, g: byte, b: byte, r': byte, g': byte, b': byte)
    requires r <= r' && g <= g' && b <= b'
    ensures Rgb332(r, g, b) <= Rgb332(r', g', b')
  {
    var p, q := Rgb332(r, g, b), Rgb332(r', g', b');
    FieldsDetermineByte(p);
    FieldsDetermineByte(q);
    assert r / 32 <= r' / 32 && g / 32 <= g' / 32 && b / 64 <= b' / 64;
  }

  /** The colour the older Floyd-Steinberg passes store for a pixel:
      `(R & 0xE0, G & 0xE0, B & 0xC0)`, each channel cut down to the bits its RGB332
      field keeps. The cut never raises a channel and removes less than 32 from red and
      green and less than 64 from blue. */
  function Truncate332(c: Rgb): (t: Rgb)
    ensures t.r % 32 == 0 && t.g % 32 == 0 && t.b % 64 == 0
    ensures 0 <= c.r - t.r < 32 && 0 <= c.g - t.g < 32 && 0 <= c.b - t.b < 64
  {
    Rgb(MaskByte(c.r, 0xE0), MaskByte(c.g, 0xE0), MaskByte(c.b, 0xC0))
  }

  /** The cut leaves the RGB332 code unchanged. */
  lemma TruncateKeepsCode(c: Rgb)
    ensures Encode(Truncate332(c)) == Encode(c)
  {
    var t := Truncate332(c);
    assert t.r / 32 == c.r / 32 && t.g / 32 == c.g / 32 && t.b / 64 == c.b / 64;
    FieldsDetermineByte(Encode(t));
    FieldsDetermineByte(Encode(c));
  }

  /** `v & mask` for the two high-bit masks 0xE0 and 0xC0, computed as v rounded down
      to a multiple of 32 or of 64 (`MaskByteIsAnd` shows the two agree). */
  function MaskByte(v: byte, mask: bv8): byte
    requires mask == 0xE0 || mask == 0xC0
  {
    if mask == 0xE0 then v / 32 * 32 else v / 64 * 64
  }

  /** The rounding is the bitwise and of the C code. */
  lemma MaskByteIsAnd(v: byte, mask: bv8)
    requires mask == 0xE0 || mask == 0xC0
    ensures MaskByte(v, mask) == ((v as bv8) & mask) as int
  {
    MaskTop3(v);
    MaskTop2(v);
  }

  // ---------------------------------------------------------------------------
  // Grid-nearest mapping.

  /** RED_LEVELS, GREEN_LEVELS and BLUE_LEVELS. */
  const GridLevels: int := 16

  /** `reduceBits`: `(uint8_t)(value * max_value / 256.0)`. The quotient is exact in
      double precision and never negative here, so the cast takes its floor. */
  function ReduceBits(value: byte, maxValue: int): (level: byte)
    requires 0 <= maxValue <= 256
    ensures level * 256 <= value * maxValue < level * 256 + 256
  {
    assert value * maxValue <= 255 * 256;
    value * maxValue / 256
  }

  /** A channel reduced to the 16-level grid never reaches 15 and grows with the channel,
      so a reduced triplet always indexes inside the 4096-entry table. */
  lemma ReduceBitsRange(v: byte, v': byte)
    requires v <= v'
    ensures ReduceBits(v, GridLevels - 1) <= ReduceBits(v', GridLevels - 1) <= 14
  {
    var a, a' := ReduceBits(v, 15), ReduceBits(v', 15);
    assert v * 15 <= v' * 15;
    assert (a' as int) * 256 <= 255 * 15 < 15 * 256;
  }

  /** The 16 entries that every row of `colorMapLUT_reduced` adds to the row's red and
      green fields: the 2-bit blue code chosen for each 4-bit blue level. */
  const BlueColumn: seq<byte> := [0, 0, 0, 1, 1, 1, 1, 1, 2, 2, 2, 2, 2, 3, 3, 3]

  /** `colorMapLUT_reduced[index]`. The table has 256 rows of 16 entries, one row per
      reduced (red, green) pair; the entries of the row for (r4, g4) are
      `((r4 / 2) << 5) | ((g4 / 2) << 2)` plus the blue column. The table is defined
      here by this rule, which reproduces every one of the 4096 generated literal
      entries, rather than by the literal itself. */
  function ColorMapLutReduced(index: int): (code: byte)
    requires 0 <= index < GridLevels * GridLevels * GridLevels
    ensures code / 32 == index / 256 / 2
    ensures code / 4 % 8 == index / 16 % 16 / 2
    ensures code % 4 == BlueCode(index % 16)
  {
    IndexFields(index);
    BlueColumnIsBlueCode(index % 16);
    FieldsOfSum(index / 512, index / 32 % 8, BlueColumn[index % 16]);
    index / 512 * 32 + index / 32 % 8 * 4 + BlueColumn[index % 16]
  }

  /** The table's row and column arithmetic: index / 512 halves the red level
      index / 256, and index / 32 % 8 halves the green level index / 16 % 16. */
  lemma IndexFields(index: int)
    requires 0 <= index < GridLevels * GridLevels * GridLevels
    ensures index / 512 == index / 256 / 2 && index / 32 % 8 == index / 16 % 16 / 2
  {
    var a := index / 16;
    assert index == a * 16 + index % 16;
    assert a == a / 16 * 16 + a % 16;
    DivUnique(index, 256, a / 16, a % 16 * 16 + index % 16);
    IndexHalves(index / 256, a % 16, index % 16);
  }

  /** The literal blue column assigns blue levels 0-2, 3-7, 8-12 and 13-15 the codes
      0, 1, 2 and 3. */
  lemma BlueColumnIsBlueCode(b4: int)
    requires 0 <= b4 < 16
    ensures BlueColumn[b4] == BlueCode(b4)
  {
    if b4 < 4 {
      if b4 == 0 {} else if b4 == 1 {} else if b4 == 2 {} else {}
    } else if b4 < 8 {
      if b4 == 4 {} else if b4 == 5 {} else if b4 == 6 {} else {}
    } else if b4 < 12 {
      if b4 == 8 {} else if b4 == 9 {} else if b4 == 10 {} else {}
    } else {
      if b4 == 12 {} else if b4 == 13 {} else if b4 == 14 {} else {}
    }
  }

  lemma IndexHalves(r4: int, g4: int, b4: int)
    requires 0 <= r4 < 16 && 0 <= g4 < 16 && 0 <= b4 < 16
    ensures (r4 * 256 + g4 * 16 + b4) / 512 == r4 / 2
    ensures (r4 * 256 + g4 * 16 + b4) / 32 % 8 == g4 / 2
    ensures (r4 * 256 + g4 * 16 + b4) % 16 == b4
  {
    var n := r4 * 256 + g4 * 16 + b4;
    DivUnique(n, 512, r4 / 2, r4 % 2 * 256 + g4 * 16 + b4);
    DivUnique(n, 32, r4 * 8 + g4 / 2, g4 % 2 * 16 + b4);
    DivUnique(r4 * 8 + g4 / 2, 8, r4, g4 / 2);
    DivUnique(n, 16, r4 * 16 + g4, b4);
  }

  /** The 2-bit blue code that the table assigns to a 4-bit blue level. */
  function BlueCode(b4: int): int
  {
    if b4 <= 2 then 0 else if b4 <= 7 then 1 else if b4 <= 12 then 2 else 3
  }

  /** `(r << 8) | (g << 4) | b` for three 4-bit levels: the fields do not overlap, so
      the or-ed shifts are the positional sum. */
  function GridIndex(r4: byte, g4: byte, b4: byte): (index: int)
    requires r4 < GridLevels && g4 < GridLevels && b4 < GridLevels
    ensures 0 <= index < GridLevels * GridLevels * GridLevels
    ensures index / 256 == r4 && index / 16 % 16 == g4 && index % 16 == b4
  {
    var index := r4 * 256 + g4 * 16 + b4;
    DivUnique(index, 256, r4, g4 * 16 + b4);
    DivUnique(index, 16, r4 * 16 + g4, b4);
    DivUnique(r4 * 16 + g4, 16, r4, g4);
    index
  }

  /** `mapColorToR3G3B2_Reduced`: the table entry of the reduced triplet. The code's red
      field is half the reduced red level, its green field half the reduced green level,
      and its blue field the blue code of the reduced blue level. */
  function MapColorToR3G3B2Reduced(r: byte, g: byte, b: byte): (code: byte)
    ensures code / 32 == ReduceBits(r, GridLevels - 1) / 2
    ensures code / 4 % 8 == ReduceBits(g, GridLevels - 1) / 2
    ensures code % 4 == BlueCode(ReduceBits(b, GridLevels - 1))
  {
    ReduceBitsRange(r, r);
    ReduceBitsRange(g, g);
    ReduceBitsRange(b, b);
    var r4, g4, b4 := ReduceBits(r, GridLevels - 1), ReduceBits(g, GridLevels - 1), ReduceBits(b, GridLevels - 1);
    var index := GridIndex(r4, g4, b4);
    IndexHalves(r4, g4, b4);
    BlueColumnIsBlueCode(b4);
    FieldsOfSum(r4 / 2, g4 / 2, BlueCode(b4));
    ColorMapLutReduced(index)
  }

  /** The eight red and green levels of `r3g3b2Palette`. */
  const PaletteLevels: seq<byte> := [0x00, 0x24, 0x48, 0x6D, 0x91, 0xB6, 0xDA, 0xFF]

  /** The four blue levels of `r3g3b2Palette`. */
  const PaletteBlueLevels: seq<byte> := [0x00, 0x55, 0xAA, 0xFF]

  /** `r3g3b2Palette[index]`: the 256 entries run through red, then green, then blue
      levels, so entry i has red level i >> 5, green level (i >> 2) & 7 and blue
      level i & 3. The table is defined here by this rule, which reproduces every one
      of the 256 generated literal entries, rather than by the literal itself. */
  function PaletteColor(index: byte): (c: Rgb)
    ensures c.r == index / 32 * 255 / 7 && c.g == index / 4 % 8 * 255 / 7
    ensures c.b == index % 4 * 255 / 3
  {
    LevelSpacing(index / 32);
    LevelSpacing(index / 4 % 8);
    BlueLevelSpacing(index % 4);
    Rgb(PaletteLevels[index / 32], PaletteLevels[index / 4 % 8], PaletteBlueLevels[index % 4])
  }

  /** The eight levels divide 0-255 into seven equal steps, rounded down. */
  lemma LevelSpacing(k: int)
    requires 0 <= k < 8
    ensures PaletteLevels[k] == k * 255 / 7
  {
    if k == 0 {
    } else if k == 1 {
    } else if k == 2 {
    } else if k == 3 {
    } else if k == 4 {
    } else if k == 5 {
    } else if k == 6 {
    } else {
    }
  }

  /** The four blue levels divide 0-255 into three equal steps. */
  lemma BlueLevelSpacing(k: int)
    requires 0 <= k < 4
    ensures PaletteBlueLevels[k] == k * 255 / 3
  {
    if k == 0 {
    } else if k == 1 {
    } else if k == 2 {
    } else {
    }
  }

  /** A colour is a palette colour when it is its own palette entry; that is when each
      channel is one of the palette's levels. */
  function IsPaletteColor(c: Rgb): (b: bool)
    ensures b <==> c.r in PaletteLevels && c.g in PaletteLevels && c.b in PaletteBlueLevels
  {
    PaletteByChannels(c);
    PaletteColor(Encode(c)) == c
  }

  /** The entry at a colour's own code is the colour exactly when every channel is a
      palette level: the code's fields then select those very levels. */
  lemma PaletteByChannels(c: Rgb)
    ensures PaletteColor(Encode(c)) == c <==> c.r in PaletteLevels && c.g in PaletteLevels && c.b in PaletteBlueLevels
  {
    if c.r in PaletteLevels && c.g in PaletteLevels && c.b in PaletteBlueLevels {
      var i :| 0 <= i < 8 && PaletteLevels[i] == c.r;
      var j :| 0 <= j < 8 && PaletteLevels[j] == c.g;
      var k :| 0 <= k < 4 && PaletteBlueLevels[k] == c.b;
      LevelFields(i);
      LevelFields(j);
      BlueLevelFields(k);
    }
  }

  lemma LevelFields(k: int)
    requires 0 <= k < 8
    ensures PaletteLevels[k] / 32 == k
    ensures ReduceBits(PaletteLevels[k], GridLevels - 1) / 2 == k
  {
    if k == 0 {
    } else if k == 1 {
    } else if k == 2 {
    } else if k == 3 {
    } else if k == 4 {
    } else if k == 5 {
    } else if k == 6 {
    } else {
    }
  }

  lemma BlueLevelFields(k: int)
    requires 0 <= k < 4
    ensures PaletteBlueLevels[k] / 64 == k
    ensures BlueCode(ReduceBits(PaletteBlueLevels[k], GridLevels - 1)) == k
  {
    if k == 0 {
    } else if k == 1 {
    } else if k == 2 {
    } else {
    }
  }

  /** Encoding palette entry i with `rgbToRgb332` gives back i. */
  lemma {:induction false} PaletteRoundTrip(i: byte)
    ensures Encode(PaletteColor(i)) == i
  {
    LevelFields(i / 32);
    LevelFields(i / 4 % 8);
    BlueLevelFields(i % 4);
    FieldsDetermineByte(i);
    FieldsDetermineByte(Encode(PaletteColor(i)));
  }

  /** Palette colours are exactly the palette's entries. */
  lemma IsPaletteColorIff(c: Rgb)
    ensures IsPaletteColor(c) <==> exists i: byte :: PaletteColor(i) == c
  {
    if i: byte :| PaletteColor(i) == c {
      PaletteRoundTrip(i);
    }
  }

  /** The grid-nearest mapper sends palette entry i back to code i. */
  lemma {:induction false} PaletteIsFixed(i: byte)
    ensures MapColorToR3G3B2Reduced(PaletteColor(i).r, PaletteColor(i).g, PaletteColor(i).b) == i
  {
    LevelFields(i / 32);
    LevelFields(i / 4 % 8);
    BlueLevelFields(i % 4);
    var c := PaletteColor(i);
    FieldsDetermineByte(i);
    FieldsDetermineByte(MapColorToR3G3B2Reduced(c.r, c.g, c.b));
  }

  /** `quantize_pixel_with_map_reduced`: the pixel becomes the palette colour of its
      grid-nearest code. */
  function QuantizeReduced(c: Rgb): (q: Rgb)
    ensures q.r in PaletteLevels && q.g in PaletteLevels && q.b in PaletteBlueLevels
    ensures q.r / 32 == ReduceBits(c.r, GridLevels - 1) / 2
    ensures q.g / 32 == ReduceBits(c.g, GridLevels - 1) / 2
    ensures q.b / 64 == BlueCode(ReduceBits(c.b, GridLevels - 1))
  {
    var code := MapColorToR3G3B2Reduced(c.r, c.g, c.b);
    LevelFields(code / 32);
    LevelFields(code / 4 % 8);
    BlueLevelFields(code % 4);
    PaletteColor(code)
  }

  /** The quantised pixel is a palette colour, and its RGB332 encoding is the
      grid-nearest code of the colour it replaced. */
  lemma QuantizeReducedIsPalette(c: Rgb)
    ensures IsPaletteColor(QuantizeReduced(c))
    ensures Encode(QuantizeReduced(c)) == MapColorToR3G3B2Reduced(c.r, c.g, c.b)
  {
    PaletteRoundTrip(MapColorToR3G3B2Reduced(c.r, c.g, c.b));
  }

  /** Quantising is idempotent: a palette colour maps to itself. */
  lemma QuantizeIdempotent(c: Rgb)
    ensures IsPaletteColor(c) ==> QuantizeReduced(c) == c
    ensures QuantizeReduced(QuantizeReduced(c)) == QuantizeReduced(c)
  {
    if IsPaletteColor(c) {
      PaletteIsFixed(Encode(c));
    }
    QuantizeReducedIsPalette(c);
    var q := QuantizeReduced(c);
    PaletteIsFixed(Encode(q));
  }

  /** Black maps to code 0x00 and white to code 0xFF. */
  lemma BlackAndWhite()
    ensures MapColorToR3G3B2Reduced(0, 0, 0) == 0x00
    ensures MapColorToR3G3B2Reduced(255, 255, 255) == 0xFF
  {
    var low, high := ReduceBits(0, GridLevels - 1), ReduceBits(255, GridLevels - 1);
    assert low == 0 && high == 14;
    var black, white := MapColorToR3G3B2Reduced(0, 0, 0), MapColorToR3G3B2Reduced(255, 255, 255);
    assert black / 32 == 0 && black / 4 % 8 == 0 && black % 4 == 0;
    assert white / 32 == 7 && white / 4 % 8 == 7 && white % 4 == 3;
    FieldsDetermineByte(black);
    FieldsDetermineByte(white);
  }
}
