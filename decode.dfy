/** The RGB332 -> RGB888 decoders: the bit-replication function of the header checker
    and the 256-entry decode table of the legacy converter. Both widen each field of a
    code to a full byte; encoding the widened channels again gives back the code. */
module Decode {
  import opened Bytes
  import opened Color

  // ---------------------------------------------------------------------------
  // Bit-level facts about the replication masks.

  lemma RedReplicatedBits(q: bv8)
    ensures ((q & 0xE0) | ((q & 0xE0) >> 3)) as int == 0x24 * (q as int / 32)
  {}

  lemma RedReplicated(p: byte)
    ensures (((p as bv8) & 0xE0) | (((p as bv8) & 0xE0) >> 3)) as int == 0x24 * (p / 32)
  {
    RedReplicatedBits(p as bv8);
    ByteAsBv8(p);
  }

  lemma GreenReplicatedBits(q: bv8)
    ensures ((q & 0x1C) << 3) | ((q & 0x1C) >> 2) == ((q >> 2) & 7) * 0x21
    ensures (q >> 2) & 7 < 8
  {}

  lemma Times21(k: bv8)
    requires k < 8
    ensures (k * 0x21) as int == k as int * 0x21
  {}

  lemma GreenFieldBits(q: bv8)
    ensures ((q >> 2) & 7) as int == q as int / 4 % 8
  {
    ShiftRight2Bits(q);
    LowThreeBits(q >> 2);
  }

  lemma ShiftRight2Bits(q: bv8)
    ensures (q >> 2) as int == q as int / 4
  {}

  lemma LowThreeBits(w: bv8)
    ensures (w & 7) as int == w as int % 8
  {}

  lemma GreenReplicated(p: byte)
    ensures ((((p as bv8) & 0x1C) << 3) | (((p as bv8) & 0x1C) >> 2)) as int == 0x21 * (p / 4 % 8)
  {
    var q := p as bv8;
    GreenReplicatedBits(q);
    Times21((q >> 2) & 7);
    GreenFieldBits(q);
    ByteAsBv8(p);
  }

  lemma BlueReplicatedBits(q: bv8)
    ensures (((q & 0x03) << 6) | ((q & 0x03) << 4) | ((q & 0x03) << 2) | (q & 0x03)) as int == 0x55 * (q as int % 4)
  {}

  lemma BlueReplicated(p: byte)
    ensures ((((p as bv8) & 0x03) << 6) | (((p as bv8) & 0x03) << 4) | (((p as bv8) & 0x03) << 2) | ((p as bv8) & 0x03)) as int == 0x55 * (p % 4)
  {
    BlueReplicatedBits(p as bv8);
    ByteAsBv8(p);
  }

  // ---------------------------------------------------------------------------
  // The packed 24-bit colour.

  /** `(r << 16) | (g << 8) | b` for three bytes: the fields do not overlap, so the
      or-ed shifts are the positional sum. */
  function Pack(r: byte, g: byte, b: byte): (rgb: int)
    ensures 0 <= rgb < 0x100_0000
    ensures rgb / 0x1_0000 == r && rgb / 0x100 % 0x100 == g && rgb % 0x100 == b
  {
    r * 0x1_0000 + g * 0x100 + b
  }

  /** The channels of a packed colour, as the debug decode-back reads them:
      `(v >> 16) & 0xFF`, `(v >> 8) & 0xFF` and `v & 0xFF`. */
  function Unpack(rgb: int): (c: Rgb)
    requires 0 <= rgb < 0x100_0000
    ensures Pack(c.r, c.g, c.b) == rgb
  {
    Rgb(rgb / 0x1_0000, rgb / 0x100 % 0x100, rgb % 0x100)
  }

  /** Packing and unpacking are inverse. */
  lemma UnpackPack(c: Rgb)
    ensures Unpack(Pack(c.r, c.g, c.b)) == c
  {}

  // ---------------------------------------------------------------------------
  // The bit-replication decoder.

  /** `r3g3b2_to_r8g8b8`: each field is widened by repeating its bits, so the red byte
      is 0x24 times the red field, the green byte 0x21 times the green field and the
      blue byte 0x55 times the blue field. */
  function R3G3B2ToR8G8B8(pixel: byte): (rgb: int)
    ensures 0 <= rgb < 0x100_0000
    ensures rgb / 0x1_0000 == 0x24 * (pixel / 32)
    ensures rgb / 0x100 % 0x100 == 0x21 * (pixel / 4 % 8)
    ensures rgb % 0x100 == 0x55 * (pixel % 4)
  {
    Pack(RedWidened(pixel), GreenWidened(pixel), BlueWidened(pixel))
  }

  /** `(p & 0xE0) | ((p & 0xE0) >> 3)`. */
  function RedWidened(pixel: byte): (r: byte)
    ensures r == 0x24 * (pixel / 32)
  {
    RedReplicated(pixel);
    var p := pixel as bv8;
    ((p & 0xE0) | ((p & 0xE0) >> 3)) as int
  }

  /** `((p & 0x1C) << 3) | ((p & 0x1C) >> 2)`. */
  function GreenWidened(pixel: byte): (g: byte)
    ensures g == 0x21 * (pixel / 4 % 8)
  {
    GreenReplicated(pixel);
    var p := pixel as bv8;
    (((p & 0x1C) << 3) | ((p & 0x1C) >> 2)) as int
  }

  /** `((p & 0x03) << 6) | ((p & 0x03) << 4) | ((p & 0x03) << 2) | (p & 0x03)`. */
  function BlueWidened(pixel: byte): (b: byte)
    ensures b == 0x55 * (pixel % 4)
  {
    BlueReplicated(pixel);
    var p := pixel as bv8;
    (((p & 0x03) << 6) | ((p & 0x03) << 4) | ((p & 0x03) << 2) | (p & 0x03)) as int
  }

  // ---------------------------------------------------------------------------
  // The decode table.

  /** The red bytes of the decode table, one per red field value. */
  const TableRedLevels: seq<byte> := [0x00, 0x24, 0x48, 0x6C, 0x90, 0xB4, 0xD8, 0xFC]

  /** The green bytes of the decode table, one per green field value. */
  const TableGreenLevels: seq<byte> := [0x00, 0x21, 0x42, 0x63, 0x84, 0xA5, 0xC6, 0xE7]

  /** `r3g3b2_to_r8g8b8_lut[p]`. The table runs through the blue bytes 00, 55, AA, FF
      fastest, then the green bytes, then the red bytes, so entry p holds the red level
      of field p >> 5, the green level of field (p >> 2) & 7 and the blue level of
      field p & 3. Its red and green levels step by 0x24 and 0x21, its blue levels by
      0x55. */
  function R3G3B2ToR8G8B8Lut(p: byte): (rgb: int)
    ensures 0 <= rgb < 0x100_0000
    ensures rgb / 0x1_0000 == 0x24 * (p / 32)
    ensures rgb / 0x100 % 0x100 == 0x21 * (p / 4 % 8)
    ensures rgb % 0x100 == 0x55 * (p % 4)
  {
    TableLevels(p / 32);
    TableLevels(p / 4 % 8);
    BlueLevels(p % 4);
    Pack(TableRedLevels[p / 32], TableGreenLevels[p / 4 % 8], PaletteBlueLevels[p % 4])
  }

  lemma TableLevels(k: int)
    requires 0 <= k < 8
    ensures TableRedLevels[k] == 0x24 * k && TableGreenLevels[k] == 0x21 * k
  {
    if k == 0 {
    } else if k == 1 {
    } else if k == 2 {
    } else if k == 3 {
    } else if k == 4 {
    } else if k == 5 {
    } else if k == 6 {
    } else {
    }
  }

  lemma BlueLevels(k: int)
    requires 0 <= k < 4
    ensures PaletteBlueLevels[k] == 0x55 * k
  {
    if k == 0 {
    } else if k == 1 {
    } else if k == 2 {
    } else {
    }
  }

  /** The checker's decoder and the converter's decode table agree on every code. */
  lemma {:induction false} DecoderMatchesTable(p: byte)
    ensures R3G3B2ToR8G8B8(p) == R3G3B2ToR8G8B8Lut(p)
  {
    var d, t := R3G3B2ToR8G8B8(p), R3G3B2ToR8G8B8Lut(p);
    assert d == d / 0x1_0000 * 0x1_0000 + d / 0x100 % 0x100 * 0x100 + d % 0x100;
  }

  /** The decoded channels of a code. */
  function DecodeColor(p: byte): (c: Rgb)
    ensures c.r / 32 == p / 32 && c.g / 32 == p / 4 % 8 && c.b / 64 == p % 4
  {
    Unpack(R3G3B2ToR8G8B8Lut(p))
  }

  /** Decoding then encoding is the identity, for the table and for the checker's
      decoder alike. */
  lemma {:induction false} DecodeEncodeRoundTrip(p: byte)
    ensures Encode(DecodeColor(p)) == p
    ensures Encode(Unpack(R3G3B2ToR8G8B8(p))) == p
  {
    DecoderMatchesTable(p);
    FieldsDetermineByte(p);
    FieldsDetermineByte(Encode(DecodeColor(p)));
  }

  /** Encoding then decoding keeps the top three bits of red and green and the top two
      bits of blue. */
  lemma EncodeDecodeKeepsTopBits(c: Rgb)
    ensures DecodeColor(Encode(c)).r / 32 == c.r / 32
    ensures DecodeColor(Encode(c)).g / 32 == c.g / 32
    ensures DecodeColor(Encode(c)).b / 64 == c.b / 64
  {}
}
