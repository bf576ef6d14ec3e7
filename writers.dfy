/** The output writers: the C-header text (a declaration listing one `0xHH, ` token per
    pixel, a row per line, between an include guard, a copy of the types header and an
    `Image_t` record) and the binary blob (three 16-bit fields, then one code byte per
    pixel). An open file is a stream that records each piece written to it, one per
    `fprintf` or `fwrite` call; what the file holds is those pieces one after another.
    The medium accepts a given number of calls, and a call beyond that fails having
    written nothing. */
module Writers {
  import opened Bytes
  import opened Color
  import opened Raster
  import opened Payload
  import opened CStrings

  /** An open `FILE*`: the pieces written to it, how many calls the medium accepts, and
      whether it is still open. */
  class Stream<T(==)> {
    var pieces: seq<seq<T>>
    var room: int
    var isOpen: bool

    /** An open file has taken no more calls than the medium accepts. */
    predicate Valid()
      reads this
    {
      isOpen && |pieces| <= room
    }

    /** What the file holds. */
    function Contents(): seq<T>
      reads this
    {
      Concat(pieces)
    }

    /** `fopen` that succeeded: an empty, open file. */
    constructor (room: nat)
      ensures pieces == [] && this.room == room && Valid()
    {
      pieces := [];
      this.room := room;
      isOpen := true;
    }

    /** One `fprintf` or `fwrite`: the piece is added when the medium accepts another
        call, and otherwise the call fails having written nothing. */
    method Put(piece: seq<T>) returns (ok: bool)
      requires Valid()
      modifies this
      ensures Wrote(pieces, old(pieces), [piece], room, ok)
      ensures room == old(room) && Valid()
    {
      ok := |pieces| < room;
      if ok {
        pieces := pieces + [piece];
      }
    }

    /** `fclose`. */
    method Close()
      modifies this
      ensures !isOpen && pieces == old(pieces) && room == old(room)
    {
      isOpen := false;
    }
  }

  /** The text of pieces written one after another. */
  function Concat<T>(pieces: seq<seq<T>>): seq<T>
  {
    if |pieces| == 0 then [] else Concat(pieces[..|pieces| - 1]) + pieces[|pieces| - 1]
  }

  lemma {:induction false} ConcatAppend<T>(p: seq<seq<T>>, q: seq<seq<T>>)
    ensures Concat(p + q) == Concat(p) + Concat(q)
  {
    if |q| > 0 {
      assert (p + q)[..|p + q| - 1] == p + q[..|q| - 1];
      ConcatAppend(p, q[..|q| - 1]);
    } else {
      assert p + q == p;
    }
  }

  /** A run of write calls that started with `before` in the file and ended with
      `after`: it succeeded exactly when the medium accepts all of them, it then added
      every piece, and whatever it added is the first pieces of the run. */
  predicate Wrote<P(==)>(after: seq<P>, before: seq<P>, run: seq<P>, room: int, ok: bool)
  {
    (ok <==> |before| + |run| <= room) &&
    (ok ==> after == before + run) &&
    before <= after && after <= before + run
  }

  /** A run that succeeded followed by another run is one run of both. */
  lemma WroteThen<P>(before: seq<P>, mid: seq<P>, after: seq<P>, a: seq<P>, b: seq<P>, room: int, ok: bool)
    requires Wrote(mid, before, a, room, true) && Wrote(after, mid, b, room, ok)
    ensures Wrote(after, before, a + b, room, ok)
  {
    assert mid + b == before + (a + b);
  }

  /** A run that failed part way failed for any longer run too. */
  lemma WroteStops<P>(before: seq<P>, after: seq<P>, a: seq<P>, t: seq<P>, room: int)
    requires Wrote(after, before, a, room, false) && a <= t
    ensures Wrote(after, before, t, room, false)
  {
    assert before + a <= before + t;
  }

  // ---------------------------------------------------------------------------
  // Formatting.

  /** The hexadecimal digit `%X` prints for d. */
  function HexDigit(d: int): char
    requires 0 <= d < 16
  {
    "0123456789ABCDEF"[d]
  }

  /** The value of a hexadecimal digit, or -1 for any other character. */
  function HexValue(ch: char): int
  {
    if '0' <= ch <= '9' then ch as int - '0' as int
    else if 'A' <= ch <= 'F' then ch as int - 'A' as int + 10
    else -1
  }

  /** Each digit reads back as its value. */
  lemma HexDigitValue(d: int)
    requires 0 <= d < 16
    ensures HexValue(HexDigit(d)) == d
  {
    if d < 8 {
      if d < 4 {
        if d < 2 { } else { }
      } else {
        if d < 6 { } else { }
      }
    } else {
      if d < 12 {
        if d < 10 { } else { }
      } else {
        if d < 14 { } else { }
      }
    }
  }

  /** `fprintf(fp, "0x%.2X, ", code)`: the two upper-case hexadecimal digits of the
      code between "0x" and ", ". */
  function Token(code: byte): (t: seq<char>)
    ensures |t| == 6
  {
    "0x" + [HexDigit(code / 16), HexDigit(code % 16)] + ", "
  }

  /** A token reads back as the code it was printed for. */
  lemma TokenRoundTrip(code: byte)
    ensures Token(code)[..2] == "0x" && Token(code)[4..] == ", "
    ensures 16 * HexValue(Token(code)[2]) + HexValue(Token(code)[3]) == code
  {
    HexDigitValue(code / 16);
    HexDigitValue(code % 16);
  }

  /** No token holds a line break. */
  lemma TokenHasNoBreak(code: byte)
    ensures '\n' !in Token(code)
  {
    HexDigitValue(code / 16);
    HexDigitValue(code % 16);
    assert Token(code) == ['0', 'x', HexDigit(code / 16), HexDigit(code % 16), ',', ' '];
  }

  /** The decimal digits of n without sign. */
  function Digits(n: nat): (s: seq<char>)
    ensures 0 < |s|
  {
    if n < 10 then [('0' as int + n) as char]
    else Digits(n / 10) + [('0' as int + n % 10) as char]
  }

  /** `%d`: a '-' before the digits of a negative value. */
  function Decimal(n: int): seq<char>
  {
    if n < 0 then "-" + Digits(-n) else Digits(n)
  }

  /** The value of a run of decimal digits. */
  function DigitsValue(s: seq<char>): int
  {
    if |s| == 0 then 0 else 10 * DigitsValue(s[..|s| - 1]) + (s[|s| - 1] as int - '0' as int)
  }

  /** The value a printed `%d` reads back as. */
  function DecimalValue(s: seq<char>): int
  {
    if 0 < |s| && s[0] == '-' then -DigitsValue(s[1..]) else DigitsValue(s)
  }

  /** Printing a value with `%d` and reading it back gives the value. */
  lemma {:induction false} DigitsRoundTrip(n: nat)
    ensures DigitsValue(Digits(n)) == n
    ensures '-' !in Digits(n)
  {
    if n >= 10 {
      DigitsRoundTrip(n / 10);
      var s := Digits(n);
      assert s[..|s| - 1] == Digits(n / 10);
    }
  }

  lemma DecimalRoundTrip(n: int)
    ensures DecimalValue(Decimal(n)) == n
  {
    if n < 0 {
      DigitsRoundTrip(-n);
      assert Decimal(n)[1..] == Digits(-n);
    } else {
      DigitsRoundTrip(n);
      assert Decimal(n)[0] in Digits(n);
    }
  }

  // ---------------------------------------------------------------------------
  // The pixel data as text.

  /** The token of each code, one piece per code. */
  function TokenPieces(codes: seq<byte>): seq<seq<char>>
  {
    seq(|codes|, i requires 0 <= i < |codes| => Token(codes[i]))
  }

  lemma TokenPiecesAppend(a: seq<byte>, b: seq<byte>)
    ensures TokenPieces(a + b) == TokenPieces(a) + TokenPieces(b)
  {}

  /** Token k of the token text of a list of codes is the token of code k. */
  lemma TokenAt(codes: seq<byte>, k: int)
    requires 0 <= k < |codes|
    ensures |Concat(TokenPieces(codes))| == 6 * |codes|
    ensures Concat(TokenPieces(codes))[6 * k..6 * k + 6] == Token(codes[k])
  {
    WindowOfPieces(TokenPieces(codes), k);
  }

  /** In pieces of six items each, piece k is the window at 6 * k of their text. */
  lemma {:induction false} WindowOfPieces<T>(pieces: seq<seq<T>>, k: int)
    requires forall i :: 0 <= i < |pieces| ==> |pieces[i]| == 6
    requires 0 <= k < |pieces|
    ensures |Concat(pieces)| == 6 * |pieces|
    ensures Concat(pieces)[6 * k..6 * k + 6] == pieces[k]
  {
    var n := |pieces| - 1;
    var left, right := Concat(pieces[..n]), pieces[n];
    assert Concat(pieces) == left + right;
    if n > 0 {
      WindowOfPieces(pieces[..n], if k < n then k else 0);
    }
    assert |left| == 6 * n;
    if k < n {
      WindowInLeft(left, right, 6 * k, 6 * k + 6);
    } else {
      WindowAtEnd(left, right);
    }
  }

  lemma WindowInLeft<T>(left: seq<T>, right: seq<T>, i: int, j: int)
    requires 0 <= i <= j <= |left|
    ensures (left + right)[i..j] == left[i..j]
  {}

  lemma WindowAtEnd<T>(left: seq<T>, right: seq<T>)
    ensures (left + right)[|left|..|left| + |right|] == right
  {}

  /** Row y starts at code y * width and ends where row y + 1 starts. */
  lemma RowBounds(width: nat, y: nat)
    ensures 0 <= y * width && y * width + width == (y + 1) * width
  {}

  /** The pieces of row y: the token of each of its codes, then the line break. */
  function RowPieces(codes: seq<byte>, width: nat, y: nat): seq<seq<char>>
    requires (y + 1) * width <= |codes|
  {
    RowBounds(width, y);
    RowStartIsProduct(width, y);
    TokenPieces(codes[RowStart(width, y)..RowStart(width, y) + width]) + ["\n"]
  }

  /** Where row y starts, counted in codes (y * width, written as a sum). */
  function RowStart(width: nat, y: nat): nat
  {
    if y == 0 then 0 else RowStart(width, y - 1) + width
  }

  lemma {:induction false} RowStartIsProduct(width: nat, y: nat)
    ensures RowStart(width, y) == y * width
  {
    if y > 0 {
      RowStartIsProduct(width, y - 1);
    }
  }

  /** The pieces of the first `rows` rows of `width` codes each. */
  function Lines(codes: seq<byte>, width: nat, rows: nat): seq<seq<char>>
    requires rows * width <= |codes|
  {
    if rows == 0 then [] else
      RowBounds(width, rows - 1);
      Lines(codes, width, rows - 1) + RowPieces(codes, width, rows - 1)
  }

  /** One more row is the rows so far and the row's own pieces. */
  lemma LinesNext(codes: seq<byte>, width: nat, y: nat)
    requires (y + 1) * width <= |codes|
    ensures y * width <= |codes|
    ensures Lines(codes, width, y + 1) == Lines(codes, width, y) + RowPieces(codes, width, y)
  {
    RowBounds(width, y);
  }

  /** Fewer rows are the first pieces of more rows. */
  lemma {:induction false} LinesPrefix(codes: seq<byte>, width: nat, rows: nat, more: nat)
    requires rows <= more && more * width <= |codes|
    ensures Lines(codes, width, rows) <= Lines(codes, width, more)
  {
    if rows < more {
      RowBounds(width, more - 1);
      LinesPrefix(codes, width, rows, more - 1);
    }
  }

  /** The pieces other than the line breaks, in order. */
  function Unbroken(pieces: seq<seq<char>>): (r: seq<seq<char>>)
    ensures "\n" !in r
  {
    if |pieces| == 0 then [] else
      Unbroken(pieces[..|pieces| - 1]) + (if pieces[|pieces| - 1] == "\n" then [] else [pieces[|pieces| - 1]])
  }

  lemma {:induction false} UnbrokenAppend(p: seq<seq<char>>, q: seq<seq<char>>)
    ensures Unbroken(p + q) == Unbroken(p) + Unbroken(q)
  {
    if |q| > 0 {
      assert (p + q)[..|p + q| - 1] == p + q[..|q| - 1];
      UnbrokenAppend(p, q[..|q| - 1]);
    } else {
      assert p + q == p;
    }
  }

  /** Pieces none of which is a line break come through whole. */
  lemma {:induction false} UnbrokenKeeps(pieces: seq<seq<char>>)
    requires forall i :: 0 <= i < |pieces| ==> pieces[i] != "\n"
    ensures Unbroken(pieces) == pieces
  {
    if |pieces| > 0 {
      UnbrokenKeeps(pieces[..|pieces| - 1]);
    }
  }

  /** No token is a line break, so taking the breaks out of tokens keeps them all. */
  lemma UnbrokenTokens(codes: seq<byte>)
    ensures Unbroken(TokenPieces(codes)) == TokenPieces(codes)
  {
    var tokens := TokenPieces(codes);
    forall i | 0 <= i < |tokens|
      ensures tokens[i] != "\n"
    {
      assert |tokens[i]| == 6;
    }
    UnbrokenKeeps(tokens);
  }

  /** The row without its line break is the tokens of its codes. */
  lemma UnbrokenRow(codes: seq<byte>, width: nat, y: nat)
    requires (y + 1) * width <= |codes|
    ensures 0 <= y * width && y * width + width == (y + 1) * width
    ensures Unbroken(RowPieces(codes, width, y)) == TokenPieces(codes[y * width..y * width + width])
  {
    RowBounds(width, y);
    var row := codes[y * width..y * width + width];
    assert RowPieces(codes, width, y) == TokenPieces(row) + ["\n"] by {
      RowStartIsProduct(width, y);
    }
    UnbrokenAppend(TokenPieces(row), ["\n"]);
    assert Unbroken(["\n"]) == [];
    UnbrokenTokens(row);
  }

  lemma TokensSplit(codes: seq<byte>, a: int, b: int)
    requires 0 <= a <= b <= |codes|
    ensures TokenPieces(codes[..a]) + TokenPieces(codes[a..b]) == TokenPieces(codes[..b])
  {
    assert codes[..b] == codes[..a] + codes[a..b];
    TokenPiecesAppend(codes[..a], codes[a..b]);
  }

  /** With the line breaks taken out, the rows are the tokens of all their codes in
      order. */
  lemma {:induction false} LinesAreTokens(codes: seq<byte>, width: nat, rows: nat)
    requires rows * width <= |codes|
    ensures Unbroken(Lines(codes, width, rows)) == TokenPieces(codes[..rows * width])
  {
    if rows > 0 {
      var y := rows - 1;
      RowBounds(width, y);
      var a, b := y * width, rows * width;
      LinesNext(codes, width, y);
      LinesAreTokens(codes, width, y);
      UnbrokenRow(codes, width, y);
      UnbrokenAppend(Lines(codes, width, y), RowPieces(codes, width, y));
      TokensSplit(codes, a, b);
    }
  }

  /** The width and height the text writers lay the codes out in: a non-positive
      dimension gives no codes per row or no rows. */
  function Extent(d: int): nat
  {
    if d > 0 then d else 0
  }

  lemma ExtentCount(width: int, height: int)
    ensures Extent(height) * Extent(width) == PixelCount(width, height)
  {}

  /** The declaration line `write_image_data` prints before the tokens. */
  function DeclarationLine(name: seq<char>, width: int, height: int): (line: seq<char>)
    ensures |name| + 27 <= |line| - 6
    ensures line[..|name| + 27] == "static const uint8_t " + name + "_data["
    ensures line[|line| - 6..] == "] = {\n"
    ensures DecimalValue(line[|name| + 27..|line| - 6]) == width * height
  {
    var count := Decimal(width * height);
    DecimalRoundTrip(width * height);
    var line := "static const uint8_t " + name + "_data[" + count + "] = {\n";
    assert line[|name| + 27..|line| - 6] == count;
    line
  }

  /** Everything `write_image_data` prints for an image: the declaration, the rows of
      tokens of the pixel codes, and the closing brace. */
  function DataPieces(name: seq<char>, s: seq<byte>, width: int, height: int): seq<seq<char>>
    requires Covers(width, height, |s|)
  {
    ExtentCount(width, height);
    [DeclarationLine(name, width, height)] + Lines(Codes(s, PixelCount(width, height)), Extent(width), Extent(height)) + ["};\n\n"]
  }

  // ---------------------------------------------------------------------------
  // The text around the data.

  /** The include guard and include line every header starts with. */
  function GuardPieces(name: seq<char>): (g: seq<seq<char>>)
    ensures |g| == 3 && |g[0]| == |name| + 11 && |g[1]| == |name| + 12
    ensures g[0][..8] == "#ifndef " && g[1][..8] == "#define "
    ensures g[0][8..] == name + "_H\n" && g[1][8..|g[1]| - 1] == g[0][8..]
  {
    ["#ifndef " + name + "_H\n", "#define " + name + "_H\n\n", "#include \"image_types.h\"\n\n"]
  }

  /** The lines of `image_types.h`. */
  const TypesHeaderLines: seq<seq<char>> := [
    "#ifndef IMAGE_TYPES_H\n",
    "#define IMAGE_TYPES_H\n\n",
    "#include <stdint.h>\n\n",
    "#define RGB332_FORMAT_ID 0x332\n\n",
    "typedef struct {\n",
    "    const uint8_t* data;\n",
    "    uint16_t width;\n",
    "    uint16_t height;\n",
    "    uint16_t format_id;\n",
    "} Image_t;\n\n",
    "#endif // IMAGE_TYPES_H\n"
  ]

  /** `image_types_header` of the current converter: the same lines as one string. */
  const TypesHeader: seq<char> := Concat(TypesHeaderLines)

  /** The comment copying `image_types.h` as the split and monolithic converters print
      it: a "Contents of" line and then each line of the types header by its own call. */
  const ListingPieces: seq<seq<char>> := ["/*\n", "Contents of image_types.h:\n\n"] + TypesHeaderLines + ["*/\n\n"]

  /** The same comment as the current converter prints it, in one call and without the
      "Contents of" line. */
  const CompactPieces: seq<seq<char>> := ["/*\n" + TypesHeader + "*/\n\n"]

  /** What `write_c_header` prints: the guard, then the types comment in the listing
      form or the compact one. */
  function HeadPieces(name: seq<char>, listing: bool): seq<seq<char>>
  {
    GuardPieces(name) + (if listing then ListingPieces else CompactPieces)
  }

  /** The record `write_image_struct` prints. Its `.data` field names the array the
      data declaration declares. */
  function StructPieces(name: seq<char>, width: int, height: int): (p: seq<seq<char>>)
    ensures |p| == 6 && |p[1]| == |name| + 19
    ensures p[1][12..|name| + 17] == DeclarationLine(name, width, height)[21..|name| + 26]
  {
    var data := DataField(name);
    DeclaredArray(name, width, height);
    var p := ["static const Image_t " + name + "_image = {\n",
      data,
      "    .width = " + Decimal(width) + ",\n",
      "    .height = " + Decimal(height) + ",\n",
      "    .format_id = RGB332_FORMAT_ID\n",
      "};\n\n"];
    assert p[1] == data;
    p
  }

  /** The `.data` line of the record. */
  function DataField(name: seq<char>): (f: seq<char>)
    ensures |f| == |name| + 19 && f[12..|name| + 17] == name + "_data"
  {
    var f := "    .data = " + name + "_data,\n";
    assert f[12..|name| + 17] == name + "_data";
    f
  }

  /** The array the data declaration declares. */
  lemma DeclaredArray(name: seq<char>, width: int, height: int)
    ensures DeclarationLine(name, width, height)[21..|name| + 26] == name + "_data"
  {
    var line := DeclarationLine(name, width, height);
    var head := "static const uint8_t " + name;
    assert line[..|name| + 27] == head + "_data[";
    assert line[..|name| + 27][21..|name| + 26] == name + "_data";
    SliceOfPrefix(line, |name| + 27, 21, |name| + 26);
  }

  lemma SliceOfPrefix<T>(s: seq<T>, n: int, i: int, j: int)
    requires 0 <= i <= j <= n <= |s|
    ensures s[..n][i..j] == s[i..j]
  {}

  /** The line `write_c_footer` prints. */
  function FooterPieces(name: seq<char>): seq<seq<char>>
  {
    ["#endif // " + name + "_H\n"]
  }

  /** Everything after the head: data, record and footer. */
  function BodyPieces(name: seq<char>, s: seq<byte>, width: int, height: int): seq<seq<char>>
    requires Covers(width, height, |s|)
  {
    DataPieces(name, s, width, height) + StructPieces(name, width, height) + FooterPieces(name)
  }

  /** The whole header file, call by call. */
  function FilePieces(name: seq<char>, s: seq<byte>, width: int, height: int, listing: bool): seq<seq<char>>
    requires Covers(width, height, |s|)
  {
    HeadPieces(name, listing) + BodyPieces(name, s, width, height)
  }

  /** Both forms of the head hold the whole types header inside one comment, and differ
      only in the "Contents of" line. */
  lemma HeadForms(name: seq<char>)
    ensures Concat(HeadPieces(name, true)) == Concat(GuardPieces(name)) + "/*\n" + "Contents of image_types.h:\n\n" + TypesHeader + "*/\n\n"
    ensures Concat(HeadPieces(name, false)) == Concat(GuardPieces(name)) + "/*\n" + TypesHeader + "*/\n\n"
  {
    Bracketed(GuardPieces(name), "/*\n", "Contents of image_types.h:\n\n", TypesHeaderLines, "*/\n\n");
    ConcatAppend(GuardPieces(name), CompactPieces);
    ConcatOne("/*\n" + TypesHeader + "*/\n\n");
  }

  lemma ConcatOne<T>(a: seq<T>)
    ensures Concat([a]) == a
  {
    assert [a][..0] == [];
  }

  /** Lines between two opening pieces and a closing one, after a head. */
  lemma Bracketed<T>(head: seq<seq<T>>, a: seq<T>, b: seq<T>, lines: seq<seq<T>>, c: seq<T>)
    ensures Concat(head + ([a, b] + lines + [c])) == Concat(head) + a + b + Concat(lines) + c
  {
    ConcatAppend(head, [a, b] + lines + [c]);
    ConcatAppend([a, b] + lines, [c]);
    ConcatAppend([a, b], lines);
    assert [a, b][..1] == [a];
    ConcatOne(a);
    ConcatOne(c);
  }

  /** The record names the data array and states the dimensions the data was written
      with: the width and height read back from it are the image's. */
  lemma StructRecordsDimensions(name: seq<char>, width: int, height: int)
    ensures StructPieces(name, width, height)[1] == DataField(name)
    ensures var w := StructPieces(name, width, height)[2];
            DecimalValue(w[13..|w| - 2]) == width
    ensures var h := StructPieces(name, width, height)[3];
            DecimalValue(h[14..|h| - 2]) == height
  {
    var p := StructPieces(name, width, height);
    assert p[2] == "    .width = " + Decimal(width) + ",\n";
    assert p[3] == "    .height = " + Decimal(height) + ",\n";
    DecimalField("    .width = ", width);
    DecimalField("    .height = ", height);
  }

  /** A field printed as its label text, the decimal number and `,\n` reads back as the number. */
  lemma DecimalField(head: seq<char>, n: int)
    ensures var f := head + Decimal(n) + ",\n";
            DecimalValue(f[|head|..|f| - 2]) == n
  {
    var f := head + Decimal(n) + ",\n";
    assert f[|head|..|f| - 2] == Decimal(n);
    DecimalRoundTrip(n);
  }

  // ---------------------------------------------------------------------------
  // The binary blob.

  /** A `uint16_t` in the file: the value taken modulo 2^16, low byte first. */
  function U16(v: int): (b: seq<byte>)
    ensures |b| == 2 && b[0] as int + 0x100 * b[1] as int == v % 0x1_0000
  {
    [v % 0x1_0000 % 0x100, v % 0x1_0000 / 0x100]
  }

  /** `RGB332_FORMAT_ID`. */
  const FormatId: int := 0x332

  /** The `ImageMetadata` record: width, height and format identifier. */
  function Metadata(width: int, height: int): (m: seq<byte>)
    ensures |m| == 6
  {
    U16(width) + U16(height) + U16(FormatId)
  }

  /** The field a reader takes from two bytes, low byte first. */
  function FieldAt(b: seq<byte>, i: int): int
    requires 0 <= i && i + 1 < |b|
  {
    b[i] as int + 0x100 * b[i + 1] as int
  }

  /** The record reads back as the width and height modulo 2^16 and the format
      identifier. */
  lemma MetadataRoundTrip(width: int, height: int)
    ensures FieldAt(Metadata(width, height), 0) == width % 0x1_0000
    ensures FieldAt(Metadata(width, height), 2) == height % 0x1_0000
    ensures FieldAt(Metadata(width, height), 4) == FormatId
  {}

  /** One byte per write call. */
  function BytePieces(codes: seq<byte>): seq<seq<byte>>
  {
    seq(|codes|, i requires 0 <= i < |codes| => [codes[i]])
  }

  lemma {:induction false} BytePiecesText(codes: seq<byte>)
    ensures Concat(BytePieces(codes)) == codes
  {
    if |codes| > 0 {
      var n := |codes| - 1;
      BytePiecesText(codes[..n]);
      assert BytePieces(codes)[..n] == BytePieces(codes[..n]);
    }
  }

  /** Everything `write_binary_data` writes: the record, then the code of each pixel. */
  function BinaryPieces(s: seq<byte>, width: int, height: int): seq<seq<byte>>
    requires Covers(width, height, |s|)
  {
    [Metadata(width, height)] + BytePieces(Codes(s, PixelCount(width, height)))
  }

  /** The blob is the record and then one byte per pixel, byte 6 + k being the code of
      pixel k. */
  lemma BinaryLayout(s: seq<byte>, width: int, height: int)
    requires Covers(width, height, |s|)
    ensures Concat(BinaryPieces(s, width, height)) == Metadata(width, height) + Codes(s, PixelCount(width, height))
    ensures |Concat(BinaryPieces(s, width, height))| == 6 + PixelCount(width, height)
    ensures forall k :: 0 <= k < PixelCount(width, height) ==>
      Concat(BinaryPieces(s, width, height))[6 + k] == Encode(PixelAt(s, k))
  {
    var codes := Codes(s, PixelCount(width, height));
    ConcatAppend([Metadata(width, height)], BytePieces(codes));
    assert Concat([Metadata(width, height)]) == Metadata(width, height);
    BytePiecesText(codes);
    forall k | 0 <= k < PixelCount(width, height)
      ensures codes[k] == Encode(PixelAt(s, k))
    {
      CodesAt(s, PixelCount(width, height), k);
    }
  }

  /** Token k of the token text reads back as code k. */
  lemma TokenTextAt(codes: seq<byte>, k: int)
    requires 0 <= k < |codes|
    ensures var t := Concat(TokenPieces(codes));
            6 * k + 6 <= |t| && t[6 * k..6 * k + 2] == "0x" &&
            16 * HexValue(t[6 * k + 2]) + HexValue(t[6 * k + 3]) == codes[k]
  {
    TokenAt(codes, k);
    TokenRoundTrip(codes[k]);
    var t := Concat(TokenPieces(codes));
    assert t[6 * k..6 * k + 6][..2] == t[6 * k..6 * k + 2];
    assert t[6 * k + 2] == t[6 * k..6 * k + 6][2];
    assert t[6 * k + 3] == t[6 * k..6 * k + 6][3];
  }

  /** The rows of tokens `write_image_data` prints for an image, with the line breaks
      taken out. */
  function DataTokensText(s: seq<byte>, width: int, height: int): seq<char>
    requires Covers(width, height, |s|)
  {
    ExtentCount(width, height);
    Concat(Unbroken(Lines(Codes(s, PixelCount(width, height)), Extent(width), Extent(height))))
  }

  /** The rows of the header, with the line breaks taken out, are the tokens of every
      pixel code. */
  lemma DataTokens(s: seq<byte>, width: int, height: int)
    requires Covers(width, height, |s|)
    ensures DataTokensText(s, width, height) == Concat(TokenPieces(Codes(s, PixelCount(width, height))))
  {
    var codes := Codes(s, PixelCount(width, height));
    ExtentCount(width, height);
    LinesAreTokens(codes, Extent(width), Extent(height));
    assert codes[..Extent(height) * Extent(width)] == codes;
  }

  /** Both outputs carry the same codes: with the line breaks taken out of the rows of
      the header, token k reads back as byte 6 + k of the blob. */
  lemma HeaderMatchesBinary(s: seq<byte>, width: int, height: int, k: int)
    requires Covers(width, height, |s|) && 0 <= k < PixelCount(width, height)
    ensures var t := DataTokensText(s, width, height);
            var b := Concat(BinaryPieces(s, width, height));
            6 * k + 6 <= |t| && t[6 * k..6 * k + 2] == "0x" && 6 + k < |b| &&
            16 * HexValue(t[6 * k + 2]) + HexValue(t[6 * k + 3]) == b[6 + k]
  {
    DataTokens(s, width, height);
    TokenTextAt(Codes(s, PixelCount(width, height)), k);
    BinaryLayout(s, width, height);
    CodesAt(s, PixelCount(width, height), k);
  }

  // ---------------------------------------------------------------------------
  // The writers.

  /** A run of calls that each return `EXIT_FAILURE` on the first failure. */
  method PutAll<T(==)>(fp: Stream<T>, pieces: seq<seq<T>>) returns (ok: bool)
    requires fp.Valid()
    modifies fp
    ensures Wrote(fp.pieces, old(fp.pieces), pieces, fp.room, ok)
    ensures fp.room == old(fp.room) && fp.Valid()
  {
    ghost var base := fp.pieces;
    var i := 0;
    while i < |pieces|
      invariant 0 <= i <= |pieces| && fp.Valid() && fp.room == old(fp.room)
      invariant Wrote(fp.pieces, base, pieces[..i], fp.room, true)
    {
      ghost var mid := fp.pieces;
      ok := fp.Put(pieces[i]);
      assert pieces[..i + 1] == pieces[..i] + [pieces[i]];
      WroteThen(base, mid, fp.pieces, pieces[..i], [pieces[i]], fp.room, ok);
      if !ok {
        WroteStops(base, fp.pieces, pieces[..i + 1], pieces, fp.room);
        return;
      }
      i := i + 1;
    }
    assert pieces[..i] == pieces;
    ok := true;
  }

  /** `write_c_header`: nothing is written without a file or a name; otherwise the
      guard and the types comment, `listing` choosing the split and monolithic
      converters' form over the current one's. */
  method WriteCHeader(fp: Stream?<char>, arrayName: CStr, listing: bool) returns (status: int)
    requires fp != null ==> fp.Valid()
    modifies if fp != null then {fp} else {}
    ensures status == ExitSuccess || status == ExitFailure
    ensures fp == null || arrayName.Null? ==> status == ExitFailure && (fp != null ==> fp.pieces == old(fp.pieces))
    ensures fp != null ==> fp.room == old(fp.room) && fp.Valid()
    ensures fp != null && arrayName.Chars? ==>
      Wrote(fp.pieces, old(fp.pieces), HeadPieces(arrayName.text, listing), fp.room, status == ExitSuccess)
  {
    if fp == null || arrayName.Null? {
      return ExitFailure;
    }
    var ok := PutAll(fp, HeadPieces(arrayName.text, listing));
    status := if ok then ExitSuccess else ExitFailure;
  }

  /** `write_image_struct`. */
  method WriteImageStruct(fp: Stream?<char>, arrayName: CStr, image: ImageData?) returns (status: int)
    requires fp != null ==> fp.Valid()
    modifies if fp != null then {fp} else {}
    ensures status == ExitSuccess || status == ExitFailure
    ensures fp == null || arrayName.Null? || image == null ==> status == ExitFailure && (fp != null ==> fp.pieces == old(fp.pieces))
    ensures fp != null ==> fp.room == old(fp.room) && fp.Valid()
    ensures fp != null && arrayName.Chars? && image != null ==>
      Wrote(fp.pieces, old(fp.pieces), StructPieces(arrayName.text, image.width, image.height), fp.room, status == ExitSuccess)
  {
    if fp == null || arrayName.Null? || image == null {
      return ExitFailure;
    }
    var ok := PutAll(fp, StructPieces(arrayName.text, image.width, image.height));
    status := if ok then ExitSuccess else ExitFailure;
  }

  /** `write_c_footer`. */
  method WriteCFooter(fp: Stream?<char>, arrayName: CStr) returns (status: int)
    requires fp != null ==> fp.Valid()
    modifies if fp != null then {fp} else {}
    ensures status == ExitSuccess || status == ExitFailure
    ensures fp == null || arrayName.Null? ==> status == ExitFailure && (fp != null ==> fp.pieces == old(fp.pieces))
    ensures fp != null ==> fp.room == old(fp.room) && fp.Valid()
    ensures fp != null && arrayName.Chars? ==>
      Wrote(fp.pieces, old(fp.pieces), FooterPieces(arrayName.text), fp.room, status == ExitSuccess)
  {
    if fp == null || arrayName.Null? {
      return ExitFailure;
    }
    var ok := PutAll(fp, FooterPieces(arrayName.text));
    status := if ok then ExitSuccess else ExitFailure;
  }

  /** `write_image_data`: nothing is written without a file, a name, an image or its
      buffer; otherwise the declaration, one token per pixel in row-major order with a
      line break after every row, and the closing brace, stopping at the first write
      that fails. */
  method WriteImageData(fp: Stream?<char>, arrayName: CStr, image: ImageData?) returns (status: int)
    requires Sized(image)
    requires fp != null ==> fp.Valid()
    modifies if fp != null then {fp} else {}
    ensures status == ExitSuccess || status == ExitFailure
    ensures fp == null || arrayName.Null? || image == null || image.data == null ==>
      status == ExitFailure && (fp != null ==> fp.pieces == old(fp.pieces))
    ensures fp != null ==> fp.room == old(fp.room) && fp.Valid()
    ensures fp != null && arrayName.Chars? && image != null && image.data != null ==>
      Wrote(fp.pieces, old(fp.pieces), DataPieces(arrayName.text, image.data[..], image.width, image.height), fp.room, status == ExitSuccess)
  {
    if fp == null || arrayName.Null? || image == null || image.data == null {
      return ExitFailure;
    }
    var name := arrayName.text;
    var width, height := image.width, image.height;
    ghost var base := fp.pieces;
    ghost var codes := Codes(image.data[..], PixelCount(width, height));
    ExtentCount(width, height);
    ghost var decl := [DeclarationLine(name, width, height)];
    ghost var lines := Lines(codes, Extent(width), Extent(height));
    ghost var whole := DataPieces(name, image.data[..], width, height);
    assert whole == decl + lines + ["};\n\n"];
    var ok := fp.Put(DeclarationLine(name, width, height));
    if !ok {
      WroteStops(base, fp.pieces, decl, whole, fp.room);
      return ExitFailure;
    }
    ghost var mid := fp.pieces;
    ok := WriteRows(fp, image.data, width, height, codes);
    WroteThen(base, mid, fp.pieces, decl, lines, fp.room, ok);
    if !ok {
      WroteStops(base, fp.pieces, decl + lines, whole, fp.room);
      return ExitFailure;
    }
    mid := fp.pieces;
    ok := fp.Put("};\n\n");
    WroteThen(base, mid, fp.pieces, decl + lines, ["};\n\n"], fp.room, ok);
    status := if ok then ExitSuccess else ExitFailure;
  }

  /** The two nested loops of `write_image_data`. */
  method WriteRows(fp: Stream<char>, data: array<byte>, width: int, height: int, ghost codes: seq<byte>) returns (ok: bool)
    requires fp.Valid() && Covers(width, height, data.Length)
    requires codes == Codes(data[..], PixelCount(width, height))
    modifies fp
    ensures fp.room == old(fp.room) && fp.Valid()
    ensures Extent(height) * Extent(width) <= |codes|
    ensures Wrote(fp.pieces, old(fp.pieces), Lines(codes, Extent(width), Extent(height)), fp.room, ok)
  {
    ExtentCount(width, height);
    ghost var base := fp.pieces;
    ghost var w := Extent(width);
    var y := 0;
    while y < height
      invariant 0 <= y <= Extent(height)
      invariant y * w <= |codes|
      invariant fp.Valid() && fp.room == old(fp.room)
      invariant Wrote(fp.pieces, base, Lines(codes, w, y), fp.room, true)
    {
      ghost var mid := fp.pieces;
      RowInside(width, height, y);
      ok := WriteRow(fp, data, width, height, y, codes);
      RowStep(base, mid, fp.pieces, codes, w, y, Extent(height), fp.room, ok);
      if !ok {
        return;
      }
      y := y + 1;
    }
    assert y == Extent(height);
    ok := true;
  }

  /** Row y written after the rows before it: the rows so far, or a failure part way
      through all of them. */
  lemma RowStep(base: seq<seq<char>>, mid: seq<seq<char>>, after: seq<seq<char>>, codes: seq<byte>, w: nat, y: nat, rows: nat, room: int, ok: bool)
    requires y < rows && (y + 1) * w <= rows * w <= |codes|
    requires Wrote(mid, base, Lines(codes, w, y), room, true) && Wrote(after, mid, RowPieces(codes, w, y), room, ok)
    ensures Wrote(after, base, Lines(codes, w, y + 1), room, ok)
    ensures !ok ==> Wrote(after, base, Lines(codes, w, rows), room, false)
  {
    LinesNext(codes, w, y);
    WroteThen(base, mid, after, Lines(codes, w, y), RowPieces(codes, w, y), room, ok);
    if !ok {
      LinesPrefix(codes, w, y + 1, rows);
      WroteStops(base, after, Lines(codes, w, y + 1), Lines(codes, w, rows), room);
    }
  }

  /** A row of the image lies inside the code list. */
  lemma RowInside(width: int, height: int, y: int)
    requires 0 <= y < height
    ensures (y + 1) * Extent(width) <= Extent(height) * Extent(width)
  {
    MulMonotone(y + 1, height, if width > 0 then width else 1);
  }

  /** One row of `write_image_data`: a token per pixel, then the line break. */
  method WriteRow(fp: Stream<char>, data: array<byte>, width: int, height: int, y: int, ghost codes: seq<byte>) returns (ok: bool)
    requires fp.Valid() && Covers(width, height, data.Length) && 0 <= y < height
    requires codes == Codes(data[..], PixelCount(width, height))
    requires (y + 1) * Extent(width) <= |codes|
    modifies fp
    ensures fp.room == old(fp.room) && fp.Valid()
    ensures Wrote(fp.pieces, old(fp.pieces), RowPieces(codes, Extent(width), y), fp.room, ok)
  {
    ghost var base := fp.pieces;
    ghost var w := Extent(width);
    RowBounds(w, y);
    RowStartIsProduct(w, y);
    ghost var row := codes[y * w..y * w + w];
    assert RowPieces(codes, w, y) == TokenPieces(row) + ["\n"];
    var x := 0;
    while x < width
      invariant 0 <= x <= |row|
      invariant fp.Valid() && fp.room == old(fp.room)
      invariant Wrote(fp.pieces, base, TokenPieces(row[..x]), fp.room, true)
    {
      ghost var mid := fp.pieces;
      ok := PutToken(fp, data, width, height, x, y, row);
      TokenStep(base, mid, fp.pieces, row, x, ["\n"], fp.room, ok);
      if !ok {
        return;
      }
      x := x + 1;
    }
    assert row[..x] == row;
    ghost var mid := fp.pieces;
    ok := fp.Put("\n");
    WroteThen(base, mid, fp.pieces, TokenPieces(row), ["\n"], fp.room, ok);
  }

  /** The token of pixel (x, y), which is entry x of the row's codes. */
  method PutToken(fp: Stream<char>, data: array<byte>, width: int, height: int, x: int, y: int, ghost row: seq<byte>) returns (ok: bool)
    requires fp.Valid() && Covers(width, height, data.Length) && 0 <= x < width && 0 <= y < height
    requires 0 <= y * width && y * width + width <= PixelCount(width, height)
    requires row == Codes(data[..], PixelCount(width, height))[y * width..y * width + width]
    modifies fp
    ensures fp.room == old(fp.room) && fp.Valid()
    ensures Wrote(fp.pieces, old(fp.pieces), [Token(row[x])], fp.room, ok)
  {
    var code := PixelCode(data, width, height, x, y);
    RowCode(data[..], width, height, x, y, row);
    ok := fp.Put(Token(code));
  }

  /** The token of code x written after the tokens before it: the tokens so far, or a
      failure part way through the row. */
  lemma TokenStep(base: seq<seq<char>>, mid: seq<seq<char>>, after: seq<seq<char>>, row: seq<byte>, x: int, tail: seq<seq<char>>, room: int, ok: bool)
    requires 0 <= x < |row|
    requires Wrote(mid, base, TokenPieces(row[..x]), room, true) && Wrote(after, mid, [Token(row[x])], room, ok)
    ensures Wrote(after, base, TokenPieces(row[..x + 1]), room, ok)
    ensures !ok ==> Wrote(after, base, TokenPieces(row) + tail, room, false)
  {
    assert TokenPieces(row[..x + 1]) == TokenPieces(row[..x]) + [Token(row[x])];
    WroteThen(base, mid, after, TokenPieces(row[..x]), [Token(row[x])], room, ok);
    if !ok {
      assert TokenPieces(row) + tail == TokenPieces(row[..x + 1]) + (TokenPieces(row)[x + 1..] + tail);
      WroteStops(base, after, TokenPieces(row[..x + 1]), TokenPieces(row) + tail, room);
    }
  }

  /** Entry x of row y of the code list is the code of pixel (x, y). */
  lemma RowCode(s: seq<byte>, width: int, height: int, x: int, y: int, row: seq<byte>)
    requires Covers(width, height, |s|) && 0 <= x < width && 0 <= y < height
    requires 0 <= y * width && y * width + width <= PixelCount(width, height)
    requires row == Codes(s, PixelCount(width, height))[y * width..y * width + width]
    ensures row[x] == Encode(PixelAt(s, y * width + x))
  {
    RowMajorIndex(width, height, x, y);
    CodesAt(s, PixelCount(width, height), y * width + x);
  }

  /** `rgbToRgb332` of the channels of pixel (x, y). */
  method PixelCode(data: array<byte>, width: int, height: int, x: int, y: int) returns (code: byte)
    requires Covers(width, height, data.Length) && 0 <= x < width && 0 <= y < height
    ensures 0 <= y * width + x < PixelCount(width, height)
    ensures code == Encode(PixelAt(data[..], y * width + x))
  {
    RowMajorIndex(width, height, x, y);
    var idx := (y * width + x) * Components;
    code := Rgb332(data[idx], data[idx + 1], data[idx + 2]);
    Rgb332Encodes(data[idx], data[idx + 1], data[idx + 2]);
  }

  /** `write_binary_data`: nothing is written without a file, an image or its buffer;
      otherwise the metadata record in one write, then the code of each pixel in
      row-major order, one byte per write, stopping at the first that fails. */
  method WriteBinaryData(fp: Stream?<byte>, image: ImageData?) returns (status: int)
    requires Sized(image)
    requires image != null ==> 0 <= image.width && 0 <= image.height
    requires fp != null ==> fp.Valid()
    modifies if fp != null then {fp} else {}
    ensures status == ExitSuccess || status == ExitFailure
    ensures fp == null || image == null || image.data == null ==>
      status == ExitFailure && (fp != null ==> fp.pieces == old(fp.pieces))
    ensures fp != null ==> fp.room == old(fp.room) && fp.Valid()
    ensures fp != null && image != null && image.data != null ==>
      Wrote(fp.pieces, old(fp.pieces), BinaryPieces(image.data[..], image.width, image.height), fp.room, status == ExitSuccess)
  {
    if fp == null || image == null || image.data == null {
      return ExitFailure;
    }
    var width, height := image.width, image.height;
    ghost var base := fp.pieces;
    ghost var codes := Codes(image.data[..], PixelCount(width, height));
    ghost var whole := BinaryPieces(image.data[..], width, height);
    var ok := fp.Put(Metadata(width, height));
    if !ok {
      WroteStops(base, fp.pieces, [Metadata(width, height)], whole, fp.room);
      return ExitFailure;
    }
    ghost var mid := fp.pieces;
    ok := WritePayload(fp, image.data, width, height, codes);
    WroteThen(base, mid, fp.pieces, [Metadata(width, height)], BytePieces(codes), fp.room, ok);
    status := if ok then ExitSuccess else ExitFailure;
  }

  /** The two nested loops of `write_binary_data`. */
  method WritePayload(fp: Stream<byte>, data: array<byte>, width: int, height: int, ghost codes: seq<byte>) returns (ok: bool)
    requires fp.Valid() && Covers(width, height, data.Length) && 0 <= width && 0 <= height
    requires codes == Codes(data[..], PixelCount(width, height))
    modifies fp
    ensures fp.room == old(fp.room) && fp.Valid()
    ensures Wrote(fp.pieces, old(fp.pieces), BytePieces(codes), fp.room, ok)
  {
    ghost var base := fp.pieces;
    ghost var done := 0;
    var y := 0;
    while y < height
      invariant 0 <= y <= height
      invariant done == y * width && done <= |codes|
      invariant fp.Valid() && fp.room == old(fp.room)
      invariant Wrote(fp.pieces, base, BytePieces(codes[..done]), fp.room, true)
    {
      ok, done := PayloadRow(fp, data, width, height, y, codes, base);
      if !ok {
        return;
      }
      y := y + 1;
    }
    assert codes[..done] == codes by {
      if width > 0 && height > 0 {
        assert done == height * width;
      }
    }
    ok := true;
  }

  /** One row of `write_binary_data`: the code byte of each pixel, in one write each. */
  method PayloadRow(fp: Stream<byte>, data: array<byte>, width: int, height: int, y: int, ghost codes: seq<byte>, ghost base: seq<seq<byte>>)
      returns (ok: bool, ghost next: int)
    requires fp.Valid() && Covers(width, height, data.Length) && 0 <= width && 0 <= y < height
    requires codes == Codes(data[..], PixelCount(width, height))
    requires y * width <= |codes|
    requires Wrote(fp.pieces, base, BytePieces(codes[..y * width]), fp.room, true)
    modifies fp
    ensures fp.room == old(fp.room) && fp.Valid()
    ensures ok ==> next == (y + 1) * width && next <= |codes|
    ensures ok ==> Wrote(fp.pieces, base, BytePieces(codes[..next]), fp.room, true)
    ensures !ok ==> Wrote(fp.pieces, base, BytePieces(codes), fp.room, false)
  {
    next := y * width;
    var x := 0;
    while x < width
      invariant 0 <= x <= width
      invariant next == y * width + x && next <= |codes|
      invariant fp.Valid() && fp.room == old(fp.room)
      invariant Wrote(fp.pieces, base, BytePieces(codes[..next]), fp.room, true)
    {
      ghost var mid := fp.pieces;
      var code := PixelCode(data, width, height, x, y);
      ok := fp.Put([code]);
      CodesAt(data[..], PixelCount(width, height), next);
      ByteStep(base, mid, fp.pieces, codes, next, fp.room, ok);
      if !ok {
        return;
      }
      next := next + 1;
      x := x + 1;
    }
    NextRow(width, y);
    ok := true;
  }

  /** Code byte k written after the ones before it. */
  lemma ByteStep(base: seq<seq<byte>>, mid: seq<seq<byte>>, after: seq<seq<byte>>, codes: seq<byte>, k: int, room: int, ok: bool)
    requires 0 <= k < |codes|
    requires Wrote(mid, base, BytePieces(codes[..k]), room, true) && Wrote(after, mid, [[codes[k]]], room, ok)
    ensures Wrote(after, base, BytePieces(codes[..k + 1]), room, ok)
    ensures !ok ==> Wrote(after, base, BytePieces(codes), room, false)
  {
    assert BytePieces(codes[..k + 1]) == BytePieces(codes[..k]) + [[codes[k]]];
    WroteThen(base, mid, after, BytePieces(codes[..k]), [[codes[k]]], room, ok);
    if !ok {
      assert BytePieces(codes[..k + 1]) <= BytePieces(codes);
      WroteStops(base, after, BytePieces(codes[..k + 1]), BytePieces(codes), room);
    }
  }

  // ---------------------------------------------------------------------------
  // The files.

  /** The four writers of the header file in turn, stopping at the first that fails
      (the `goto` to the clean-up). */
  method WriteHeaderFile(fp: Stream<char>, arrayName: CStr, image: ImageData?, listing: bool) returns (status: int)
    requires fp.Valid() && arrayName.Chars? && Sized(image) && image != null && image.data != null
    modifies fp
    ensures status == ExitSuccess || status == ExitFailure
    ensures fp.room == old(fp.room) && fp.Valid()
    ensures Wrote(fp.pieces, old(fp.pieces), FilePieces(arrayName.text, image.data[..], image.width, image.height, listing), fp.room, status == ExitSuccess)
  {
    ghost var base := fp.pieces;
    ghost var head := HeadPieces(arrayName.text, listing);
    ghost var body := BodyPieces(arrayName.text, image.data[..], image.width, image.height);
    status := WriteCHeader(fp, arrayName, listing);
    if status == ExitSuccess {
      ghost var mid := fp.pieces;
      status := WriteBody(fp, arrayName, image);
      WroteThen(base, mid, fp.pieces, head, body, fp.room, status == ExitSuccess);
    } else {
      WroteStops(base, fp.pieces, head, head + body, fp.room);
    }
  }

  /** The writers after `write_c_header`, stopping at the first that fails. */
  method WriteBody(fp: Stream<char>, arrayName: CStr, image: ImageData?) returns (status: int)
    requires fp.Valid() && arrayName.Chars? && Sized(image) && image != null && image.data != null
    modifies fp
    ensures status == ExitSuccess || status == ExitFailure
    ensures fp.room == old(fp.room) && fp.Valid()
    ensures Wrote(fp.pieces, old(fp.pieces), BodyPieces(arrayName.text, image.data[..], image.width, image.height), fp.room, status == ExitSuccess)
  {
    ghost var base := fp.pieces;
    ghost var data := DataPieces(arrayName.text, image.data[..], image.width, image.height);
    ghost var tail := StructPieces(arrayName.text, image.width, image.height) + FooterPieces(arrayName.text);
    assert BodyPieces(arrayName.text, image.data[..], image.width, image.height) == data + tail;
    status := WriteImageData(fp, arrayName, image);
    if status == ExitSuccess {
      ghost var mid := fp.pieces;
      status := WriteTail(fp, arrayName, image);
      WroteThen(base, mid, fp.pieces, data, tail, fp.room, status == ExitSuccess);
    } else {
      WroteStops(base, fp.pieces, data, data + tail, fp.room);
    }
  }

  /** `write_image_struct` then `write_c_footer`. */
  method WriteTail(fp: Stream<char>, arrayName: CStr, image: ImageData?) returns (status: int)
    requires fp.Valid() && arrayName.Chars? && image != null
    modifies fp
    ensures status == ExitSuccess || status == ExitFailure
    ensures fp.room == old(fp.room) && fp.Valid()
    ensures Wrote(fp.pieces, old(fp.pieces), StructPieces(arrayName.text, image.width, image.height) + FooterPieces(arrayName.text), fp.room, status == ExitSuccess)
  {
    ghost var base := fp.pieces;
    ghost var record := StructPieces(arrayName.text, image.width, image.height);
    ghost var footer := FooterPieces(arrayName.text);
    status := WriteImageStruct(fp, arrayName, image);
    if status == ExitSuccess {
      ghost var mid := fp.pieces;
      status := WriteCFooter(fp, arrayName);
      WroteThen(base, mid, fp.pieces, record, footer, fp.room, status == ExitSuccess);
    } else {
      WroteStops(base, fp.pieces, record, record + footer, fp.room);
    }
  }

  /** `write_image_data_to_file` of the split and monolithic converters: with a name,
      an image and its buffer, and a file that opens (`opens`, on a medium that accepts
      `room` write calls), the header file in its listing form is written and the file
      closed; it reports success exactly when every call was accepted. Anything
      missing, or a file that does not open, is reported before any file exists. */
  method WriteImageDataToFile(filename: CStr, arrayName: CStr, image: ImageData?, opens: bool, room: nat)
      returns (status: int, file: Stream?<char>)
    requires Sized(image)
    ensures status == ExitSuccess || status == ExitFailure
    ensures filename.Null? || arrayName.Null? || image == null || image.data == null || !opens ==>
      status == ExitFailure && file == null
    ensures filename.Chars? && arrayName.Chars? && image != null && image.data != null && opens ==>
      file != null && fresh(file) && !file.isOpen && file.room == room &&
      Wrote(file.pieces, [], FilePieces(arrayName.text, image.data[..], image.width, image.height, true), room, status == ExitSuccess)
  {
    if filename.Null? || arrayName.Null? || image == null || image.data == null {
      return ExitFailure, null;
    }
    if !opens {
      return ExitFailure, null;
    }
    var fp := new Stream<char>(room);
    status := WriteHeaderFile(fp, arrayName, image, true);
    fp.Close();
    file := fp;
  }

  /** `write_image_data_to_file` of the current converter: after the same checks the
      binary blob is written when `binOutput` is set, else the header file in its
      compact form when `headerOutput` is set, and with neither it fails without
      opening a file. The file, if one opened, is closed before returning. */
  method WriteImageDataToFileAs(filename: CStr, arrayName: CStr, image: ImageData?, headerOutput: bool, binOutput: bool, opens: bool, room: nat)
      returns (status: int, text: Stream?<char>, blob: Stream?<byte>)
    requires Sized(image)
    requires image != null ==> 0 <= image.width && 0 <= image.height
    ensures status == ExitSuccess || status == ExitFailure
    ensures filename.Null? || arrayName.Null? || image == null || image.data == null ==>
      status == ExitFailure && text == null && blob == null
    ensures (!binOutput && !headerOutput) || !opens ==> status == ExitFailure && text == null && blob == null
    ensures filename.Chars? && arrayName.Chars? && image != null && image.data != null && binOutput && opens ==>
      text == null && blob != null && fresh(blob) && !blob.isOpen && blob.room == room &&
      Wrote(blob.pieces, [], BinaryPieces(image.data[..], image.width, image.height), room, status == ExitSuccess)
    ensures filename.Chars? && arrayName.Chars? && image != null && image.data != null && !binOutput && headerOutput && opens ==>
      blob == null && text != null && fresh(text) && !text.isOpen && text.room == room &&
      Wrote(text.pieces, [], FilePieces(arrayName.text, image.data[..], image.width, image.height, false), room, status == ExitSuccess)
  {
    text, blob := null, null;
    if filename.Null? || arrayName.Null? || image == null || image.data == null {
      return ExitFailure, text, blob;
    }
    if binOutput {
      if !opens {
        return ExitFailure, text, blob;
      }
      var fp := new Stream<byte>(room);
      status := WriteBinaryData(fp, image);
      fp.Close();
      blob := fp;
    } else if headerOutput {
      if !opens {
        return ExitFailure, text, blob;
      }
      var fp := new Stream<char>(room);
      status := WriteHeaderFile(fp, arrayName, image, false);
      fp.Close();
      text := fp;
    } else {
      status := ExitFailure;
    }
  }
}
