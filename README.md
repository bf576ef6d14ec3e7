# RGB888 to RGB332 converter, modelled in Dafny

The converter reads a 24-bit RGB image (three bytes per pixel, row-major order) and
turns it into one byte per pixel in the RGB332 layout. The top three bits of a byte
hold red, the middle three hold green and the low two hold blue. Before encoding it
can adjust the tone through two 256-entry lookup tables, a gamma table and a
contrast/brightness table. It can also dither the image against a fixed 256-colour
palette. For dithering, each channel is first reduced to 16 levels; a 4096-entry table
maps the reduced triple to a palette index. Four dithers are available: Floyd–Steinberg,
Jarvis–Judice–Ninke, Atkinson and a 16×16 ordered Bayer matrix. The result is written in
one of two forms:

- a C header holding a `uint8_t` array and an `Image_t` record;
- a binary blob: a six-byte metadata record (width, height, format id `0x332`) followed
  by the codes.

The repository holds three generations of the converter:

- `rgb332/`: the first programs. They truncate each channel, spread the truncation
  error Floyd–Steinberg style, and print the header from `main`.
- `r3g3b2/`: one monolithic file and a split version with `fileio.c`, `options.c` and
  so on. These add the reduced-grid palette, the stencil dithers and the tone tables.
- `R3G3B2/src/`: the current converter. It adds the binary output form and returns a
  status where the older files exit.

`check/check.c` widens codes back to 24-bit colour and takes a file name apart.

The model has one module per concern:

- `Bytes`: bytes, colours, clamping, C division.
- `Raster`: `ImageData` and the pixel layout.
- `Color`: RGB332 encoding, the reduced-grid mapper and the palette.
- `Decode`: widening a code back to 24 bits.
- `Dither`: stencils, error diffusion and the Bayer matrix, as specification functions.
- `DitherPasses`: the in-place dither loops, proved against those functions.
- `LegacyDither`: the first-generation truncating Floyd–Steinberg pass and code loop.
- `Tone`: the tone tables.
- `CStrings`: NUL-terminated buffers, `strrchr`, `strncpy`, file-name trimming, base names.
- `Writers`: a file as a stream of `fprintf`/`fwrite` pieces, and the header and binary writers.
- `Options`: the three command-line parsers.
- `Pipeline`: `process_image`.

Code that works in place is imperative Dafny. The image buffer is an `array<byte>`
inside the class `ImageData`, and the option record is the class `ProgramOptions`
with its character buffers. Each loop is a `method` whose postcondition ties the new
contents to a specification function of the old contents.

A file is modelled as the class `Stream`. It keeps the pieces written so far, one per
`fprintf` or `fwrite` call. A call succeeds only while fewer than `room` pieces have
been written, which models an output that can fail at any call. The predicate `Wrote`
states the outcome of a sequence of calls: it is all-or-prefix, and it succeeds exactly
when the whole run fits.

Things the program takes from outside become parameters:

- image loading: the loaded image, or null when loading fails;
- `fopen`: whether the file opens;
- `atoi` and `atof`: uninterpreted functions;
- the floating-point table formulas: functions from the option values and the entry
  index to a byte. The gamma table takes gamma. The contrast/brightness table takes
  gamma, contrast and brightness, because each of its entries starts from the
  gamma-corrected level of its index (`R3G3B2/src/luts.c:28-31`). An image byte v
  becomes `tone[gamma[v]]`, so the gamma curve is applied twice;
- the debug BMP writes: whether each one succeeded.

Where the code and its design notes disagree, the model follows the code:

- Gamma and contrast are never range-checked. `initialize_luts` fails only on a null
  table, so the model has no "invalid parameter" error.
- A dither method outside 0 to 3, including the default -1, selects no function at all.
  The tone-mapped pixels reach the encoder unquantised; there is no "pass-through
  quantisation". `Pipeline.DefaultMethodKeepsColours` shows a pixel that is not a
  palette colour and survives. `noDither` exists but nothing calls it.
- `R3G3B2/src/image_process.c:107` calls `write_image_data_to_file` with three
  arguments, but `R3G3B2/src/fileio.c:151` defines it with five. `header_output` and
  `bin_output` are never set by the option parser (`-b` means brightness and `-h`
  means help there). With `false` for both, the five-argument writer could only fail
  with "Must select -b or -h output option". `Pipeline.ProcessImage` therefore writes
  through the three-argument listing writer of `r3g3b2/fileio.c`, and the five-argument
  writer is modelled on its own as `Writers.WriteImageDataToFileAs`.
- `R3G3B2/include/dither.h` declares the dither functions as returning `int`, but they
  are defined `void`. The model's passes return whether the null check reported an
  error.
- The options header names the brightness field `lightness`. The model uses the
  parser's `brightness`.

The large constant tables are given by the rule their entries follow, not entry by
entry:

- The 4096-entry nearest-colour table maps grid cell (r4, g4, b4) to the code with
  fields r4/2, g4/2 and a blue code of 0 for b4 0–2, 1 for 3–7, 2 for 8–12 and 3 above.
- The palette entry i has the levels `{0,36,72,109,145,182,218,255}` for red and green
  and `{0,85,170,255}` for blue.
- The decode table entry p is `0x24·r3, 0x21·g3, 0x55·b2`.

The 16×16 Bayer matrix is written out literally. `Dither.BayerMatrixRule` proves that every entry
follows the recursive Bayer construction: the entry at column x and row y is the bit-reversed
interleaving of x xor y with y.

The parsers come in two dialects. The current converter terminates each copied name
itself. The split and monolithic converters of `r3g3b2/` do not, and their parsers are
the same text: the monolithic file defines `DEBUG_BUILD` at `r3g3b2/r3g3b2.c:11`, so its
`-debug` branch is compiled in. The monolithic writers (`r3g3b2/r3g3b2.c:341-438`) are
the same code as `r3g3b2/fileio.c:78-171`, and its dither switch (`r3g3b2/r3g3b2.c:491-497`)
picks the same function for each method as `R3G3B2/src/image_process.c:91-99`, so the
members listed for those lines model the monolithic copies too.

## Model

| member | source | states |
|---|---|---|
| Bytes.Clamp | R3G3B2/src/dither.c:73-75 | a value below 0 saturates to 0, above 255 to 255, and a byte value is kept |
| Bytes.CDiv | rgb332/rgb332.c:194 | C's integer `/` truncates toward zero: quotient bounds for a non-negative and for a negative dividend |
| Raster.PixelCount | R3G3B2/src/dither.c:46-47 | the number of pixels the nested row/column loops visit: 0 exactly when a dimension is not positive, otherwise width·height |
| Raster.SetPixel | R3G3B2/src/dither.c:58-61 | storing a colour at pixel k makes pixel k that colour and leaves every other byte of the buffer as it was |
| Raster.RowMajorIndex | R3G3B2/src/dither.c:48 | the index y·width+x of an in-image position lies in the image and gives back x and y by division and remainder |
| Raster.LaterInScan | R3G3B2/src/dither.c:68-71 | a neighbour on a later row, or to the right on the same row, comes later in the scan |
| Color.Rgb332 | R3G3B2/src/color.c:321-324 | the code's top three bits are red/32, the middle three green/32, the low two blue/64 |
| Color.Encode | R3G3B2/src/color.c:321-324 | the RGB332 code of a colour has the three fields of its channels' top bits |
| Color.Rgb332Encodes | r3g3b2/r3g3b2.c:155-158 | the mask-and-shift expression equals the positional code of the colour |
| Color.Rgb332Div | rgb332/rgb332.cpp:107-114 | the C++ form, which divides each channel and shifts the quotients into place, gives the same byte as the mask form for every colour |
| Color.Rgb332Monotone | rgb332/rgb332.c:142-144 | brightening any channel never lowers the code |
| Color.Truncate332 | rgb332/rgb332.c:181-183 | the truncated colour has the low bits clear and lies within 32, 32 and 64 below the original |
| Color.TruncateKeepsCode | rgb332/rgb332.c:181-187 | truncating a pixel does not change its RGB332 code |
| Color.MaskByteIsAnd | rgb332/rgb332.c:181-183 | rounding a byte down to a multiple of a power of two is the bitwise `&` with the mask |
| Color.ReduceBits | R3G3B2/src/color.c:291-294 | the reduced level is the floor of value·max/256: level·256 ≤ value·max < level·256+256 |
| Color.ReduceBitsRange | R3G3B2/src/color.c:297-303 | the 16-level reduction is monotone and never exceeds 14, so level 15 of the grid is never used |
| Color.BlueColumnIsBlueCode | R3G3B2/src/color.c:13-270 | within every row of the nearest-colour table the blue column follows the rule 0–2 → 0, 3–7 → 1, 8–12 → 2, 13–15 → 3 |
| Color.ColorMapLutReduced | R3G3B2/src/color.c:13-270 | entry i of the nearest-colour table has red field (i div 256) div 2, green field ((i div 16) mod 16) div 2, and the blue code of i mod 16 as its blue field |
| Color.GridIndex | R3G3B2/src/color.c:303 | the 12-bit index lies below 4096 and gives back r4, g4 and b4 |
| Color.MapColorToR3G3B2Reduced | R3G3B2/src/color.c:297-305 | the palette index has red field r4/2, green field g4/2 and the blue code of b4 |
| Color.PaletteColor | R3G3B2/src/color.c:272-289 | palette entry i has red (i div 32)·255/7, green ((i div 4) mod 8)·255/7 and blue (i mod 4)·255/3, each rounded down |
| Color.LevelSpacing | R3G3B2/src/color.c:272-289 | red and green level k of the palette is k·255/7 rounded down |
| Color.BlueLevelSpacing | R3G3B2/src/color.c:272-289 | blue level k of the palette is k·255/3 |
| Color.PaletteByChannels | R3G3B2/src/color.c:272-289 | a colour equals the palette entry at its own code exactly when red and green are among the eight levels and blue among the four |
| Color.IsPaletteColor | R3G3B2/src/color.c:272-289 | the palette test holds exactly when red and green are among the eight levels and blue among the four |
| Color.PaletteRoundTrip | R3G3B2/src/color.c:272-289 | encoding palette entry i gives back i, for all 256 entries |
| Color.IsPaletteColorIff | R3G3B2/src/color.c:272-289 | a colour passes the palette test exactly when some entry of the palette equals it |
| Color.PaletteIsFixed | R3G3B2/src/color.c:297-305 | the grid mapper sends every palette colour to its own index |
| Color.QuantizeReduced | R3G3B2/src/color.c:308-319 | every channel of the quantised pixel is a palette level; its red and green fields are half the 16-level reduction of the channel, and its blue field is the blue code of the blue reduction |
| Color.QuantizeReducedIsPalette | R3G3B2/src/color.c:308-319 | the quantised pixel is a palette colour, and its code is the index the mapper chose |
| Color.QuantizeIdempotent | R3G3B2/src/color.c:308-319 | quantising keeps palette colours and is idempotent |
| Color.BlackAndWhite | R3G3B2/src/color.c:297-305 | black maps to index 0x00 and white to 0xFF |
| Decode.Pack | check/check.c:23 | the packed value is below 2^24 and its three bytes are red, green and blue |
| Decode.Unpack | rgb332/r3g3b2.c:159-161 | splitting a 24-bit value into bytes and packing them again gives the value back |
| Decode.UnpackPack | rgb332/r3g3b2.c:159-161 | unpacking a packed colour gives the colour back |
| Decode.RedWidened | check/check.c:20 | the widened red byte is 0x24 times the 3-bit red field |
| Decode.GreenWidened | check/check.c:21 | the widened green byte is 0x21 times the 3-bit green field |
| Decode.BlueWidened | check/check.c:22 | the widened blue byte is 0x55 times the 2-bit blue field |
| Decode.R3G3B2ToR8G8B8 | check/check.c:19-24 | the widened value is a 24-bit colour whose channels are the fields times 0x24, 0x21 and 0x55 |
| Decode.R3G3B2ToR8G8B8Lut | rgb332/r3g3b2.c:26-59 | decode table entry p is a 24-bit colour whose channels are 0x24, 0x21 and 0x55 times the code's three fields |
| Decode.TableLevels | rgb332/r3g3b2.c:26-59 | the decode table's red levels step by 0x24 and its green levels by 0x21 |
| Decode.BlueLevels | rgb332/r3g3b2.c:26-59 | the decode table's blue levels are the palette's blue levels, 0x55·k |
| Decode.DecoderMatchesTable | check/check.c:19-24 | the bit-replicating decoder agrees with the decode table on all 256 codes |
| Decode.DecodeColor | rgb332/r3g3b2.c:26-59 | the decoded colour's top bits are the code's fields |
| Decode.DecodeEncodeRoundTrip | rgb332/r3g3b2.c:195-197 | encoding a decoded code gives the code back, both through the table and through the packed 24-bit value |
| Payload.Codes | R3G3B2/src/fileio.c:139-147 | the payload has one code per pixel |
| Payload.CodesAt | R3G3B2/src/fileio.c:141-142 | payload byte k is the RGB332 code of pixel k |
| Dither.FloydSteinberg | R3G3B2/src/dither.c:82-91 | four forward entries over 16 whose weights sum to 1 |
| Dither.Jarvis | R3G3B2/src/dither.c:93-101 | twelve forward entries over 48 whose weights sum to 1 |
| Dither.Atkinson | R3G3B2/src/dither.c:103-111 | six forward entries over 8 whose weights sum to 3/4: a quarter of the error is dropped |
| Dither.WeightSumAppend | R3G3B2/src/dither.c:67-77 | the weight of a stencil is the sum of its parts' weights |
| Dither.Diffuse | R3G3B2/src/dither.c:73-75 | the neighbour's new byte is 0 when v+e·w is negative, 255 from 255 up, and otherwise the floor of v+e·w |
| Dither.DiffuseNonNegative | rgb332/rgb332.c:193-215 | a non-negative error with a non-negative weight never darkens a neighbour |
| Dither.EntryTarget | R3G3B2/src/dither.c:68-72 | an entry that passes the bounds test hits a pixel of the image, and a forward entry hits a later pixel |
| Dither.DiffuseEntry | R3G3B2/src/dither.c:71-76 | an entry that misses leaves the buffer as it was; one that hits changes only its target pixel, each channel by `Diffuse` |
| Dither.Spread | R3G3B2/src/dither.c:67-77 | spreading the error never writes past the image |
| Dither.SpreadKeepsVisited | R3G3B2/src/dither.c:67-77 | with a forward stencil, spreading never touches the current pixel or an earlier one |
| Dither.DitherPixel | R3G3B2/src/dither.c:48-77 | one step of the scan leaves the bytes past the image unchanged |
| Dither.DitherPixelSettles | R3G3B2/src/dither.c:50-61 | after step k, pixel k is the quantised colour it held and the earlier pixels are unchanged |
| Dither.Dithered | R3G3B2/src/dither.c:46-79 | the scan keeps the buffer's length and the bytes past the image |
| Dither.DitheredKeepsVisited | R3G3B2/src/dither.c:46-79 | with a forward stencil, every pixel ends as the quantisation of what it held when the scan reached it |
| Dither.DitheredAt | R3G3B2/src/dither.c:48-77 | pixel k+1 of the scan is the store of the quantised pixel followed by the spread of its error |
| Dither.DitheredToPalette | R3G3B2/src/dither.c:36-80 | after a diffusion dither against the reduced grid, every pixel is a palette colour |
| Dither.DitheredToTruncated | rgb332/rgb332.c:174-218 | after a diffusion dither with truncation, every pixel has its low bits clear |
| Dither.BayerMatrixRule | R3G3B2/src/dither.c:17-34 | every matrix entry is the bit-reversed interleaving of x xor y with y: the recursive Bayer construction |
| Dither.BayerThreshold | R3G3B2/src/dither.c:127 | the threshold at (x, y) is the Bayer rule at (x mod 16, y mod 16) |
| Dither.RoundHalfAway | R3G3B2/src/dither.c:134-136 | `round` lands within half a step of the quotient, and breaks a tie away from zero |
| Dither.BayerChannel | R3G3B2/src/dither.c:127-140 | the channel moves by (threshold−128)/8 rounded to nearest, a tie going up (the offset value is never negative there), then saturates to a byte: exactly one result meets the bounds |
| Dither.BayerNeutralThreshold | R3G3B2/src/dither.c:127-136 | the threshold 128 leaves a channel as it is |
| Dither.BayerPixel | R3G3B2/src/dither.c:128-146 | the shifted and quantised pixel has a palette level in every channel, and the neutral threshold 128 gives plain quantisation |
| Dither.BayerAt | R3G3B2/src/dither.c:125-146 | the ordered-dither colour at (x, y) is a palette colour, and at every cell whose threshold is 128 it is plain quantisation |
| Dither.NoDitherAt | R3G3B2/src/dither.c:165-173 | the `noDither` colour is a palette colour whose code is the grid mapper's index for the pixel |
| Dither.BayerPixelIsPalette | R3G3B2/src/dither.c:142-146 | an ordered-dither pixel is the palette colour that the grid mapper picks for the shifted colour |
| Dither.Recolored | R3G3B2/src/dither.c:123-148 | a per-pixel pass keeps the length and the bytes past the pixels it visited |
| Dither.RecoloredPixel | R3G3B2/src/dither.c:123-148 | pixel k of a per-pixel pass is the recolouring of the original pixel at its own column and row |
| Dither.NoDitherIsEmptyStencil | R3G3B2/src/dither.c:151-176 | `noDither` is the diffusion scan with an empty stencil |
| Dither.PositionBlindIsEmptyStencil | R3G3B2/src/dither.c:151-176 | any per-pixel pass that ignores the position equals the diffusion scan with an empty stencil |
| Dither.NoDitherToPalette | R3G3B2/src/dither.c:151-176 | after `noDither` every pixel is a palette colour |
| Dither.BayerToPalette | R3G3B2/src/dither.c:113-149 | after the ordered dither every pixel is the quantisation of its own original colour shifted by the threshold of its matrix cell (x mod 16, y mod 16), and a palette colour |
| Dither.BayerPixelAt | R3G3B2/src/dither.c:123-146 | pixel k of the ordered dither is original pixel k shifted by the threshold at column k mod width, row k div width, then quantised to a palette colour |
| DitherPasses.GenericDither | R3G3B2/src/dither.c:36-80 | a null image or buffer is reported and changes nothing; otherwise the buffer becomes the diffusion scan of its old contents |
| DitherPasses.Scan | R3G3B2/src/dither.c:46-79 | the row loop computes the whole scan |
| DitherPasses.DitherRow | R3G3B2/src/dither.c:47-78 | one row carries the scan to the end of that row |
| DitherPasses.DitherAt | R3G3B2/src/dither.c:48-77 | one pixel advances the scan by one step |
| DitherPasses.SpreadError | R3G3B2/src/dither.c:67-77 | the stencil loop computes `Spread` |
| DitherPasses.FloydSteinbergDither | R3G3B2/src/dither.c:82-91 | a Floyd–Steinberg scan against the reduced grid; a null image is reported |
| DitherPasses.JarvisDither | R3G3B2/src/dither.c:93-101 | a Jarvis–Judice–Ninke scan; a null image is reported |
| DitherPasses.AtkinsonDither | R3G3B2/src/dither.c:103-111 | an Atkinson scan; a null image is reported |
| DitherPasses.Bayer16x16Dither | R3G3B2/src/dither.c:113-149 | a null image is reported; otherwise every pixel becomes its ordered-dither colour |
| DitherPasses.NoDither | R3G3B2/src/dither.c:151-176 | a null image is reported; otherwise every pixel is quantised to the palette |
| DitherPasses.Recolor | R3G3B2/src/dither.c:121-148 | the row loop of a per-pixel pass computes `Recolored` |
| DitherPasses.RecolorRow | R3G3B2/src/dither.c:122-147 | one row of a per-pixel pass |
| DitherPasses.RecolorAt | R3G3B2/src/dither.c:123-146 | one pixel of a per-pixel pass |
| LegacyDither.AddErrorIsDiffuse | rgb332/rgb332.c:193-215 | the integer update `min(255, max(0, v + e·n/16))` is the weighted diffusion for non-negative errors |
| LegacyDither.TruncationErrorBounds | rgb332/rgb332.c:189-191 | the truncation error is below 32, 32 and 64 and never negative |
| LegacyDither.AddError | rgb332/rgb332.c:194-214 | a guarded update moves the byte in the direction of e·n by at most e·n/16, and leaves it when e·n lies strictly between −16 and 16 |
| LegacyDither.FloydSteinbergDither | rgb332/rgb332.c:174-218 | the buffer becomes the Floyd–Steinberg scan with truncation to RGB332 of its old contents; `rgb332/r3g3b2.c:199-243` is the identical pass |
| LegacyDither.TruncateScan | rgb332/rgb332.c:175-217 | the row loop computes the truncating scan, here and in the identical copy at `rgb332/r3g3b2.c:200-242` |
| LegacyDither.TruncateRow | rgb332/rgb332.c:176-216 | one row carries the truncating scan to the end of that row |
| LegacyDither.TruncateAt | rgb332/rgb332.c:177-215 | one pixel advances the truncating scan by one step |
| LegacyDither.SpreadRemainder | rgb332/rgb332.c:193-215 | the four guarded updates compute `Spread` for the Floyd–Steinberg stencil |
| LegacyDither.AddErrorAt | rgb332/rgb332.c:194-196 | one guarded update computes `DiffuseEntry` |
| LegacyDither.SpreadOfFour | rgb332/rgb332.c:193-215 | the four updates in order are the stencil's spread |
| LegacyDither.EmitCodes | rgb332/r3g3b2.c:153-165 | the loop emits the code of every pixel in scan order; in debug mode it also replaces each pixel by its decoded colour, otherwise the buffer is unchanged |
| LegacyDither.EmitRow | rgb332/r3g3b2.c:154-164 | one row of the code loop |
| LegacyDither.EmitAt | rgb332/r3g3b2.c:155-162 | one pixel of the code loop: its code, and its decode-back in debug mode |
| LegacyDither.DecodeBackAt | rgb332/r3g3b2.c:158-162 | the decoded-back pixel keeps the pixel's code and is the widened 24-bit colour split into bytes |
| LegacyDither.DecodeBackKeepsCodes | rgb332/r3g3b2.c:158-162 | the debug decode-back changes no pixel's code |
| LegacyDither.LegacyPassTruncates | rgb332/rgb332.c:174-218 | after the first-generation pass every pixel has its low bits clear |
| Tone.ToneMapped | R3G3B2/src/luts.c:44-51 | applying the tables keeps the buffer's length |
| Tone.ToneMappedPixel | R3G3B2/src/luts.c:47-49 | every channel of a visited pixel is the tone entry at the gamma entry of the old value; pixels past the image are kept |
| Tone.Adjust | R3G3B2/src/luts.c:47-49 | a channel becomes an entry of the contrast/brightness table, and identity tables keep it |
| Tone.IdentityTablesKeepImage | R3G3B2/src/luts.c:47-49 | identity tables leave the image as it was |
| Tone.InitializeLuts | R3G3B2/src/luts.c:17-35 | fails exactly when a table is null; on success both tables hold their 256 entries, and the gamma entry wins when both are the same array |
| Tone.InitializeLutsOrExit | r3g3b2/r3g3b2.c:116-135 | the monolithic version exits exactly when a table is null, and otherwise fills both tables |
| Tone.FillLuts | R3G3B2/src/luts.c:26-33 | the loop fills the first 256 entries of both tables and leaves the rest |
| Tone.ProcessImageWithLuts | R3G3B2/src/luts.c:37-53 | fails exactly when the image, its buffer or a table is null, and then changes nothing; otherwise the buffer is tone-mapped |
| Tone.ToneScan | R3G3B2/src/luts.c:44-51 | the row loop computes `ToneMapped` |
| Tone.ToneRow | R3G3B2/src/luts.c:45-50 | one row of the tone loop |
| Tone.ToneAt | R3G3B2/src/luts.c:46-49 | one pixel of the tone loop |
| CStrings.Text | R3G3B2/src/image_process.c:67 | a C string read from a buffer holds no NUL and is no longer than the buffer |
| CStrings.TextIsPrefix | R3G3B2/src/image_process.c:67 | the string is a prefix of its buffer, followed by a NUL when it is shorter, and a buffer holding a NUL is read up to it |
| CStrings.TerminatedText | R3G3B2/src/options.c:30 | characters followed by a NUL read back as those characters |
| CStrings.LastIndexOf | r3g3b2/r3g3b2.c:312 | `strrchr`: either −1, or a position holding the character with no later occurrence |
| CStrings.Padded | r3g3b2/options.c:28 | the buffer `strncpy` leaves: the source padded with NULs, or cut, to n characters |
| CStrings.PaddedText | r3g3b2/options.c:28 | a `strncpy` of a short name reads back as the name; a long one reads back cut to n when a NUL follows |
| CStrings.StrNCopy | r3g3b2/options.c:28 | `strncpy` writes the source padded or cut to n characters and nothing past n |
| CStrings.StrCopy | r3g3b2/r3g3b2.c:323 | `strcpy` writes the characters and a NUL and nothing past them |
| CStrings.Trimmed | r3g3b2/r3g3b2.c:312-337 | the trimmed name is a prefix of the name, shorter than the buffer |
| CStrings.TrimmedStem | r3g3b2/r3g3b2.c:327-337 | a name with a dot splits into the trimmed stem and a last extension with no further dot, when the stem fits |
| CStrings.TrimmedKeepsPlainName | r3g3b2/r3g3b2.c:315-326 | a name without a dot that fits is kept whole |
| CStrings.TrimFilenameCopy | r3g3b2/r3g3b2.c:301-339 | returns null exactly for a null name, a null buffer or a zero size, and then writes nothing; otherwise the buffer holds the trimmed name and a NUL, and nothing after them changes |
| CStrings.CutToFit | r3g3b2/r3g3b2.c:317-321 | a name too long for the buffer is cut to size−1 characters and a NUL |
| CStrings.CopyStem | r3g3b2/r3g3b2.c:333-336 | the stem up to the dot is copied and terminated |
| CStrings.TrimmedText | R3G3B2/src/image_process.c:105-107 | the trimmed name in its buffer reads back as the trimmed name |
| CStrings.FileOf | check/check.c:27-28 | the file part is a suffix of the path |
| CStrings.FileOfHasNoSlash | check/check.c:27-28 | the file part holds no slash |
| CStrings.BaseFilename | check/check.c:26-32 | the base name holds no slash and is a prefix of the file part |
| CStrings.DirectoryThenFile | check/check.c:27-28 | a path is its directory part followed by its file part |
| CStrings.StemThenExtension | check/check.c:29-30 | the file part is the base name followed by the extension |
| CStrings.BaseFilenameSplits | check/check.c:26-32 | a path is its directory, then its base name, then its extension |
| CStrings.ExtensionShape | check/check.c:29-30 | base name and extension hold no slash, and the extension is empty or one dot followed by no other dot |
| CStrings.CutPositionShape | check/check.c:29-30 | the position `get_base_filename` overwrites holds the last dot, with no slash after it |
| CStrings.GetBaseFilename | check/check.c:26-32 | the copy is the base name of the path, and the path buffer gets a NUL at the last dot of its file part and no other change |
| Writers.Stream.Put | R3G3B2/src/fileio.c:69 | one call either adds its whole piece, or fails and writes nothing, once the room is used up |
| Writers.Token | r3g3b2/fileio.c:144 | a code is printed as six characters |
| Writers.TokenRoundTrip | r3g3b2/fileio.c:144 | the `0x%.2X, ` token reads back as its code |
| Writers.TokenHasNoBreak | r3g3b2/fileio.c:144 | a token holds no line break |
| Writers.DecimalRoundTrip | r3g3b2/fileio.c:159-160 | the `%d` text of a number reads back as that number |
| Writers.DigitsRoundTrip | r3g3b2/fileio.c:159-160 | the decimal digits of a natural number read back as it |
| Writers.TokenAt | r3g3b2/fileio.c:140-147 | token k of the printed rows is the token of code k |
| Writers.UnbrokenRow | r3g3b2/fileio.c:141-146 | a printed row without its line break is the tokens of the row's codes |
| Writers.LinesAreTokens | r3g3b2/fileio.c:140-147 | the printed rows with their line breaks taken out are the tokens of all codes in scan order |
| Writers.DataTokens | R3G3B2/src/fileio.c:83-94 | the header's array body, without its line breaks, is the tokens of the payload codes |
| Writers.TokenTextAt | R3G3B2/src/fileio.c:89 | character 6k of the token text starts `0x`, followed by the two hex digits of code k |
| Writers.HeaderMatchesBinary | R3G3B2/src/fileio.c:77-149 | both output forms carry the same codes: token k of the header reads back as byte 6+k of the blob |
| Writers.HeadForms | R3G3B2/src/fileio.c:63-75 | the many-call header of the older writer and the one-call header of the current writer write the same guard and the same embedded `image_types.h`, except for the older writer's "Contents of image_types.h" line |
| Writers.GuardPieces | r3g3b2/fileio.c:112-113 | the guard lines are `#ifndef` and `#define` of the same macro `<name>_H` |
| Writers.DeclarationLine | r3g3b2/fileio.c:138 | the declaration declares `<name>_data`, and its size field reads back as width·height |
| Writers.DeclaredArray | r3g3b2/fileio.c:138 | the array the declaration declares is `<name>_data` |
| Writers.DataField | r3g3b2/fileio.c:158 | the `.data` line of the record names `<name>_data` |
| Writers.StructPieces | r3g3b2/fileio.c:157-162 | the record is six pieces, and its `.data` field names the array the declaration declares |
| Writers.DecimalField | r3g3b2/fileio.c:159-160 | a `%d` field reads back as its number |
| Writers.StructRecordsDimensions | r3g3b2/fileio.c:153-164 | the `Image_t` record points at the data array and reads back the image's width and height |
| Writers.U16 | R3G3B2/src/fileio.c:129-134 | a `uint16_t` field is two bytes, low byte first, holding the value modulo 2^16 |
| Writers.Metadata | R3G3B2/src/fileio.c:129-134 | the metadata record is six bytes |
| Writers.MetadataRoundTrip | R3G3B2/src/fileio.c:129-134 | the record reads back as width and height modulo 2^16 and the format id 0x332 |
| Writers.BinaryLayout | R3G3B2/src/fileio.c:123-149 | the blob is the metadata followed by one code per pixel: 6+w·h bytes, with byte 6+k the code of pixel k |
| Writers.PutAll | r3g3b2/fileio.c:112-129 | a run of calls that stops at the first failure writes a prefix of the run, and all of it exactly when it fits |
| Writers.WriteCHeader | r3g3b2/fileio.c:108-132 | a null file or name fails and writes nothing; otherwise the guard and the embedded types header are written, succeeding exactly when they fit |
| Writers.WriteImageData | r3g3b2/fileio.c:134-151 | a null argument fails and writes nothing; otherwise the declaration, every row of tokens with its line break, and the closing brace are written |
| Writers.WriteRows | r3g3b2/fileio.c:140-147 | the row loop writes every row of tokens |
| Writers.WriteRow | r3g3b2/fileio.c:141-146 | one row writes its tokens and a line break |
| Writers.PutToken | r3g3b2/fileio.c:142-144 | one pixel writes the token of its code |
| Writers.PixelCode | r3g3b2/fileio.c:142-143 | the code printed for a pixel is its RGB332 code |
| Writers.WriteImageStruct | r3g3b2/fileio.c:153-164 | a null argument fails; otherwise the `Image_t` record is written |
| Writers.WriteCFooter | r3g3b2/fileio.c:166-171 | a null argument fails; otherwise the closing guard is written |
| Writers.WriteBinaryData | R3G3B2/src/fileio.c:123-149 | a null argument fails and writes nothing; otherwise the metadata record and then one byte per pixel are written |
| Writers.WritePayload | R3G3B2/src/fileio.c:139-147 | the byte loop writes the code of every pixel |
| Writers.PayloadRow | R3G3B2/src/fileio.c:140-146 | one row of the byte loop |
| Writers.WriteHeaderFile | R3G3B2/src/fileio.c:175-178 | the four writers in order write the whole header file |
| Writers.WriteBody | r3g3b2/fileio.c:94-95 | the data array and the record |
| Writers.WriteTail | r3g3b2/fileio.c:95-96 | the record and the footer |
| Writers.WriteImageDataToFile | r3g3b2/fileio.c:78-106 | a null argument or a file that does not open fails without writing; otherwise the file is closed after holding a prefix of the header file, and the call succeeds exactly when the whole file fits; `r3g3b2/r3g3b2.c:341-438` is the identical code |
| Writers.WriteImageDataToFileAs | R3G3B2/src/fileio.c:151-191 | a null argument, neither output selected, or a file that does not open fails without a file; binary output wins over header output; the chosen file is closed holding a prefix of its form, and the call succeeds exactly when it all fits |
| Options.InitProgramOptions | R3G3B2/src/options.c:8-18 | a null record is left alone; otherwise the names are empty, the method is −1, gamma is 1.0, contrast 0.0 and brightness 1.0 |
| Options.Defaults | R3G3B2/src/options.c:8-18 | the default record's name buffers are 1024 NULs |
| Options.Zero | R3G3B2/src/options.c:11 | every byte of a buffer becomes NUL |
| Options.Parse | R3G3B2/src/options.c:26-112 | the parse ends in success or failure and keeps every name buffer at 1024 characters |
| Options.ParseCommandLineArgs | R3G3B2/src/options.c:20-113 | a null record fails; otherwise the status and the final record are those of the parse from argument 1 |
| Options.ApplyFlag | R3G3B2/src/options.c:27-93 | one option sets its own field from its argument and leaves the others |
| Options.FlagOf | R3G3B2/src/options.c:27-93 | exactly the seven names `-i`, `-o`, `-dm`, `-debug`, `-g`, `-c` and `-b` are recognised as options |
| Options.Apply | R3G3B2/src/options.c:27-93 | an unknown flag changes nothing; no option touches the output-form flags; only `-debug` touches the debug fields, and it turns debug mode on |
| Options.CopyName | R3G3B2/src/options.c:29-30 | the first 1023 bytes of the buffer are the name, padded with NULs or cut |
| Options.CopyInto | R3G3B2/src/options.c:29-30 | the name is copied into its buffer, terminated in the current converter |
| Options.ParseConcat | R3G3B2/src/options.c:26-111 | a successful parse of a prefix of the arguments can be continued by parsing the rest from its record |
| Options.CopiedNameText | R3G3B2/src/options.c:29-30 | a name shorter than 1023 reads back whole; a longer one reads back cut to 1023 when the last byte is NUL, which the current converter forces |
| Options.ParseKeepsTerminators | R3G3B2/src/options.c:30 | a parse from terminated buffers leaves them terminated, in every dialect |
| Options.DefaultsTerminated | r3g3b2/options.c:4-14 | the default record's names are empty and terminated |
| Options.RepeatedFlagOverwrites | R3G3B2/src/options.c:26-111 | a repeated option overwrites the earlier value |
| Options.CopyTwice | R3G3B2/src/options.c:29-30 | copying a second name over a first is copying the second alone |
| Options.DistinctFlagsCommute | R3G3B2/src/options.c:27-93 | different options set different fields, so their order does not matter |
| Options.ParseFailures | R3G3B2/src/options.c:94-110 | an option without its value and `-h` fail with the record as it was; success needs a known option and its value, so an unknown argument fails |
| Options.DebugOptionAccepted | R3G3B2/src/options.c:56-66 | `-debug` with a value turns debug mode on, copies the value into the debug name and goes on after it, in every converter |
| Options.DebugOptionExample | r3g3b2/r3g3b2.c:621-633 | `-debug x` from the defaults succeeds with debug mode on and the debug name reading back as `x`, in the monolithic converter too |
| Pipeline.DitherOf | R3G3B2/src/image_process.c:90-103 | the selected dither keeps the buffer's length |
| Pipeline.SelectedMethodGivesPalette | R3G3B2/src/image_process.c:90-103 | methods 0 to 3 leave a palette colour in every pixel |
| Pipeline.DefaultMethodKeepsColours | R3G3B2/src/image_process.c:96-98 | the default method −1 leaves a non-palette colour as it is |
| Pipeline.ApplyDither | R3G3B2/src/image_process.c:90-103 | the switch and call compute the selected dither; the switch at `r3g3b2/r3g3b2.c:491-497` picks the same functions |
| Pipeline.AdjustTone | R3G3B2/src/image_process.c:80-83 | the stack tables are filled from the options, the contrast/brightness table from gamma as well, and every channel goes through both |
| Pipeline.ConvertedIsPalette | R3G3B2/src/image_process.c:80-103 | with a selected method every output pixel is a palette colour, whatever the tables did first |
| Pipeline.ArrayName | R3G3B2/src/image_process.c:105-106 | the array name is a prefix of the output name, shorter than the buffer |
| Pipeline.WriteOutput | R3G3B2/src/image_process.c:105-110 | the output file, when it opens, is closed holding a prefix of the header file named after the trimmed output name, and the status says whether all of it fit |
| Pipeline.ProcessImage | R3G3B2/src/image_process.c:61-119 | no options, an empty name or a failed load fail before anything changes; otherwise the image is tone-mapped, and if the first debug image is written it is dithered and written out; success needs the file to open, fit and the final debug image to be written. The debug writes (`R3G3B2/src/debug.c:9-26`) can fail only in debug mode, so without `-debug` the image is always dithered and the run succeeds exactly when the output file opens and fits |

## Left out

- Image loading (`load_image`, `stbi_load`), the debug BMP writers, `free_image_memory` and the error printers (`fileio_error`, `perror`, `printf` of usage text) are I/O. The loaded image and whether each debug BMP write would succeed are parameters of `Pipeline.ProcessImage`; as in `write_debug_image`, that outcome is consulted only in debug mode. Messages are not modelled.
- `fopen` becomes a boolean parameter. `fclose` just closes the stream.
- `Writers.Stream.Put`: a call writes its whole piece or nothing. Partial writes and `errno` are not modelled.
- The floating-point formulas of the tone tables (`pow`, the contrast factor, `round`) are functions from the option values and the entry index to a byte. Their numeric results are not modelled. The contrast/brightness function takes gamma, since that table already includes the gamma curve, which the pipeline then applies a second time.
- `DitherPasses.JarvisDither`: the weights `k/48.0f` are taken as exact fractions. In single precision they are not exact, so a value that lands exactly on an integer boundary may differ by one. The Floyd–Steinberg and Atkinson weights are dyadic and exact in floats.
- `Bytes.CDiv`, `LegacyDither.AddErrorIsDiffuse`: the first-generation error is never negative, so truncating and flooring division agree. The model does not follow C `int` arithmetic beyond that.
- `Raster.PixelCount` and every loop over the image: width·height and the index (y·width+x)·3 are unbounded integers. 32-bit `int` overflow on huge images is not modelled, and the buffer is required to hold width·height·3 bytes.
- `Writers.WriteBinaryData`, `Writers.WriteImageDataToFileAs`: the current writer's loops run over `size_t`, and a negative width or height would be converted to a huge unsigned number. Both members require non-negative dimensions.
- The host is taken to be little-endian without struct padding. The `ImageMetadata` record is written low byte first. `bayer16x16Dither` and `noDither` pass `int` channels to the quantiser through `(uint8_t*)&r`; that writes the low byte, so the model treats the channel as a plain byte. A big-endian host is not modelled.
- `atoi` and `atof` are uninterpreted parameters of the parsers. The cast of `atof` to `float` is folded into them.
- The `snprintf` of the debug file names under `DEBUG_BUILD` in `r3g3b2/r3g3b2.c` is not modelled.
- `palette_filename` in the option record is never read or written by the parsers and is not modelled.
- The `main` functions and `rgb332/r3g3b2.c`'s header printing from `main` are not modelled. The printing is the listing form already modelled by `Writers.WriteCHeader` and its neighbours; only its code loop is modelled, as `LegacyDither.EmitCodes`. The `check/check.c` `main` (`fgets`, `sscanf`, `strtok`) is not modelled either.
- The C++ `rgb332/rgb332.cpp` `std::string` handling (`erase` at `npos`) is not modelled; only its `rgbTo332` is.
- `colorDistance` and `r3g3b2/LUT_GEN.c`, which generated the tables, are not part of this model. The tables are stated by the rule their entries follow.
- `r3g3b2/color_map.h` and `bayer16x16.h`, which the monolithic file includes, are not part of this model. The monolithic dithers are taken to use the same tables as `R3G3B2/src/color.c` and `R3G3B2/src/dither.c`.
- `CStrings.GetBaseFilename`: the `_strdup` allocation cannot fail in the model, and the path must hold a NUL (a C string).
