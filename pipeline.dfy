/** `process_image`: the order of the conversion steps. The options name an input and
    an output file; the loaded image goes through the two tone tables, then through the
    dither the options select, and is written out as a C header named after the output
    file. Loading the image, the float formulas of the tables and the debug images are
    given to the model: the loaded image (or none, when loading fails) and whether each
    debug image was written are parameters, and the table entries are functions of the
    option values and the entry index. */
module Pipeline {
  import opened Bytes
  import opened Color
  import opened Raster
  import opened Dither
  import opened DitherPasses
  import opened Tone
  import opened CStrings
  import opened Options
  import opened Writers

  /** The buffer after the dither step: methods 0 to 3 select Floyd–Steinberg, Jarvis,
      Atkinson and the 16×16 Bayer matrix; any other method selects no function at all,
      so the buffer stays as it was. */
  function DitherOf(ditherMethod: int, s: seq<byte>, width: int, height: int): (r: seq<byte>)
    requires Covers(width, height, |s|)
    ensures |r| == |s|
  {
    match ditherMethod
    case 0 => Dithered(QuantizeReduced, s, width, height, FloydSteinberg(), PixelCount(width, height))
    case 1 => Dithered(QuantizeReduced, s, width, height, Jarvis(), PixelCount(width, height))
    case 2 => Dithered(QuantizeReduced, s, width, height, Atkinson(), PixelCount(width, height))
    case 3 => Recolored(BayerAt, s, width, height, PixelCount(width, height))
    case _ => s
  }

  /** A selected method leaves a palette colour in every pixel of the image. */
  lemma SelectedMethodGivesPalette(ditherMethod: int, s: seq<byte>, width: int, height: int)
    requires Covers(width, height, |s|) && 0 <= ditherMethod <= 3
    ensures forall k :: 0 <= k < PixelCount(width, height) ==> IsPaletteColor(PixelAt(DitherOf(ditherMethod, s, width, height), k))
  {
    var r := DitherOf(ditherMethod, s, width, height);
    if ditherMethod == 3 {
      assert r == Recolored(BayerAt, s, width, height, PixelCount(width, height));
      BayerToPalette(s, width, height);
    } else {
      var st := if ditherMethod == 0 then FloydSteinberg() else if ditherMethod == 1 then Jarvis() else Atkinson();
      assert r == Dithered(QuantizeReduced, s, width, height, st, PixelCount(width, height));
      DitheredToPalette(s, width, height, st);
    }
  }

  /** The default method of the options, -1, selects no dither: the colours of a
      one-pixel image (1, 1, 1), which is no palette colour, reach the output as they
      are. */
  lemma DefaultMethodKeepsColours()
    ensures DitherOf(Defaults().ditherMethod, [1, 1, 1], 1, 1) == [1, 1, 1]
    ensures !IsPaletteColor(PixelAt(DitherOf(Defaults().ditherMethod, [1, 1, 1], 1, 1), 0))
  {
    assert PixelAt([1, 1, 1], 0) == Rgb(1, 1, 1);
    assert Encode(Rgb(1, 1, 1)) == 0;
  }

  /** The `switch` on the method and the call of the selected function. */
  method ApplyDither(image: ImageData, ditherMethod: int)
    requires Sized(image) && image.data != null
    modifies image.data
    ensures image.data[..] == DitherOf(ditherMethod, old(image.data[..]), image.width, image.height)
  {
    var reported: bool;
    match ditherMethod
    case 0 => reported := FloydSteinbergDither(image);
    case 1 => reported := JarvisDither(image);
    case 2 => reported := AtkinsonDither(image);
    case 3 => reported := Bayer16x16Dither(image);
    case _ =>
  }

  /** A table of 256 entries computed by `entry` from the index. */
  function Table(entry: int -> byte): (t: seq<byte>)
    ensures |t| == LutSize && forall i :: 0 <= i < LutSize ==> t[i] == entry(i)
  {
    seq(LutSize, i => entry(i))
  }

  /** The gamma table for the option value `gamma`. */
  function GammaTable(gammaOf: (real, int) -> byte, gamma: real): (t: seq<byte>)
    ensures |t| == LutSize && forall i :: 0 <= i < LutSize ==> t[i] == gammaOf(gamma, i)
  {
    Table(i => gammaOf(gamma, i))
  }

  /** The contrast and brightness table for the option values. Each entry starts from
      the gamma-corrected level of its index, so it depends on gamma too, and an image
      byte v becomes `tone[gamma[v]]`: the gamma curve is applied twice. */
  function ToneTable(toneOf: (real, real, real, int) -> byte, gamma: real, contrast: real, brightness: real): (t: seq<byte>)
    ensures |t| == LutSize && forall i :: 0 <= i < LutSize ==> t[i] == toneOf(gamma, contrast, brightness, i)
  {
    Table(i => toneOf(gamma, contrast, brightness, i))
  }

  /** The tables on the stack of `process_image`, filled by `initialize_luts` and applied
      by `process_image_with_luts`: every channel byte of the image goes through both. */
  method AdjustTone(image: ImageData, gammaOf: (real, int) -> byte, toneOf: (real, real, real, int) -> byte, gamma: real, contrast: real, brightness: real)
    requires Sized(image) && image.data != null
    modifies image.data
    ensures image.data[..] ==
      ToneMapped(old(image.data[..]), GammaTable(gammaOf, gamma), ToneTable(toneOf, gamma, contrast, brightness), Components * PixelCount(image.width, image.height))
  {
    var gammaLut := new byte[LutSize];
    var toneLut := new byte[LutSize];
    var status := InitializeLuts(i => gammaOf(gamma, i), i => toneOf(gamma, contrast, brightness, i), gammaLut, toneLut);
    assert gammaLut[..] == GammaTable(gammaOf, gamma);
    assert toneLut[..] == ToneTable(toneOf, gamma, contrast, brightness);
    status := ProcessImageWithLuts(image, gammaLut, toneLut);
  }

  /** The pixels the output file receives: the loaded pixels through both tables, then
      through the selected dither. */
  function Converted(s: seq<byte>, width: int, height: int, ditherMethod: int, gammaLut: seq<byte>, toneLut: seq<byte>): (r: seq<byte>)
    requires Covers(width, height, |s|) && Tables(gammaLut, toneLut)
    ensures |r| == |s|
  {
    DitherOf(ditherMethod, ToneMapped(s, gammaLut, toneLut, Components * PixelCount(width, height)), width, height)
  }

  /** With a selected method every pixel written out is a palette colour, whatever the
      tables did to the image first. */
  lemma ConvertedIsPalette(s: seq<byte>, width: int, height: int, ditherMethod: int, gammaLut: seq<byte>, toneLut: seq<byte>)
    requires Covers(width, height, |s|) && Tables(gammaLut, toneLut) && 0 <= ditherMethod <= 3
    ensures forall k :: 0 <= k < PixelCount(width, height) ==>
      IsPaletteColor(PixelAt(Converted(s, width, height, ditherMethod, gammaLut, toneLut), k))
  {
    SelectedMethodGivesPalette(ditherMethod, ToneMapped(s, gammaLut, toneLut, Components * PixelCount(width, height)), width, height);
  }

  /** The name of the arrays in the output: the output file name up to its last dot. */
  function ArrayName(outfilename: seq<char>): (name: seq<char>)
    ensures |name| < MaxFilenameLength && |name| <= |Text(outfilename)| && name == Text(outfilename)[..|name|]
  {
    Trimmed(Text(outfilename), MaxFilenameLength)
  }

  /** The end of `process_image`: the output file name cut at its last dot into a
      buffer of `MAX_FILENAME_LENGTH` characters names the arrays, and the image is
      written to the output file. */
  method WriteOutput(outfilename: seq<char>, image: ImageData, opens: bool, room: nat) returns (status: int, file: Stream?<char>)
    requires Sized(image) && image.data != null
    ensures status == ExitSuccess || status == ExitFailure
    ensures !opens ==> status == ExitFailure && file == null
    ensures opens ==>
      file != null && fresh(file) && !file.isOpen &&
      Wrote(file.pieces, [], FilePieces(ArrayName(outfilename), image.data[..], image.width, image.height, true), room, status == ExitSuccess)
  {
    var arrayName := new char[MaxFilenameLength](_ => NUL);
    var trimmed := TrimFilenameCopy(Chars(Text(outfilename)), arrayName, MaxFilenameLength);
    TrimmedText(Text(outfilename), MaxFilenameLength, arrayName[|ArrayName(outfilename)| + 1..]);
    status, file := WriteImageDataToFile(Chars(Text(outfilename)), Chars(Text(arrayName[..])), image, opens, room);
  }

  /** The options name an input and an output file and an image was loaded. */
  predicate Ready(opts: ProgramOptions?, loaded: ImageData?)
    reads opts
  {
    opts != null && opts.Valid() && loaded != null
  }

  /** `write_debug_image` on non-null arguments: outside debug mode it writes nothing
      and reports success; in debug mode it reports whether the BMP was written
      (`written`). */
  predicate DebugImageWritten(debugMode: bool, written: bool)
  {
    !debugMode || written
  }

  /** `process_image`. It fails before loading when there are no options or either file
      name is empty, and fails when the image does not load (`loaded` is null); in those
      cases nothing is written. Otherwise the image goes through the tone tables, and
      when the first debug image is written through the selected dither and into the
      output file; the run succeeds when the output file was written whole and the final
      debug image too. `processedOk` and `finalOk` say whether the two BMP writes would
      succeed; they matter only in debug mode. */
  method ProcessImage(opts: ProgramOptions?, loaded: ImageData?, gammaOf: (real, int) -> byte, toneOf: (real, real, real, int) -> byte,
                      processedOk: bool, finalOk: bool, opens: bool, room: nat)
      returns (status: int, file: Stream?<char>)
    requires opts != null ==> opts.Valid()
    requires Sized(loaded) && (loaded != null ==> loaded.data != null)
    modifies Buffer(loaded)
    ensures status == ExitSuccess || status == ExitFailure
    ensures opts == null || opts.infilename[0] == NUL || opts.outfilename[0] == NUL || loaded == null ==>
      status == ExitFailure && file == null && (loaded != null ==> loaded.data[..] == old(loaded.data[..]))
    ensures Ready(opts, loaded) && opts.infilename[0] != NUL && opts.outfilename[0] != NUL ==>
      loaded.data[..] ==
        (var tones := ToneMapped(old(loaded.data[..]), GammaTable(gammaOf, opts.gamma), ToneTable(toneOf, opts.gamma, opts.contrast, opts.brightness),
                                 Components * PixelCount(loaded.width, loaded.height));
         if DebugImageWritten(opts.debugMode, processedOk) then DitherOf(opts.ditherMethod, tones, loaded.width, loaded.height) else tones)
    ensures Ready(opts, loaded) && opts.infilename[0] != NUL && opts.outfilename[0] != NUL && !DebugImageWritten(opts.debugMode, processedOk) ==>
      status == ExitFailure && file == null
    ensures Ready(opts, loaded) && opts.infilename[0] != NUL && opts.outfilename[0] != NUL && DebugImageWritten(opts.debugMode, processedOk) ==>
      var out := FilePieces(ArrayName(opts.outfilename[..]), loaded.data[..], loaded.width, loaded.height, true);
      (file != null <==> opens) &&
      (status == ExitSuccess <==> opens && DebugImageWritten(opts.debugMode, finalOk) && |out| <= room) &&
      (opens ==> fresh(file) && !file.isOpen && Wrote(file.pieces, [], out, room, |out| <= room))
    ensures Ready(opts, loaded) && opts.infilename[0] != NUL && opts.outfilename[0] != NUL && !opts.debugMode ==>
      var out := FilePieces(ArrayName(opts.outfilename[..]), loaded.data[..], loaded.width, loaded.height, true);
      loaded.data[..] ==
        DitherOf(opts.ditherMethod,
                 ToneMapped(old(loaded.data[..]), GammaTable(gammaOf, opts.gamma), ToneTable(toneOf, opts.gamma, opts.contrast, opts.brightness),
                            Components * PixelCount(loaded.width, loaded.height)),
                 loaded.width, loaded.height) &&
      (status == ExitSuccess <==> opens && |out| <= room)
  {
    if opts == null || opts.infilename[0] == NUL || opts.outfilename[0] == NUL || loaded == null {
      return ExitFailure, null;
    }
    AdjustTone(loaded, gammaOf, toneOf, opts.gamma, opts.contrast, opts.brightness);
    if !DebugImageWritten(opts.debugMode, processedOk) {
      return ExitFailure, null;
    }
    ApplyDither(loaded, opts.ditherMethod);
    status, file := WriteOutput(opts.outfilename[..], loaded, opens, room);
    if status == ExitSuccess && !DebugImageWritten(opts.debugMode, finalOk) {
      status := ExitFailure;
    }
  }
}
