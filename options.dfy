/** The command-line options: the `ProgramOptions` record with its three 1024-character
    name buffers, `init_program_options`, and the `parse_command_line_args` loop over
    `argv`. The three converters parse alike and differ only in whether a copied name is
    forced to end in a terminator, which a `Dialect` names. `atoi` and `atof` are given
    to the model as functions of the argument text. */
module Options {
  import opened Bytes
  import opened CStrings

  /** `MAX_FILENAME_LENGTH`. */
  const MaxFilenameLength: int := 1024

  /** The most characters a name option copies: `MAX_FILENAME_LENGTH - 1`. */
  const NameLimit: int := MaxFilenameLength - 1

  /** How one converter's parser treats a copied name. */
  datatype Dialect = Dialect(terminates: bool)

  /** The current converter: the last byte of a copied name is set to NUL. */
  const Current := Dialect(true)

  /** The split converter and the monolithic one, whose parsers are the same text
      (`DEBUG_BUILD` is defined in the monolithic file, so its `-debug` branch is
      compiled): `strncpy` alone. */
  const Older := Dialect(false)

  /** The values of a `ProgramOptions` record. */
  datatype Settings = Settings(
    infilename: seq<char>, outfilename: seq<char>, debugFilename: seq<char>,
    ditherMethod: int, gamma: real, contrast: real, brightness: real,
    debugMode: bool, headerOutput: bool, binOutput: bool)

  /** Each name buffer holds `MAX_FILENAME_LENGTH` characters. */
  predicate Buffers(s: Settings)
  {
    |s.infilename| == MaxFilenameLength && |s.outfilename| == MaxFilenameLength &&
    |s.debugFilename| == MaxFilenameLength
  }

  /** A name buffer after `memset` to zero. */
  function Zeroed(): seq<char>
  {
    seq(MaxFilenameLength, _ => NUL)
  }

  /** The record `init_program_options` leaves: every byte zero, then dither method -1,
      gamma 1, contrast 0 and brightness 1. */
  function Defaults(): (s: Settings)
    ensures Buffers(s)
    ensures forall k :: 0 <= k < MaxFilenameLength ==>
      s.infilename[k] == NUL && s.outfilename[k] == NUL && s.debugFilename[k] == NUL
  {
    Settings(Zeroed(), Zeroed(), Zeroed(), -1, 1.0, 0.0, 1.0, false, false, false)
  }

  /** What an argument is to the parser: one of the options that take the next
      argument, or anything else (`-h` and unknown text included). */
  datatype Flag = Input | Output | Method | Debug | Gamma | Contrast | Brightness | Other

  /** The `strcmp` chain: the option an argument names. */
  function FlagOf(arg: seq<char>): (f: Flag)
    ensures f != Other <==> arg in {"-i", "-o", "-dm", "-debug", "-g", "-c", "-b"}
    ensures f != Other ==> 2 <= |arg| && arg[0] == '-'
  {
    if arg == "-i" then Input
    else if arg == "-o" then Output
    else if arg == "-dm" then Method
    else if arg == "-debug" then Debug
    else if arg == "-g" then Gamma
    else if arg == "-c" then Contrast
    else if arg == "-b" then Brightness
    else Other
  }

  /** A name buffer after `strncpy(buf, arg, MAX_FILENAME_LENGTH - 1)`, followed in the
      current converter by setting the last byte to NUL. */
  function CopyName(buf: seq<char>, arg: seq<char>, d: Dialect): (r: seq<char>)
    requires |buf| == MaxFilenameLength
    ensures |r| == MaxFilenameLength
    ensures forall k :: 0 <= k < NameLimit ==> r[k] == if k < |arg| then arg[k] else NUL
  {
    Padded(arg, NameLimit) + (if d.terminates then [NUL] else buf[NameLimit..])
  }

  /** The record after one option and its argument. */
  function Apply(flag: Flag, arg: seq<char>, s: Settings, d: Dialect, atoi: seq<char> -> int, atof: seq<char> -> real): (r: Settings)
    requires Buffers(s)
    ensures Buffers(r)
    ensures flag == Other ==> r == s
    ensures r.headerOutput == s.headerOutput && r.binOutput == s.binOutput
    ensures flag != Debug ==> r.debugMode == s.debugMode && r.debugFilename == s.debugFilename
    ensures flag == Debug ==> r.debugMode
  {
    match flag
    case Input => s.(infilename := CopyName(s.infilename, arg, d))
    case Output => s.(outfilename := CopyName(s.outfilename, arg, d))
    case Method => s.(ditherMethod := atoi(arg))
    case Debug => s.(debugMode := true, debugFilename := CopyName(s.debugFilename, arg, d))
    case Gamma => s.(gamma := atof(arg))
    case Contrast => s.(contrast := atof(arg))
    case Brightness => s.(brightness := atof(arg))
    case Other => s
  }

  /** What `parse_command_line_args` returns and the record it leaves. */
  datatype Outcome = Outcome(status: int, settings: Settings)

  /** The parse from argument i on: past the last argument it succeeds; an option that
      takes a value, with one following, is applied and both are consumed; an option
      whose value is missing, `-h`, or anything else fails, with the record as the
      options before it left it. */
  function Parse(argv: seq<seq<char>>, i: nat, s: Settings, d: Dialect, atoi: seq<char> -> int, atof: seq<char> -> real): (r: Outcome)
    requires Buffers(s)
    ensures Buffers(r.settings)
    ensures r.status == ExitSuccess || r.status == ExitFailure
    decreases |argv| - i
  {
    if |argv| <= i then Outcome(ExitSuccess, s)
    else if FlagOf(argv[i]) != Other && i + 1 < |argv| then
      Parse(argv, i + 2, Apply(FlagOf(argv[i]), argv[i + 1], s, d, atoi, atof), d, atoi, atof)
    else Outcome(ExitFailure, s)
  }

  /** The `ProgramOptions` record a caller owns. */
  class ProgramOptions {
    const infilename: array<char>
    const outfilename: array<char>
    const debugFilename: array<char>
    var ditherMethod: int
    var gamma: real
    var contrast: real
    var brightness: real
    var debugMode: bool
    var headerOutput: bool
    var binOutput: bool

    /** The three buffers are distinct and of the declared size. */
    predicate Valid()
      reads this
    {
      infilename.Length == MaxFilenameLength && outfilename.Length == MaxFilenameLength &&
      debugFilename.Length == MaxFilenameLength &&
      infilename != outfilename && infilename != debugFilename && outfilename != debugFilename
    }

    /** The values the record holds. */
    function Snapshot(): Settings
      reads this, infilename, outfilename, debugFilename
    {
      Settings(infilename[..], outfilename[..], debugFilename[..], ditherMethod, gamma, contrast,
               brightness, debugMode, headerOutput, binOutput)
    }

    /** A record as it is before initialisation: whatever the storage held. */
    constructor (junk: Settings)
      requires Buffers(junk)
      ensures Valid() && Snapshot() == junk
      ensures fresh(infilename) && fresh(outfilename) && fresh(debugFilename)
    {
      infilename := new char[MaxFilenameLength](i requires 0 <= i < MaxFilenameLength => junk.infilename[i]);
      outfilename := new char[MaxFilenameLength](i requires 0 <= i < MaxFilenameLength => junk.outfilename[i]);
      debugFilename := new char[MaxFilenameLength](i requires 0 <= i < MaxFilenameLength => junk.debugFilename[i]);
      ditherMethod, gamma, contrast, brightness := junk.ditherMethod, junk.gamma, junk.contrast, junk.brightness;
      debugMode, headerOutput, binOutput := junk.debugMode, junk.headerOutput, junk.binOutput;
      new;
      assert infilename[..] == junk.infilename;
      assert outfilename[..] == junk.outfilename;
      assert debugFilename[..] == junk.debugFilename;
    }
  }

  /** `init_program_options`: nothing for a null record; otherwise every byte zero,
      then the defaults. */
  method InitProgramOptions(opts: ProgramOptions?)
    requires opts != null ==> opts.Valid()
    modifies if opts != null then {opts, opts.infilename, opts.outfilename, opts.debugFilename} else {}
    ensures opts != null ==> opts.Valid() && opts.Snapshot() == Defaults()
  {
    if opts == null {
      return;
    }
    Zero(opts.infilename);
    Zero(opts.outfilename);
    Zero(opts.debugFilename);
    opts.ditherMethod, opts.gamma, opts.contrast, opts.brightness := -1, 1.0, 0.0, 1.0;
    opts.debugMode, opts.headerOutput, opts.binOutput := false, false, false;
    opts.debugFilename[0] := NUL;
  }

  /** The `memset` of one buffer. */
  method Zero(buf: array<char>)
    requires buf.Length == MaxFilenameLength
    modifies buf
    ensures buf[..] == Zeroed()
  {
    var i := 0;
    while i < buf.Length
      invariant 0 <= i <= buf.Length
      invariant forall j :: 0 <= j < i ==> buf[j] == NUL
    {
      buf[i] := NUL;
      i := i + 1;
    }
  }

  /** `parse_command_line_args`: a null record fails at once; otherwise the options are
      read from argument 1 on, the status and the record ending exactly as the parse
      specification says. */
  method ParseCommandLineArgs(argv: seq<seq<char>>, opts: ProgramOptions?, d: Dialect, atoi: seq<char> -> int, atof: seq<char> -> real)
      returns (status: int)
    requires forall k :: 0 <= k < |argv| ==> Plain(argv[k])
    requires opts != null ==> opts.Valid()
    modifies if opts != null then {opts, opts.infilename, opts.outfilename, opts.debugFilename} else {}
    ensures opts == null ==> status == ExitFailure
    ensures opts != null ==> opts.Valid()
    ensures opts != null ==> Outcome(status, opts.Snapshot()) == Parse(argv, 1, old(opts.Snapshot()), d, atoi, atof)
  {
    if opts == null {
      return ExitFailure;
    }
    ghost var goal := Parse(argv, 1, opts.Snapshot(), d, atoi, atof);
    var i := 1;
    while i < |argv|
      invariant 1 <= i && opts.Valid()
      invariant Parse(argv, i, opts.Snapshot(), d, atoi, atof) == goal
      decreases |argv| - i
    {
      var flag := FlagOf(argv[i]);
      if flag != Other && i + 1 < |argv| {
        ApplyFlag(opts, flag, argv[i + 1], d, atoi, atof);
        i := i + 2;
      } else {
        return ExitFailure;
      }
    }
    status := ExitSuccess;
  }

  /** The branch of the loop for one option that takes a value. */
  method ApplyFlag(opts: ProgramOptions, flag: Flag, arg: seq<char>, d: Dialect, atoi: seq<char> -> int, atof: seq<char> -> real)
    requires opts.Valid() && flag != Other && Plain(arg)
    modifies opts, opts.infilename, opts.outfilename, opts.debugFilename
    ensures opts.Valid()
    ensures opts.Snapshot() == Apply(flag, arg, old(opts.Snapshot()), d, atoi, atof)
  {
    match flag
    case Input => CopyInto(opts.infilename, arg, d);
    case Output => CopyInto(opts.outfilename, arg, d);
    case Method => opts.ditherMethod := atoi(arg);
    case Debug =>
      opts.debugMode := true;
      CopyInto(opts.debugFilename, arg, d);
    case Gamma => opts.gamma := atof(arg);
    case Contrast => opts.contrast := atof(arg);
    case Brightness => opts.brightness := atof(arg);
  }

  /** The copy of a name into its buffer. */
  method CopyInto(buf: array<char>, arg: seq<char>, d: Dialect)
    requires buf.Length == MaxFilenameLength && Plain(arg)
    modifies buf
    ensures buf[..] == CopyName(old(buf[..]), arg, d)
  {
    StrNCopy(buf, arg, NameLimit);
    if d.terminates {
      buf[NameLimit] := NUL;
    }
  }

  // ---------------------------------------------------------------------------
  // Properties of the parse.

  /** A parse that gets through a list of arguments ends exactly at its last one, so
      more arguments after it carry on from the record it left. */
  lemma {:induction false} ParseConcat(a: seq<seq<char>>, b: seq<seq<char>>, i: nat, s: Settings, d: Dialect, atoi: seq<char> -> int, atof: seq<char> -> real)
    requires Buffers(s) && i <= |a|
    requires Parse(a, i, s, d, atoi, atof).status == ExitSuccess
    ensures Parse(a + b, i, s, d, atoi, atof) == Parse(a + b, |a|, Parse(a, i, s, d, atoi, atof).settings, d, atoi, atof)
    decreases |a| - i
  {
    if i < |a| {
      assert (a + b)[i] == a[i] && (a + b)[i + 1] == a[i + 1];
      ParseConcat(a, b, i + 2, Apply(FlagOf(a[i]), a[i + 1], s, d, atoi, atof), d, atoi, atof);
    }
  }

  /** A name read back from its buffer: a name shorter than the limit is read back
      whole; a longer one is cut to the limit when the last byte is NUL, which the
      current converter forces and the others inherit from the zeroed record. */
  lemma CopiedNameText(buf: seq<char>, arg: seq<char>, d: Dialect)
    requires |buf| == MaxFilenameLength && Plain(arg)
    ensures |arg| < NameLimit ==> Text(CopyName(buf, arg, d)) == arg
    ensures NameLimit <= |arg| && (d.terminates || buf[NameLimit] == NUL) ==> Text(CopyName(buf, arg, d)) == arg[..NameLimit]
    ensures CopyName(buf, arg, d)[NameLimit] == if d.terminates then NUL else buf[NameLimit]
  {
    var tail := if d.terminates then [NUL] else buf[NameLimit..];
    PaddedText(arg, NameLimit, tail);
    if NameLimit <= |arg| && (d.terminates || buf[NameLimit] == NUL) {
      assert tail == [NUL];
      PaddedText(arg, NameLimit, []);
      assert Padded(arg, NameLimit) + tail == Padded(arg, NameLimit) + [NUL] + [];
    }
  }

  /** The last byte of every name buffer ends a parse as NUL when it started so. */
  predicate Terminated(s: Settings)
    requires Buffers(s)
  {
    s.infilename[NameLimit] == NUL && s.outfilename[NameLimit] == NUL && s.debugFilename[NameLimit] == NUL
  }

  lemma {:induction false} ParseKeepsTerminators(argv: seq<seq<char>>, i: nat, s: Settings, d: Dialect, atoi: seq<char> -> int, atof: seq<char> -> real)
    requires Buffers(s) && Terminated(s)
    ensures Terminated(Parse(argv, i, s, d, atoi, atof).settings)
    decreases |argv| - i
  {
    if i < |argv| && FlagOf(argv[i]) != Other && i + 1 < |argv| {
      var t := Apply(FlagOf(argv[i]), argv[i + 1], s, d, atoi, atof);
      assert Terminated(t) by {
        CopiedNameText(s.infilename, [], d);
        CopiedNameText(s.outfilename, [], d);
        CopiedNameText(s.debugFilename, [], d);
      }
      ParseKeepsTerminators(argv, i + 2, t, d, atoi, atof);
    }
  }

  /** The defaults are terminated, so after any parse that starts from them every name
      reads back as its argument, cut to 1023 characters, in all three converters. */
  lemma DefaultsTerminated()
    ensures Terminated(Defaults())
    ensures Text(Defaults().infilename) == [] && Text(Defaults().outfilename) == [] && Text(Defaults().debugFilename) == []
  {
    assert Defaults().infilename[0] == NUL;
  }

  /** A repeated option overwrites what the earlier one set. */
  lemma RepeatedFlagOverwrites(flag: Flag, x: seq<char>, y: seq<char>, s: Settings, d: Dialect, atoi: seq<char> -> int, atof: seq<char> -> real)
    requires Buffers(s)
    ensures Apply(flag, y, Apply(flag, x, s, d, atoi, atof), d, atoi, atof) == Apply(flag, y, s, d, atoi, atof)
  {
    match flag
    case Input => CopyTwice(s.infilename, x, y, d);
    case Output => CopyTwice(s.outfilename, x, y, d);
    case Debug => CopyTwice(s.debugFilename, x, y, d);
    case _ =>
  }

  lemma CopyTwice(buf: seq<char>, x: seq<char>, y: seq<char>, d: Dialect)
    requires |buf| == MaxFilenameLength
    ensures CopyName(CopyName(buf, x, d), y, d) == CopyName(buf, y, d)
  {
    var once := CopyName(buf, x, d);
    assert once[NameLimit..] == if d.terminates then [NUL] else buf[NameLimit..];
  }

  /** Different options set different fields, so their order does not matter. */
  lemma DistinctFlagsCommute(f: Flag, x: seq<char>, g: Flag, y: seq<char>, s: Settings, d: Dialect, atoi: seq<char> -> int, atof: seq<char> -> real)
    requires Buffers(s) && f != g
    ensures Apply(g, y, Apply(f, x, s, d, atoi, atof), d, atoi, atof) == Apply(f, x, Apply(g, y, s, d, atoi, atof), d, atoi, atof)
  {
  }

  /** Where the parse fails: an option that takes a value, as the last argument; `-h`;
      and any other argument. The record then is as the options before it left it. */
  lemma ParseFailures(argv: seq<seq<char>>, i: nat, s: Settings, d: Dialect, atoi: seq<char> -> int, atof: seq<char> -> real)
    requires Buffers(s) && i < |argv|
    ensures FlagOf(argv[i]) != Other && i + 1 == |argv| ==> Parse(argv, i, s, d, atoi, atof) == Outcome(ExitFailure, s)
    ensures argv[i] == "-h" ==> Parse(argv, i, s, d, atoi, atof) == Outcome(ExitFailure, s)
    ensures Parse(argv, i, s, d, atoi, atof).status == ExitSuccess ==> FlagOf(argv[i]) != Other && i + 1 < |argv|
  {
    if argv[i] == "-h" {
      assert FlagOf(argv[i]) == Other by {
        assert argv[i][1] == 'h';
      }
    }
  }

  /** `-debug` followed by a name is accepted by all three converters: it switches the
      debug mode on and copies the name, and the parse goes on after the name. */
  lemma DebugOptionAccepted(argv: seq<seq<char>>, i: nat, s: Settings, d: Dialect, atoi: seq<char> -> int, atof: seq<char> -> real)
    requires Buffers(s) && i + 1 < |argv| && argv[i] == "-debug"
    ensures Parse(argv, i, s, d, atoi, atof) ==
      Parse(argv, i + 2, s.(debugMode := true, debugFilename := CopyName(s.debugFilename, argv[i + 1], d)), d, atoi, atof)
  {
  }

  /** `-debug x` alone, from the defaults, succeeds in every converter with the debug
      mode on and the debug name reading back as `x`. */
  lemma DebugOptionExample(d: Dialect, atoi: seq<char> -> int, atof: seq<char> -> real)
    ensures var r := Parse(["r3g3b2", "-debug", "x"], 1, Defaults(), d, atoi, atof);
      r.status == ExitSuccess && r.settings.debugMode && Text(r.settings.debugFilename) == "x"
  {
    var argv: seq<seq<char>> := ["r3g3b2", "-debug", "x"];
    DebugOptionAccepted(argv, 1, Defaults(), d, atoi, atof);
    var t := Defaults().(debugMode := true, debugFilename := CopyName(Defaults().debugFilename, "x", d));
    assert Parse(argv, 3, t, d, atoi, atof) == Outcome(ExitSuccess, t);
    DefaultsTerminated();
    CopiedNameText(Defaults().debugFilename, "x", d);
  }
}
