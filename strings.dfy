/** C strings as the converter handles them: a character buffer whose text ends at the
    first NUL, the library calls `strrchr`, `strncpy` and `strcpy`, the output-name
    helper `trim_filename_copy` (written out identically in three files) and the
    checker's `get_base_filename`. */
module CStrings {

  /** The terminator `'\0'`. */
  const NUL: char := '\0'

  /** A `const char*` argument: a null pointer, or the text before its terminator. */
  datatype CStr = Null | Chars(text: seq<char>)

  /** A text that can stand before a terminator: it holds no NUL itself. */
  predicate Plain(s: seq<char>)
  {
    NUL !in s
  }

  /** The C string a buffer holds: the characters before its first NUL (all of them
      when there is none). */
  function Text(buf: seq<char>): (t: seq<char>)
    ensures Plain(t) && |t| <= |buf|
  {
    if |buf| == 0 || buf[0] == NUL then [] else [buf[0]] + Text(buf[1..])
  }

  /** The C string is the start of its buffer, and a NUL ends it unless it fills the
      whole buffer. */
  lemma {:induction false} TextIsPrefix(buf: seq<char>)
    ensures Text(buf) == buf[..|Text(buf)|]
    ensures |Text(buf)| < |buf| ==> buf[|Text(buf)|] == NUL
    ensures NUL in buf ==> |Text(buf)| < |buf|
  {
    if |buf| > 0 && buf[0] != NUL {
      TextIsPrefix(buf[1..]);
      assert NUL in buf ==> NUL in buf[1..];
    }
  }

  /** A text followed by its terminator reads back as that text, whatever follows. */
  lemma {:induction false} TerminatedText(t: seq<char>, rest: seq<char>)
    requires Plain(t)
    ensures Text(t + [NUL] + rest) == t
  {
    if t != [] {
      assert (t + [NUL] + rest)[1..] == t[1..] + [NUL] + rest;
      TerminatedText(t[1..], rest);
    }
  }

  /** `strrchr(s, ch)` as an index: the last position of `ch`, or -1 when it does not
      occur. */
  function LastIndexOf(s: seq<char>, ch: char): (i: int)
    ensures -1 <= i < |s|
    ensures 0 <= i ==> s[i] == ch
    ensures forall j :: i < j < |s| ==> s[j] != ch
  {
    if |s| == 0 then -1
    else if s[|s| - 1] == ch then |s| - 1
    else LastIndexOf(s[..|s| - 1], ch)
  }

  /** Past the last occurrence of a character the text is free of it. */
  lemma NoneAfter(s: seq<char>, ch: char, i: int)
    requires -1 <= i < |s|
    requires forall j :: i < j < |s| ==> s[j] != ch
    ensures ch !in s[i + 1..]
  {}

  /** The first n characters `strncpy(dest, src, n)` stores: the text, cut at n or
      padded with NULs up to n. */
  function Padded(src: seq<char>, n: nat): (r: seq<char>)
    ensures |r| == n
    ensures forall k :: 0 <= k < n ==> r[k] == if k < |src| then src[k] else NUL
  {
    if n <= |src| then src[..n] else src + seq(n - |src|, _ => NUL)
  }

  /** What `strncpy` leaves readable: with room for the whole text it is the text; cut
      short, it is the first n characters provided a NUL follows them. */
  lemma PaddedText(src: seq<char>, n: nat, rest: seq<char>)
    requires Plain(src)
    ensures |src| < n ==> Text(Padded(src, n) + rest) == src
    ensures n <= |src| ==> Text(Padded(src, n) + [NUL] + rest) == src[..n]
  {
    if |src| < n {
      assert Padded(src, n) + rest == src + [NUL] + (seq(n - |src| - 1, _ => NUL) + rest);
      TerminatedText(src, seq(n - |src| - 1, _ => NUL) + rest);
    } else {
      TerminatedText(src[..n], rest);
    }
  }

  /** `strncpy(dest, src, n)`: the first n characters of `dest` become the padded text
      and the rest of the buffer is kept. */
  method StrNCopy(dest: array<char>, src: seq<char>, n: int)
    requires Plain(src) && 0 <= n <= dest.Length
    modifies dest
    ensures dest[..] == Padded(src, n) + old(dest[n..])
  {
    ghost var rest := dest[n..];
    var i := 0;
    while i < n
      invariant 0 <= i <= n
      invariant forall j :: 0 <= j < i ==> dest[j] == Padded(src, n)[j]
      invariant dest[n..] == rest
    {
      dest[i] := if i < |src| then src[i] else NUL;
      i := i + 1;
    }
    assert dest[..] == dest[..n] + dest[n..];
  }

  /** `strcpy(dest, src)`: the text and its terminator. */
  method StrCopy(dest: array<char>, src: seq<char>)
    requires Plain(src) && |src| < dest.Length
    modifies dest
    ensures dest[..] == src + [NUL] + old(dest[|src| + 1..])
  {
    StrNCopy(dest, src, |src| + 1);
    assert Padded(src, |src| + 1) == src + [NUL];
  }

  // ---------------------------------------------------------------------------
  // trim_filename_copy

  /** The name `trim_filename_copy` makes of a filename for a buffer of `size`
      characters: the text before its last '.' (the whole name when it has no '.', or
      only a leading one), cut to the `size - 1` characters that fit before the
      terminator. */
  function Trimmed(name: seq<char>, size: int): (t: seq<char>)
    requires 1 <= size
    ensures |t| < size && |t| <= |name| && t == name[..|t|]
  {
    var dot := LastIndexOf(name, '.');
    var keep := if dot <= 0 then |name| else dot;
    name[..if keep < size then keep else size - 1]
  }

  /** When the stem fits, the trimmed name is exactly what precedes the last
      extension: putting the extension back gives the filename, and the extension is
      one '.' followed by text without a '.'. */
  lemma TrimmedStem(name: seq<char>, size: int)
    requires 1 <= size
    requires 0 < LastIndexOf(name, '.') < size
    ensures Trimmed(name, size) + name[LastIndexOf(name, '.')..] == name
    ensures name[LastIndexOf(name, '.')] == '.' && '.' !in name[LastIndexOf(name, '.') + 1..]
  {
    var dot := LastIndexOf(name, '.');
    assert name[..dot] + name[dot..] == name;
    NoneAfter(name, '.', dot);
  }

  /** A name without an extension to strip (no '.', or only a leading one) is kept
      whole when it fits, and so an empty name stays empty. */
  lemma TrimmedKeepsPlainName(name: seq<char>, size: int)
    requires 1 <= size && |name| < size
    requires LastIndexOf(name, '.') <= 0
    ensures Trimmed(name, size) == name
  {}

  /** `trim_filename_copy(filename, dest, dest_size)`: a null filename, a null buffer or
      a zero size give NULL and leave the buffer alone; otherwise the buffer starts with
      the trimmed name and its terminator, every later character is kept, and the
      buffer itself is returned. */
  method TrimFilenameCopy(filename: CStr, dest: array?<char>, destSize: int) returns (result: array?<char>)
    requires filename.Chars? ==> Plain(filename.text)
    requires dest != null ==> 0 <= destSize <= dest.Length
    modifies if dest != null then {dest} else {}
    ensures result == null <==> filename.Null? || dest == null || destSize == 0
    ensures result == null && dest != null ==> dest[..] == old(dest[..])
    ensures result != null ==>
      result == dest &&
      dest[..] == Trimmed(filename.text, destSize) + [NUL] + old(dest[|Trimmed(filename.text, destSize)| + 1..])
  {
    if filename.Null? || dest == null || destSize == 0 {
      return null;
    }
    var name := filename.text;
    ghost var t := Trimmed(name, destSize);
    ghost var rest := dest[|t| + 1..];
    dest[0] := NUL;
    ghost var mid := dest[..];
    assert mid[|t| + 1..] == rest;
    result := dest;
    if |name| == 0 {
      assert dest[..] == t + [NUL] + rest;
      return;
    }
    var dot := LastIndexOf(name, '.');
    if dot < 0 || dot == 0 {
      var length := |name|;
      if length >= destSize {
        CutToFit(dest, name, destSize);
        assert t == name[..destSize - 1];
      } else {
        StrCopy(dest, name);
        assert t == name;
      }
    } else {
      var length := dot;
      if length >= destSize {
        CutToFit(dest, name, destSize);
        assert t == name[..destSize - 1];
      } else {
        CopyStem(dest, name, length);
        assert t == name[..length];
      }
    }
    assert dest[..] == t + [NUL] + mid[|t| + 1..];
  }

  /** A name too long for the buffer: `strncpy` of its first `destSize - 1` characters
      and a NUL in the last place. */
  method CutToFit(dest: array<char>, name: seq<char>, destSize: int)
    requires Plain(name) && 1 <= destSize <= |name| + 1 && destSize <= dest.Length
    modifies dest
    ensures dest[..] == name[..destSize - 1] + [NUL] + old(dest[destSize..])
  {
    ghost var before := dest[..];
    StrNCopy(dest, name, destSize - 1);
    dest[destSize - 1] := NUL;
    CutCopy(name, destSize - 1, before, dest[..]);
  }

  /** The text before the last dot: `strncpy` of its `length` characters and a NUL
      after them. */
  method CopyStem(dest: array<char>, name: seq<char>, length: int)
    requires Plain(name) && 0 <= length <= |name| && length < dest.Length
    modifies dest
    ensures dest[..] == name[..length] + [NUL] + old(dest[length + 1..])
  {
    ghost var before := dest[..];
    StrNCopy(dest, name, length);
    dest[length] := NUL;
    CutCopy(name, length, before, dest[..]);
  }

  /** `strncpy(dest, src, n)` of a text at least n long, then a NUL at position n: the
      first n characters of the text and a terminator. */
  lemma CutCopy(src: seq<char>, n: int, before: seq<char>, after: seq<char>)
    requires 0 <= n <= |src| && n < |before|
    requires after == (Padded(src, n) + before[n..])[n := NUL]
    ensures after == src[..n] + [NUL] + before[n + 1..]
  {}

  /** Read back as a C string, the buffer `trim_filename_copy` fills holds the trimmed
      name. */
  lemma TrimmedText(name: seq<char>, size: int, rest: seq<char>)
    requires Plain(name) && 1 <= size
    ensures Text(Trimmed(name, size) + [NUL] + rest) == Trimmed(name, size)
  {
    TerminatedText(Trimmed(name, size), rest);
  }

  // ---------------------------------------------------------------------------
  // get_base_filename

  /** The part of a path after its last '/' (the whole path when there is none). */
  function FileOf(path: seq<char>): (f: seq<char>)
    ensures |f| <= |path| && path[|path| - |f|..] == f
  {
    path[LastIndexOf(path, '/') + 1..]
  }

  /** The file part holds no '/'. */
  lemma FileOfHasNoSlash(path: seq<char>)
    ensures '/' !in FileOf(path)
  {
    NoneAfter(path, '/', LastIndexOf(path, '/'));
  }

  /** The name `get_base_filename` returns: the file part of the path without its last
      extension. */
  function BaseFilename(path: seq<char>): (b: seq<char>)
    ensures '/' !in b
    ensures |b| <= |FileOf(path)| && FileOf(path)[..|b|] == b
  {
    var f := FileOf(path);
    var dot := LastIndexOf(f, '.');
    FileOfHasNoSlash(path);
    if dot < 0 then f else PrefixFree(f, dot, '/'); f[..dot]
  }

  /** The directory part of a path: everything up to and including its last '/'. */
  function DirectoryOf(path: seq<char>): seq<char>
  {
    path[..|path| - |FileOf(path)|]
  }

  /** The last extension of the file part of a path: from its last '.' on, or nothing
      when it has no '.'. */
  function ExtensionOf(path: seq<char>): seq<char>
  {
    var f := FileOf(path);
    var dot := LastIndexOf(f, '.');
    if dot < 0 then [] else f[dot..]
  }

  /** A path is its directory part, its base name and its last extension, in that
      order. */
  lemma BaseFilenameSplits(path: seq<char>)
    ensures path == DirectoryOf(path) + BaseFilename(path) + ExtensionOf(path)
  {
    DirectoryThenFile(path);
    StemThenExtension(path);
  }

  /** A path is its directory part followed by its file part. */
  lemma DirectoryThenFile(path: seq<char>)
    ensures path == DirectoryOf(path) + FileOf(path)
  {
    var f := FileOf(path);
    assert path == path[..|path| - |f|] + path[|path| - |f|..];
  }

  /** The file part is the base name followed by the last extension. */
  lemma StemThenExtension(path: seq<char>)
    ensures FileOf(path) == BaseFilename(path) + ExtensionOf(path)
  {
    var f := FileOf(path);
    var dot := LastIndexOf(f, '.');
    if dot >= 0 {
      assert f == f[..dot] + f[dot..];
    }
  }

  /** Neither the base name nor the extension that is cut off holds a '/', and the
      extension is empty or one '.' followed by text without '.'. */
  lemma ExtensionShape(path: seq<char>)
    ensures '/' !in BaseFilename(path) && '/' !in ExtensionOf(path)
    ensures ExtensionOf(path) == [] || (ExtensionOf(path)[0] == '.' && '.' !in ExtensionOf(path)[1..])
  {
    var f := FileOf(path);
    FileOfHasNoSlash(path);
    var dot := LastIndexOf(f, '.');
    if dot >= 0 {
      var e := f[dot..];
      assert ExtensionOf(path) == e;
      SliceFree(f, dot, '/');
      PrefixFree(f, dot, '/');
      NoneAfter(f, '.', dot);
      assert e[1..] == f[dot + 1..];
    }
  }

  /** A prefix of a text without `ch` has no `ch` either. */
  lemma PrefixFree(f: seq<char>, i: int, ch: char)
    requires ch !in f && 0 <= i <= |f|
    ensures ch !in f[..i]
  {}

  /** A slice of a text without `ch` has no `ch` either. */
  lemma SliceFree(f: seq<char>, i: int, ch: char)
    requires ch !in f && 0 <= i <= |f|
    ensures ch !in f[i..]
  {}

  /** `get_base_filename(path)`: the text after the last '/' is cut at its last '.' by
      writing a NUL over that '.' in the caller's own string, and a copy of what is
      left of the file part is returned. */
  method GetBaseFilename(path: array<char>) returns (copy: seq<char>)
    requires NUL in path[..]
    modifies path
    ensures copy == BaseFilename(Text(old(path[..])))
    ensures path[..] == if CutPosition(Text(old(path[..]))) < 0 then old(path[..]) else old(path[..])[CutPosition(Text(old(path[..]))) := NUL]
  {
    var buf := path[..];
    var t := Text(buf);
    var start := LastIndexOf(t, '/') + 1;
    var dot := LastIndexOf(t[start..], '.');
    var end := if dot < 0 then |t| else start + dot;
    BaseCut(buf, start, dot, end);
    if dot >= 0 {
      path[end] := NUL;
    } else {
      assert buf[end := NUL] == buf;
    }
    var after := path[..];
    assert after == buf[end := NUL];
    copy := Text(after[start..]);
  }

  /** The two `strrchr` results on the C string of a buffer: the NUL goes inside the
      buffer, over the terminator when there is no dot, and reading from just after the
      last '/' then gives the base name. */
  lemma BaseCut(buf: seq<char>, start: int, dot: int, end: int)
    requires NUL in buf
    requires start == LastIndexOf(Text(buf), '/') + 1
    requires dot == LastIndexOf(Text(buf)[start..], '.')
    requires end == if dot < 0 then |Text(buf)| else start + dot
    ensures end < |buf| && (dot < 0 ==> buf[end] == NUL)
    ensures CutPosition(Text(buf)) == if dot < 0 then -1 else end
    ensures Text(buf[end := NUL][start..]) == BaseFilename(Text(buf))
  {
    var t := Text(buf);
    TextIsPrefix(buf);
    BaseCutBounds(t, start, dot, end);
    CutText(buf, start, end);
    BaseFilenameParts(t, start, dot);
    if dot < 0 {
      WholeSlice(t, start);
    }
  }

  /** A slice up to the end is the suffix. */
  lemma WholeSlice(t: seq<char>, start: int)
    requires 0 <= start <= |t|
    ensures t[start..|t|] == t[start..]
  {}

  /** Where the two `strrchr` results put the cut within the C string. */
  lemma BaseCutBounds(t: seq<char>, start: int, dot: int, end: int)
    requires start == LastIndexOf(t, '/') + 1
    requires dot == LastIndexOf(t[start..], '.')
    requires end == if dot < 0 then |t| else start + dot
    ensures 0 <= start <= end <= |t| && (dot >= 0 ==> end < |t|)
    ensures CutPosition(t) == if dot < 0 then -1 else end
  {}

  /** Where `get_base_filename` writes its NUL into a path: the last '.' after the last
      '/', or -1 when there is none. */
  function CutPosition(t: seq<char>): (i: int)
    ensures -1 <= i < |t|
  {
    var start := LastIndexOf(t, '/') + 1;
    var dot := LastIndexOf(t[start..], '.');
    if dot < 0 then -1 else start + dot
  }

  /** The NUL goes over a '.' with no '/' after it. */
  lemma CutPositionShape(t: seq<char>)
    ensures var i := CutPosition(t); 0 <= i ==> t[i] == '.' && '/' !in t[i..]
  {
    var start := LastIndexOf(t, '/') + 1;
    var dot := LastIndexOf(t[start..], '.');
    NoneAfter(t, '/', start - 1);
    if dot >= 0 {
      assert t[start + dot..] == t[start..][dot..];
      SliceFree(t[start..], dot, '/');
    }
  }

  /** The base name in terms of the two `strrchr` results. */
  lemma BaseFilenameParts(t: seq<char>, start: int, dot: int)
    requires start == LastIndexOf(t, '/') + 1
    requires dot == LastIndexOf(t[start..], '.')
    ensures 0 <= start <= |t| && dot < |t| - start
    ensures BaseFilename(t) == if dot < 0 then t[start..] else t[start..start + dot]
  {
    var f := FileOf(t);
    assert f == t[start..];
    if dot >= 0 {
      SuffixPrefix(t, start, dot);
    }
  }

  /** The first n characters of a suffix. */
  lemma SuffixPrefix(t: seq<char>, start: int, n: int)
    requires 0 <= start && 0 <= n && start + n <= |t|
    ensures t[start..][..n] == t[start..start + n]
  {}

  /** Reading a buffer's C string from `start` after a NUL has been put at `end` (at or
      before the old terminator) gives the characters between the two. */
  lemma CutText(buf: seq<char>, start: int, end: int)
    requires NUL in buf
    requires 0 <= start <= end <= |Text(buf)|
    ensures end < |buf|
    ensures Text(buf[end := NUL][start..]) == Text(buf)[start..end]
  {
    var t := Text(buf);
    TextIsPrefix(buf);
    var head := buf[start..end];
    PrefixSlice(buf, t, start, end);
    assert Plain(head) by {
      forall i | 0 <= i < |head| ensures head[i] != NUL {
        assert head[i] == t[start + i];
      }
    }
    CutSplits(buf, start, end);
    TerminatedText(head, buf[end + 1..]);
  }

  /** A slice of a prefix of a buffer is that slice of the buffer. */
  lemma PrefixSlice(buf: seq<char>, t: seq<char>, start: int, end: int)
    requires |t| <= |buf| && t == buf[..|t|] && 0 <= start <= end <= |t|
    ensures t[start..end] == buf[start..end]
  {}

  /** Writing a NUL at `end` and reading from `start` gives the characters between,
      the NUL and the rest of the buffer. */
  lemma CutSplits(buf: seq<char>, start: int, end: int)
    requires 0 <= start <= end < |buf|
    ensures buf[end := NUL][start..] == buf[start..end] + [NUL] + buf[end + 1..]
  {}
}
