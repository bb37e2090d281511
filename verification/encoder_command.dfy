/**
 The two pure steps `ConverterThread.run` takes for every file before it
 launches the encoder: deriving the output path from the input path and
 building the encoder's argument list.
 */
module EncoderCommand {
  import opened Optional
  import opened PosixPath

  /** The encoder program, invoked by name. */
  const Encoder: string := "ffmpeg"

  /** Prefix of every converted file's name. */
  const OutputPrefix: string := "c_"

  /** The text the bitrate selector shows when a format has no presets. */
  const NoBitrate: string := "N/A"

  /** Name of the converted copy: the prefix, the input's name without its
      last extension, a dot and the target format. */
  function OutputName(src: string, format: string): string {
    OutputPrefix + Stem(Basename(src)) + "." + format
  }

  /** The converted copy lives in the input's directory. */
  function OutputPath(src: string, format: string): string {
    Join(Dirname(src), OutputName(src, format))
  }

  /** The output path is in the same directory as the input and carries the
      name `c_<stem>.<format>`, where `<stem>` is the input's file name with
      at most its last extension removed (`SplitExtSpec`). */
  lemma OutputPathInSourceDirectory(src: string, format: string)
    requires Lacks(format, '/')
    ensures Dirname(OutputPath(src, format)) == Dirname(src)
    ensures Basename(OutputPath(src, format)) == "c_" + Stem(Basename(src)) + "." + format
  {
    var stem := Stem(Basename(src));
    var name := OutputName(src, format);
    StemLacksSlash(src);
    forall k | 0 <= k < |name| ensures name[k] != '/' {
      if 2 <= k < 2 + |stem| {
        assert name[k] == stem[k - 2];
      } else if k > 2 + |stem| {
        assert name[k] == format[k - 3 - |stem|];
      }
    }
    DirnameSpec(src);
    JoinSplits(Dirname(src), name);
  }

  /** A file in a directory keeps its directory; only the last extension is
      replaced. */
  lemma OutputPathInDirectory()
    ensures OutputPath("/music/a.wav", "mp3") == "/music/c_a.mp3"
  {
    var p := "/music/a.wav";
    assert p[6] == '/' && p[0] == '/';
    assert LastIndexOf(p, '/') == 6;
    var head := p[..7];
    assert head == "/music/";
    assert !OnlySlashes(head) by { assert head[1] == 'm'; }
    assert TrimmedLength(head, 7) == 6 by { assert head[5] == 'c'; assert head[6] == '/'; }
    assert Dirname(p) == "/music";
    var base := p[7..];
    assert base == "a.wav";
    assert Basename(p) == base;
    assert base[1] == '.';
    assert LastIndexOf(base, '/') == -1;
    assert LastIndexOf(base, '.') == 1;
    assert !DotsBetween(base, 0, 1) by { assert base[0] == 'a'; }
    assert Stem(base) == "a";
  }

  /** A bare file name stays bare, and of two extensions only the last is
      replaced. */
  lemma OutputPathOfDoubleExtension()
    ensures OutputPath("song.tar.gz", "ogg") == "c_song.tar.ogg"
  {
    var p := "song.tar.gz";
    assert Lacks(p, '/');
    assert LastIndexOf(p, '/') == -1;
    assert Dirname(p) == "";
    assert Basename(p) == p;
    assert p[8] == '.' && p[9] == 'g' && p[10] == 'z';
    assert LastIndexOf(p, '.') == 8;
    assert !DotsBetween(p, 0, 8) by { assert p[0] == 's'; }
    assert SplitExt(p) == (p[..8], p[8..]);
    assert p[..8] == "song.tar";
    assert Stem(p) == "song.tar";
  }

  /** A leading dot does not start an extension, so a hidden file keeps its
      whole name. */
  lemma OutputPathOfHiddenFile()
    ensures OutputPath(".bashrc", "wav") == "c_.bashrc.wav"
  {
    var p := ".bashrc";
    assert p == ['.', 'b', 'a', 's', 'h', 'r', 'c'];
    assert Lacks(p, '/');
    assert LastIndexOf(p, '/') == -1;
    assert Dirname(p) == "";
    assert Basename(p) == p;
    assert LastIndexOf(p, '.') == 0 by { assert p[0] == '.'; }
    assert Stem(p) == p;
  }

  /** The stem of a file name never contains a slash. */
  lemma StemLacksSlash(src: string)
    ensures Lacks(Stem(Basename(src)), '/')
  {
    var base := Basename(src);
    var stem := Stem(base);
    BasenameSpec(src);
    SplitExtConcat(base);
    forall k | 0 <= k < |stem| ensures stem[k] != '/' {
      assert stem[k] == (stem + SplitExt(base).1)[k];
    }
  }

  /** Converting a converted file again strips exactly the extension the
      first conversion added: the stem of `c_<stem>.<format>` is
      `c_<stem>`. */
  lemma OutputStem(src: string, format: string)
    requires Lacks(format, '.') && Lacks(format, '/')
    ensures Stem(Basename(OutputPath(src, format))) == "c_" + Stem(Basename(src))
  {
    OutputPathInSourceDirectory(src, format);
    var stem := Stem(Basename(src));
    var n := "c_" + stem;
    StemLacksSlash(src);
    forall k | 0 <= k < |n| ensures n[k] != '/' {
      if k >= 2 {
        assert n[k] == stem[k - 2];
      }
    }
    assert n[0] == 'c';
    SplitExtAppend(n, format);
  }

  /** The output never has the input's file name, so the encoder, which is
      told to overwrite (`-y`), never writes over the file it reads. */
  lemma OutputNameDiffersFromInput(src: string, format: string)
    requires Lacks(format, '/')
    ensures Basename(OutputPath(src, format)) != Basename(src)
    ensures OutputPath(src, format) != src
  {
    OutputPathInSourceDirectory(src, format);
    var stem := Stem(Basename(src));
    var ext := SplitExt(Basename(src)).1;
    SplitExtSpec(Basename(src));
    PrefixedStemDiffers(stem, format, ext);
  }

  /** If `c_<stem>.<format>` were `<stem><ext>`, the character at position
      `|stem|` would be the dot that starts `ext`; but then `stem` would
      repeat `c_` forever and hold no dot at all. */
  lemma PrefixedStemDiffers(stem: string, format: string, ext: string)
    requires ext == [] || ext[0] == '.'
    ensures "c_" + stem + "." + format != stem + ext
  {
    var o := "c_" + stem + "." + format;
    if o == stem + ext {
      assert |ext| == |format| + 3;
      assert o[|stem|] == ext[0] == '.';
      assert o[..|stem| + 2] == "c_" + stem;
      assert o[..|stem|] == stem;
      PeriodicPrefix(stem, o, |stem|);
    }
  }

  /** Every character of `c_` + `stem` up to position `i` is not a dot when
      `stem` is a prefix of `c_` + `stem`. */
  lemma {:induction false} PeriodicPrefix(stem: string, o: string, i: nat)
    requires |o| >= |stem| + 2 && o[..|stem| + 2] == "c_" + stem
    requires o[..|stem|] == stem
    requires i <= |stem| + 1
    ensures o[i] != '.'
  {
    if i < 2 {
      assert o[i] == "c_"[i];
    } else {
      PeriodicPrefix(stem, o, i - 2);
      assert o[i] == ("c_" + stem)[i] == stem[i - 2];
      assert stem[i - 2] == o[i - 2];
    }
  }

  /** Python truthiness of the chosen bitrate together with the sentinel
      check: a bitrate is passed only when present, non-empty and not
      `N/A`. */
  predicate PassesBitrate(bitrate: Option<string>) {
    bitrate.Some? && bitrate.value != "" && bitrate.value != NoBitrate
  }

  /** The encoder's argument list for one file. */
  function BuildCommand(src: string, bitrate: Option<string>, out: string): (cmd: seq<string>)
    ensures |cmd| == (if PassesBitrate(bitrate) then 7 else 5)
    ensures cmd[..4] == [Encoder, "-i", src, "-y"]
    ensures cmd[|cmd| - 1] == out
    ensures PassesBitrate(bitrate) ==> cmd[4..6] == ["-b:a", bitrate.value]
  {
    var head := [Encoder, "-i", src, "-y"];
    var rate := if PassesBitrate(bitrate) then ["-b:a", bitrate.value] else [];
    head + rate + [out]
  }

  /** What an argument list asks the encoder to do. */
  datatype Invocation = Invocation(src: string, bitrate: Option<string>, out: string)

  /** Reads an argument list of the shape `BuildCommand` produces back into
      the invocation it stands for; any other list is rejected. */
  function ParseCommand(cmd: seq<string>): Option<Invocation> {
    if |cmd| < 5 || cmd[0] != Encoder || cmd[1] != "-i" || cmd[3] != "-y" then None
    else if |cmd| == 5 then Some(Invocation(cmd[2], None, cmd[4]))
    else if |cmd| == 7 && cmd[4] == "-b:a" && PassesBitrate(Some(cmd[5])) then
      Some(Invocation(cmd[2], Some(cmd[5]), cmd[6]))
    else None
  }

  /** The bitrate an argument list actually carries: the chosen one when it
      passes the check, otherwise none. */
  function EffectiveRate(bitrate: Option<string>): Option<string> {
    if PassesBitrate(bitrate) then bitrate else None
  }

  /** `ParseCommand` undoes `BuildCommand`: the argument list determines the
      input, the passed bitrate and the output. */
  lemma ParseBuild(src: string, bitrate: Option<string>, out: string)
    ensures ParseCommand(BuildCommand(src, bitrate, out)) == Some(Invocation(src, EffectiveRate(bitrate), out))
  {
    var cmd := BuildCommand(src, bitrate, out);
    assert cmd[0] == Encoder && cmd[1] == "-i" && cmd[2] == src && cmd[3] == "-y";
  }

  /** Conversely every list `ParseCommand` accepts is the one `BuildCommand`
      makes for the invocation it reads. */
  lemma BuildParse(cmd: seq<string>)
    requires ParseCommand(cmd).Some?
    ensures BuildCommand(ParseCommand(cmd).value.src, ParseCommand(cmd).value.bitrate, ParseCommand(cmd).value.out) == cmd
  {
    var inv := ParseCommand(cmd).value;
    var built := BuildCommand(inv.src, inv.bitrate, inv.out);
    assert |built| == |cmd|;
    assert built[..4] == cmd[..4];
    forall k | 0 <= k < |cmd| ensures built[k] == cmd[k] {
      if k < 4 {
        assert built[k] == built[..4][k];
      }
    }
  }
}
