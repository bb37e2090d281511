/**
 The conversion thread's run: for every selected file, in order, it logs the
 planned conversion and the encoder command, runs the encoder, and logs
 exactly one outcome; after the last file it signals that it has finished.
 The encoder's behaviour is an input: one `ProcessResult` per file.
 */
module ConverterThread {
  import opened Optional
  import opened EncoderCommand

  /** What running the encoder gives back: the process exits with a code and
      the text it wrote to standard error, or launching or waiting for it
      raises an exception with a message. */
  datatype ProcessResult = Exited(code: int, stderr: string) | Raised(message: string)

  /** What the thread emits: a log line, or the finished signal. */
  datatype Signal = Log(text: string) | Finished

  const ConvertingPrefix: string := "Converting: "
  const ExecutingPrefix: string := "Executing command: "
  const SuccessPrefix: string := "Successfully converted: "
  const ErrorPrefix: string := "Error converting file: "
  const StderrPrefix: string := "stderr: "
  const ExceptionPrefix: string := "Exception during conversion "

  /** `sep.join(words)`. */
  function JoinWords(words: seq<string>, sep: string): string {
    if |words| == 0 then ""
    else if |words| == 1 then words[0]
    else words[0] + sep + JoinWords(words[1..], sep)
  }

  /** Joining one more word adds the separator and that word at the end. */
  lemma {:induction false} JoinWordsAppend(words: seq<string>, w: string, sep: string)
    requires |words| > 0
    ensures JoinWords(words + [w], sep) == JoinWords(words, sep) + sep + w
  {
    if |words| == 1 {
      assert words + [w] == [words[0], w];
      assert [words[0], w][1..] == [w];
    } else {
      assert (words + [w])[1..] == words[1..] + [w];
      JoinWordsAppend(words[1..], w, sep);
      var head := words[0] + sep;
      assert JoinWords(words + [w], sep) == head + (JoinWords(words[1..], sep) + sep + w);
      assert head + (JoinWords(words[1..], sep) + sep + w) == head + JoinWords(words[1..], sep) + sep + w;
    }
  }

  /** The words a passed bitrate adds to the logged command line. */
  function RateWords(bitrate: Option<string>): string {
    if PassesBitrate(bitrate) then "-b:a " + bitrate.value + " " else ""
  }

  /** The command as logged: the arguments separated by single spaces, with
      the rate flag only when a bitrate is passed. */
  lemma CommandLine(src: string, bitrate: Option<string>, out: string)
    ensures JoinWords(BuildCommand(src, bitrate, out), " ")
            == "ffmpeg -i " + src + " -y " + RateWords(bitrate) + out
  {
    var cmd := BuildCommand(src, bitrate, out);
    var head := [Encoder, "-i", src, "-y"];
    assert cmd[..4] == head;
    assert JoinWords(head[2..], " ") == src + " " + "-y" by {
      assert head[2..][1..] == ["-y"];
    }
    assert JoinWords(head[1..], " ") == "-i" + " " + (src + " " + "-y") by {
      assert head[1..][1..] == head[2..];
    }
    assert JoinWords(head, " ") == "ffmpeg" + " " + ("-i" + " " + (src + " " + "-y")) by {
      assert head[1..] == ["-i", src, "-y"];
    }
    assert JoinWords(head, " ") == "ffmpeg -i " + src + " -y";
    if PassesBitrate(bitrate) {
      var r := bitrate.value;
      assert cmd == head + ["-b:a"] + [r] + [out];
      JoinWordsAppend(head, "-b:a", " ");
      JoinWordsAppend(head + ["-b:a"], r, " ");
      JoinWordsAppend(head + ["-b:a"] + [r], out, " ");
      assert "ffmpeg -i " + src + " -y" + " " + "-b:a" + " " + r + " " + out
             == "ffmpeg -i " + src + " -y " + ("-b:a " + r + " ") + out;
    } else {
      assert cmd == head + [out];
      JoinWordsAppend(head, out, " ");
    }
  }

  /** The lines logged after the encoder ran: one success line, an error
      line followed by the captured standard error, or one exception line. */
  function OutcomeSignals(src: string, out: string, result: ProcessResult): seq<Signal> {
    match result
    case Exited(code, err) =>
      if code == 0 then [Log(SuccessPrefix + out)]
      else [Log(ErrorPrefix + src), Log(StderrPrefix + err)]
    case Raised(message) =>
      [Log(ExceptionPrefix + src + ": " + message)]
  }

  /** The lines one file contributes, given its output path and the command
      line as logged. */
  function Block(src: string, out: string, commandLine: string, result: ProcessResult): seq<Signal> {
    [Log(ConvertingPrefix + src + " -> " + out), Log(ExecutingPrefix + commandLine)]
      + OutcomeSignals(src, out, result)
  }

  /** Everything one file contributes to the log: the output path is derived
      from the input and the command is logged space-separated before the
      encoder runs. */
  function FileSignals(src: string, format: string, bitrate: Option<string>, result: ProcessResult): seq<Signal> {
    var out := OutputPath(src, format);
    Block(src, out, JoinWords(BuildCommand(src, bitrate, out), " "), result)
  }

  /** A file's first two lines name the input and its output path, then
      give the encoder command for them as it will be run (`FileSignals`
      passes the derived output path as `out`). */
  lemma HeaderLines(src: string, out: string, bitrate: Option<string>, result: ProcessResult)
    ensures var lines := Block(src, out, JoinWords(BuildCommand(src, bitrate, out), " "), result);
            && |lines| >= 3
            && lines[0] == Log("Converting: " + src + " -> " + out)
            && lines[1] == Log("Executing command: ffmpeg -i " + src + " -y " + RateWords(bitrate) + out)
  {
    CommandLine(src, bitrate, out);
    var line := "ffmpeg -i " + src + " -y " + RateWords(bitrate) + out;
    assert ExecutingPrefix + line == "Executing command: ffmpeg -i " + src + " -y " + RateWords(bitrate) + out;
  }

  /** The per-file step of a run with a fixed format and bitrate. */
  function PerFile(format: string, bitrate: Option<string>): (string, ProcessResult) -> seq<Signal> {
    (src: string, result: ProcessResult) => FileSignals(src, format, bitrate, result)
  }

  /** A batch's log given what each file contributes: the files' blocks one
      after another in input order; `results[i]` is what the encoder did
      with `files[i]`. */
  function Blocks(files: seq<string>, results: seq<ProcessResult>,
                  block: (string, ProcessResult) -> seq<Signal>): seq<Signal>
    requires |results| == |files|
  {
    if files == [] then []
    else block(files[0], results[0]) + Blocks(files[1..], results[1..], block)
  }

  /** The log of a whole run before the finished signal. */
  function ConversionLog(files: seq<string>, format: string, bitrate: Option<string>,
                         results: seq<ProcessResult>): seq<Signal>
    requires |results| == |files|
  {
    Blocks(files, results, PerFile(format, bitrate))
  }

  /** The whole run: the per-file log, then the finished signal. */
  function RunSignals(files: seq<string>, format: string, bitrate: Option<string>,
                      results: seq<ProcessResult>): seq<Signal>
    requires |results| == |files|
  {
    ConversionLog(files, format, bitrate, results) + [Finished]
  }

  /** The run's loop: one iteration per file, in order, then the finished
      signal. */
  method Run(files: seq<string>, format: string, bitrate: Option<string>, results: seq<ProcessResult>)
    returns (signals: seq<Signal>)
    requires |results| == |files|
    ensures signals == RunSignals(files, format, bitrate, results)
  {
    var step := PerFile(format, bitrate);
    signals := [];
    var i := 0;
    while i < |files|
      invariant 0 <= i <= |files|
      invariant signals == Blocks(files[..i], results[..i], step)
    {
      BlocksSnoc(files, results, step, i);
      signals := signals + step(files[i], results[i]);
      i := i + 1;
    }
    assert files[..i] == files && results[..i] == results;
    signals := signals + [Finished];
  }

  /** The log of two batches run one after the other is the first batch's
      log followed by the second's. */
  lemma {:induction false} BlocksSplit(a: seq<string>, b: seq<string>, ra: seq<ProcessResult>, rb: seq<ProcessResult>,
                                       block: (string, ProcessResult) -> seq<Signal>)
    requires |ra| == |a| && |rb| == |b|
    ensures Blocks(a + b, ra + rb, block) == Blocks(a, ra, block) + Blocks(b, rb, block)
  {
    if a == [] {
      assert a + b == b && ra + rb == rb;
    } else {
      assert (a + b)[1..] == a[1..] + b;
      assert (ra + rb)[1..] == ra[1..] + rb;
      BlocksSplit(a[1..], b, ra[1..], rb, block);
      var first := block(a[0], ra[0]);
      var restA := Blocks(a[1..], ra[1..], block);
      var logB := Blocks(b, rb, block);
      assert first + (restA + logB) == (first + restA) + logB;
    }
  }

  /** One more file adds its block at the end. */
  lemma BlocksSnoc(files: seq<string>, results: seq<ProcessResult>,
                   block: (string, ProcessResult) -> seq<Signal>, i: nat)
    requires |results| == |files| && i < |files|
    ensures Blocks(files[..i + 1], results[..i + 1], block)
            == Blocks(files[..i], results[..i], block) + block(files[i], results[i])
  {
    BlocksSplit(files[..i], [files[i]], results[..i], [results[i]], block);
    assert files[..i] + [files[i]] == files[..i + 1];
    assert results[..i] + [results[i]] == results[..i + 1];
    assert Blocks([files[i]], [results[i]], block) == block(files[i], results[i]) + [];
  }

  /** Each file's block sits where the blocks of the files before it end. */
  lemma BlockAtOffset(files: seq<string>, results: seq<ProcessResult>,
                      block: (string, ProcessResult) -> seq<Signal>, i: nat)
    requires |results| == |files| && i < |files|
    ensures var start := |Blocks(files[..i], results[..i], block)|;
            var b := block(files[i], results[i]);
            && start + |b| <= |Blocks(files, results, block)|
            && Blocks(files, results, block)[start..start + |b|] == b
  {
    var before := Blocks(files[..i], results[..i], block);
    var b := block(files[i], results[i]);
    var after := Blocks(files[i + 1..], results[i + 1..], block);
    BlocksSplit(files[..i], files[i..], results[..i], results[i..], block);
    assert files[..i] + files[i..] == files && results[..i] + results[i..] == results;
    assert files[i..][1..] == files[i + 1..] && results[i..][1..] == results[i + 1..];
    assert Blocks(files[i..], results[i..], block) == b + after;
    var all := Blocks(files, results, block);
    assert all == before + (b + after);
    assert all[|before|..|before| + |b|] == b;
  }

  /** Every file's block sits in the run's signals where the blocks of the
      files before it end: files are handled in input order, and a failing
      file does not keep the later ones from being converted and logged. */
  lemma FileBlockInOrder(files: seq<string>, format: string, bitrate: Option<string>,
                         results: seq<ProcessResult>, i: nat)
    requires |results| == |files| && i < |files|
    ensures var start := |ConversionLog(files[..i], format, bitrate, results[..i])|;
            var b := FileSignals(files[i], format, bitrate, results[i]);
            && start + |b| < |RunSignals(files, format, bitrate, results)|
            && RunSignals(files, format, bitrate, results)[start..start + |b|] == b
  {
    var step := PerFile(format, bitrate);
    BlockAtOffset(files, results, step, i);
    var all := Blocks(files, results, step);
    var start := |Blocks(files[..i], results[..i], step)|;
    var b := step(files[i], results[i]);
    assert (all + [Finished])[start..start + |b|] == all[start..start + |b|];
  }

  /** A batch whose every block holds only log lines logs nothing else. */
  lemma {:induction false} BlocksAreLogs(files: seq<string>, results: seq<ProcessResult>,
                                         block: (string, ProcessResult) -> seq<Signal>)
    requires |results| == |files|
    requires forall src, result, k :: 0 <= k < |block(src, result)| ==> block(src, result)[k].Log?
    ensures forall k :: 0 <= k < |Blocks(files, results, block)| ==> Blocks(files, results, block)[k].Log?
  {
    if files != [] {
      BlocksAreLogs(files[1..], results[1..], block);
      var first := block(files[0], results[0]);
      var rest := Blocks(files[1..], results[1..], block);
      var all: seq<Signal> := first + rest;
      forall k | 0 <= k < |all| ensures all[k].Log? {
        if k >= |first| {
          assert all[k] == rest[k - |first|];
        }
      }
    }
  }

  /** The finished signal comes once, last; everything before it is a log
      line. */
  lemma FinishedOnceAtEnd(files: seq<string>, format: string, bitrate: Option<string>,
                          results: seq<ProcessResult>)
    requires |results| == |files|
    ensures var run := RunSignals(files, format, bitrate, results);
            run[|run| - 1] == Finished && forall k :: 0 <= k < |run| - 1 ==> run[k].Log?
  {
    var step := PerFile(format, bitrate);
    forall src, result, k | 0 <= k < |step(src, result)| ensures step(src, result)[k].Log? {
      BlockIsLogs(src, OutputPath(src, format), JoinWords(BuildCommand(src, bitrate, OutputPath(src, format)), " "), result);
    }
    BlocksAreLogs(files, results, step);
    var all := Blocks(files, results, step);
    assert forall k :: 0 <= k < |all| ==> (all + [Finished])[k] == all[k];
  }

  lemma BlockIsLogs(src: string, out: string, commandLine: string, result: ProcessResult)
    ensures forall k :: 0 <= k < |Block(src, out, commandLine, result)| ==> Block(src, out, commandLine, result)[k].Log?
  {
  }

  /** How one file ended, as the log tells it. */
  datatype Outcome = Converted | EncoderFailed | Crashed

  function OutcomeOf(result: ProcessResult): Outcome {
    match result
    case Exited(code, _) => if code == 0 then Converted else EncoderFailed
    case Raised(_) => Crashed
  }

  function OutcomesOf(results: seq<ProcessResult>): (r: seq<Outcome>)
    ensures |r| == |results|
    ensures forall i :: 0 <= i < |results| ==> r[i] == OutcomeOf(results[i])
  {
    if results == [] then [] else [OutcomeOf(results[0])] + OutcomesOf(results[1..])
  }

  /** The signal is a log line starting with `prefix`. */
  predicate IsLine(s: Signal, prefix: string) {
    s.Log? && |prefix| <= |s.text| && s.text[..|prefix|] == prefix
  }

  function Prepend(o: Outcome, rest: Option<seq<Outcome>>): Option<seq<Outcome>> {
    if rest.Some? then Some([o] + rest.value) else None
  }

  /** Reads a run's signals back into the outcome of each file: a block of
      three or four lines per file, recognised by their fixed prefixes, then
      the finished signal and nothing after it. */
  function ParseLog(signals: seq<Signal>): Option<seq<Outcome>>
    decreases |signals|
  {
    if signals == [Finished] then Some([])
    else if |signals| >= 3 && IsLine(signals[0], ConvertingPrefix) && IsLine(signals[1], ExecutingPrefix) then
      if IsLine(signals[2], SuccessPrefix) then
        Prepend(Converted, ParseLog(signals[3..]))
      else if IsLine(signals[2], ErrorPrefix) && |signals| >= 4 && IsLine(signals[3], StderrPrefix) then
        Prepend(EncoderFailed, ParseLog(signals[4..]))
      else if IsLine(signals[2], ExceptionPrefix) then
        Prepend(Crashed, ParseLog(signals[3..]))
      else None
    else None
  }

  /** The block has the shape `ParseLog` reads as outcome `o`. */
  predicate ReadsAs(block: seq<Signal>, o: Outcome) {
    && |block| >= 3 && IsLine(block[0], ConvertingPrefix) && IsLine(block[1], ExecutingPrefix)
    && match o
       case Converted => |block| == 3 && IsLine(block[2], SuccessPrefix)
       case EncoderFailed =>
         && |block| == 4 && !IsLine(block[2], SuccessPrefix)
         && IsLine(block[2], ErrorPrefix) && IsLine(block[3], StderrPrefix)
       case Crashed =>
         && |block| == 3 && !IsLine(block[2], SuccessPrefix)
         && !IsLine(block[2], ErrorPrefix) && IsLine(block[2], ExceptionPrefix)
  }

  lemma StartsWith(prefix: string, rest: string)
    ensures IsLine(Log(prefix + rest), prefix)
  {
    assert (prefix + rest)[..|prefix|] == prefix;
  }

  lemma DiffersAt(prefix: string, rest: string, other: string, k: nat)
    requires k < |prefix| && k < |other| && prefix[k] != other[k]
    ensures !IsLine(Log(prefix + rest), other)
  {
    if |other| <= |prefix + rest| {
      assert (prefix + rest)[..|other|][k] == prefix[k];
    }
  }

  /** Every file's block reads back as the encoder's outcome for it. */
  lemma BlockReads(src: string, out: string, commandLine: string, result: ProcessResult)
    ensures ReadsAs(Block(src, out, commandLine, result), OutcomeOf(result))
  {
    var b := Block(src, out, commandLine, result);
    assert ConvertingPrefix + src + " -> " + out == ConvertingPrefix + (src + " -> " + out);
    StartsWith(ConvertingPrefix, src + " -> " + out);
    StartsWith(ExecutingPrefix, commandLine);
    match result
    case Exited(code, err) =>
      if code == 0 {
        StartsWith(SuccessPrefix, out);
      } else {
        StartsWith(ErrorPrefix, src);
        StartsWith(StderrPrefix, err);
        DiffersAt(ErrorPrefix, src, SuccessPrefix, 0);
      }
    case Raised(message) =>
      var tail := src + ": " + message;
      assert ExceptionPrefix + src + ": " + message == ExceptionPrefix + tail;
      StartsWith(ExceptionPrefix, tail);
      DiffersAt(ExceptionPrefix, tail, SuccessPrefix, 0);
      DiffersAt(ExceptionPrefix, tail, ErrorPrefix, 1);
  }

  /** A block of the right shape is read as its outcome, and reading goes on
      right after it. */
  lemma ParseBlock(block: seq<Signal>, o: Outcome, rest: seq<Signal>)
    requires ReadsAs(block, o)
    ensures ParseLog(block + rest) == Prepend(o, ParseLog(rest))
  {
    var all := block + rest;
    assert all[0] == block[0] && all[1] == block[1] && all[2] == block[2];
    assert all[|block|..] == rest;
    if o == EncoderFailed {
      assert all[3] == block[3];
    }
  }

  /** A batch whose blocks read as their outcomes reads back as the outcomes
      in input order. */
  lemma {:induction false} ParseBlocks(files: seq<string>, results: seq<ProcessResult>,
                                       block: (string, ProcessResult) -> seq<Signal>)
    requires |results| == |files|
    requires forall src, result :: ReadsAs(block(src, result), OutcomeOf(result))
    ensures ParseLog(Blocks(files, results, block) + [Finished]) == Some(OutcomesOf(results))
  {
    if files == [] {
      assert Blocks(files, results, block) + [Finished] == [Finished];
    } else {
      var first := block(files[0], results[0]);
      var rest := Blocks(files[1..], results[1..], block);
      ParseBlocks(files[1..], results[1..], block);
      ParseBlock(first, OutcomeOf(results[0]), rest + [Finished]);
      assert first + rest + [Finished] == first + (rest + [Finished]);
    }
  }

  /** The run's signals determine every file's outcome, in input order: one
      outcome block per file and nothing else before the finished signal. */
  lemma ParseRun(files: seq<string>, format: string, bitrate: Option<string>,
                 results: seq<ProcessResult>)
    requires |results| == |files|
    ensures ParseLog(RunSignals(files, format, bitrate, results)) == Some(OutcomesOf(results))
  {
    var step := PerFile(format, bitrate);
    forall src, result ensures ReadsAs(step(src, result), OutcomeOf(result)) {
      var out := OutputPath(src, format);
      BlockReads(src, out, JoinWords(BuildCommand(src, bitrate, out), " "), result);
    }
    ParseBlocks(files, results, step);
  }
}
