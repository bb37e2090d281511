# audioconv in Dafny

audioconv is a small desktop audio converter. The user picks files, a
target format and a bitrate, then clicks Convert. A background thread then
runs `ffmpeg` once per file, in order. Each converted copy goes next to its
input as `c_<name>.<format>`. A log shows what happens to every file.
This project models that core and proves properties about it:

- `PosixPath` (`posix_path.dfy`): Python's `os.path.dirname`,
  `basename`, `splitext` and `join` as `posixpath` computes them on
  `/`-separated strings. This covers trailing-slash stripping, the rule that a leading
  dot does not start an extension, and an absolute second argument to
  `join`.
- `EncoderCommand` (`encoder_command.dfy`): the output path derived from
  the input path, and the encoder's argument list. The list is
  `ffmpeg -i <src> -y [-b:a <rate>] <out>`. The rate is passed only when a
  bitrate is present, non-empty and not `N/A`.
- `BitratePresets` (`bitrate_presets.dfy`): the preset table, and the
  bitrate selector it fills when a format is chosen. The lossless formats
  show a disabled `N/A`. The module also gives the bitrate a conversion
  starts with.
- `ConverterThread` (`converter_thread.dfy`): the thread's run as the
  sequence of signals it emits. For each file it emits three or four log
  lines; after the last file it emits the finished signal. A decoder reads
  that log back into one outcome per file.
- `MainWindow` (`main_window.dfy`): the window as a state machine. User
  actions and the thread's signals are events handled one at a time. Its
  invariant ties the bitrate selector to the format, the buttons to
  whether a thread runs, and a running job to the selection.
- `Optional` (`option.dfy`): Python's `None` or a value.

The encoder is not run: what it does with each file is an input
(`ConverterThread.ProcessResult`). The process either exits with a code and
its standard error, or launching it raises an exception with a message.
The path functions follow `posixpath`'s own algorithm on `/`-separated
strings: the last slash is found and trailing slashes are stripped. This
differs from the POSIX `dirname` and `basename` utilities, so for example
`a/` has an empty base name.

`ConverterThread.run` converts the files one after another. Whatever each
file's outcome, it goes on to the next file, and it always ends by emitting
`finished_signal`.

## Model

| member | source | states |
|---|---|---|
| PosixPath.LastIndexOf | main.py:23-24 | the result is the position of the last occurrence of the character, or -1 when it does not occur |
| PosixPath.TrimmedLength | main.py:23 | what it cuts off is trailing slashes only, and what it keeps does not end in a slash |
| PosixPath.BasenameSpec | main.py:24 | the base name is the suffix of the path after its last slash and contains no slash |
| PosixPath.DirnameSpec | main.py:23 | the directory is a prefix of the path; it is empty exactly when the path has no slash; only slashes lie between it and the base name; it ends in a slash only when it is all slashes |
| PosixPath.SplitExtSpec | main.py:25 | root and extension concatenate to the path; the extension is non-empty exactly when the base name has a dot after some non-dot character; a non-empty extension is a dot followed by text without dots or slashes |
| PosixPath.JoinSplits | main.py:26 | joining a directory and a slash-free name gives back that directory and that name |
| PosixPath.SplitJoins | main.py:23-26 | joining a path's directory and base name rebuilds the path when at most one separator lies between them |
| PosixPath.SplitExtAppend | main.py:25 | appending a dot and a dot-free suffix to a name with a non-dot character makes exactly that suffix the extension |
| EncoderCommand.OutputPathInSourceDirectory | main.py:23-26 | the output path has the input's directory and the base name `c_<stem>.<format>` |
| EncoderCommand.OutputStem | main.py:25 | the stem of the output is `c_` followed by the input's stem |
| EncoderCommand.OutputNameDiffersFromInput | main.py:23-33 | the output path and its base name always differ from the input's, so the overwrite flag never targets the input |
| EncoderCommand.OutputPathInDirectory | main.py:23-26 | `/music/a.wav` to mp3 gives `/music/c_a.mp3` |
| EncoderCommand.OutputPathOfDoubleExtension | main.py:25 | `song.tar.gz` to ogg gives `c_song.tar.ogg`: only the last extension is replaced |
| EncoderCommand.OutputPathOfHiddenFile | main.py:25 | `.bashrc` to wav gives `c_.bashrc.wav`: a leading dot is not an extension |
| EncoderCommand.BuildCommand | main.py:30-33 | the list has 7 elements when the bitrate passes the check and 5 otherwise; it starts with the encoder, `-i`, the input and `-y`, ends with the output, and carries `-b:a` and the rate in between when one is passed |
| EncoderCommand.ParseBuild | main.py:30-33 | reading the built list back gives the input, the passed bitrate (none when it fails the check) and the output |
| EncoderCommand.BuildParse | main.py:30-33 | every list the reader accepts is exactly the one built for what it reads |
| BitratePresets.UpdateBitrateOptions | main.py:108-116 | the selector offers exactly the format's presets and is enabled, or shows only a disabled `N/A` when there are none; the first item is current |
| BitratePresets.SelectBitrate | main.py:124 | picking a valid item of an enabled selector makes it the current text; the items and the enabled state never change |
| BitratePresets.PresetsArePlainRates | main.py:53-59 | no preset is empty or `N/A` |
| BitratePresets.ChosenBitrateFollowsPresets | main.py:124 | a conversion gets no bitrate exactly when the format has no presets, otherwise one of its presets, and the command passes a rate exactly when the format has presets |
| BitratePresets.NoPresetsMeansLosslessOrUnknown | main.py:53-59 | a format has no presets exactly when it is flac, wav or missing from the table |
| BitratePresets.NoPresetsNoRateFlag | main.py:31 | for a format without presets the command is the five-element list whatever the selector shows |
| ConverterThread.JoinWordsAppend | main.py:35 | joining one more word appends the separator and that word |
| ConverterThread.CommandLine | main.py:30-35 | the logged command is `ffmpeg -i <src> -y `, then `-b:a <rate> ` when a rate is passed, then the output path |
| ConverterThread.HeaderLines | main.py:28-35 | a file's first two log lines are `Converting: <src> -> <out>` and `Executing command: ` followed by that command |
| ConverterThread.Run | main.py:21-45 | the loop emits every file's block in input order, then the finished signal |
| ConverterThread.BlocksSplit | main.py:22 | the log of two batches in a row is the first batch's log followed by the second's |
| ConverterThread.BlocksSnoc | main.py:22 | one more file appends its block to the log |
| ConverterThread.BlockAtOffset | main.py:22-44 | each file's block sits right where the blocks of the files before it end |
| ConverterThread.FileBlockInOrder | main.py:22-45 | in a run, each file's block sits where the earlier files' blocks end, so a failing file does not stop or displace later ones |
| ConverterThread.BlocksAreLogs | main.py:28-44 | a batch whose blocks hold only log lines emits only log lines |
| ConverterThread.FinishedOnceAtEnd | main.py:45 | the finished signal is emitted once, as the last signal |
| ConverterThread.OutcomesOf | main.py:38-44 | one outcome per result, in order: exit code 0 is a conversion, another code an encoder failure, an exception a crash |
| ConverterThread.BlockReads | main.py:28-44 | each file's block has the shape that is read back as its encoder outcome |
| ConverterThread.ParseBlock | main.py:36-44 | a block of the right shape reads as its outcome, and reading resumes right after it |
| ConverterThread.ParseBlocks | main.py:22-45 | a batch of well-shaped blocks followed by the finished signal reads back as the outcomes in input order |
| ConverterThread.ParseRun | main.py:21-45 | a run's signals read back as exactly the per-file outcomes in input order |
| MainWindow.InitInv | main.py:49-99 | a new window satisfies the invariant, shows mp3, and starts with bitrate 128k |
| MainWindow.StepPreservesInv | main.py:101-132 | every user action keeps the invariant |
| MainWindow.StartWithoutFiles | main.py:118-121 | Convert with nothing selected only appends the no-files message; no thread starts and the buttons stay enabled |
| MainWindow.StartWithFiles | main.py:118-132 | Convert with files starts a thread on the selection, the current format and the bitrate selector's current item (none when it is disabled), so a bitrate is passed exactly when the format has presets; both buttons become disabled, and the selection and the selectors are unchanged |
| MainWindow.PickedBitrateReachesThread | main.py:123-129 | the bitrate the user picks in an enabled selector just before Convert is exactly the one the thread gets |
| MainWindow.ReceivePreservesInv | main.py:134-140 | handling a log line or the finished signal keeps the window invariant |
| MainWindow.RunningIgnoresInput | main.py:126-127 | while a thread runs, no user action changes the job, the selection or the log, and Convert and file picking do nothing |
| MainWindow.RunCompletes | main.py:134-140 | however user input interleaves with the signals, handling the finished signal leaves the log extended by the lines in order plus the completion message, with the window idle and both buttons enabled |
| MainWindow.ConversionCompletes | main.py:129-140 | a started conversion ends with the log extended by the thread's lines for every file in input order and the completion message |
| MainWindow.LosslessRunsWithoutBitrate | main.py:124 | converting to flac or wav starts the thread without a bitrate, and every command is the five-element list |

## Left out

- Launching `ffmpeg` (`subprocess.run`): each file's result is an input
  (`ProcessResult`), and `str(e)` of an exception is its message.
- Qt widgets and plumbing: the window title, the layout, and the file list
  widget, which only shows the selection. The file dialog becomes the list
  it returns; the log text box becomes a sequence of lines.
- Threads: the conversion thread's signals are delivered to the window as
  events in the order they were emitted, between user events. The model
  does not cover real parallel execution.
- Windows path rules (`ntpath`): only `/` separates path components.
- Text encoding: strings are sequences of characters, with no encoding or
  normalisation.
- ConverterThread.JoinWords: no inverse is stated. A logged command line
  cannot be split back into its arguments when a path contains a space.
