/**
 The main window as a state machine: the file selection, the format and
 bitrate selectors, the two buttons, the log, and whether a conversion
 thread is running. User input and the thread's signals are events that
 the window handles one at a time, as Qt's event loop does.
 */
module MainWindow {
  import opened Optional
  import opened EncoderCommand
  import opened BitratePresets
  import opened ConverterThread

  const NoFilesMessage: string := "No files selected for conversion!"
  const CompletedMessage: string := "Conversion completed!"

  /** What a started conversion thread was given. */
  datatype Job = Job(files: seq<string>, format: string, bitrate: Option<string>)

  /** Whether a conversion thread is running, and with which job. */
  datatype Phase = Idle | Running(job: Job)

  /** The window's state; `formatIndex` is the format selector's current
      item in `Formats`. */
  datatype Window = Window(
    selected: seq<string>,
    formatIndex: nat,
    bitrates: BitrateCombo,
    convertEnabled: bool,
    selectEnabled: bool,
    log: seq<string>,
    phase: Phase)
  {
    /** The format selector's current text. */
    function Format(): string {
      if formatIndex < |Formats| then Formats[formatIndex] else ""
    }
  }

  /** What the user can do: pick files in the dialog (an empty list when the
      dialog is cancelled), choose a format or a bitrate by position, or
      click Convert. */
  datatype UserAction = PickFiles(files: seq<string>) | ChooseFormat(index: nat)
                      | ChooseBitrate(index: nat) | ClickConvert

  /** A constructed window: nothing selected, the first format current and
      the bitrate selector filled for it, both buttons enabled, empty log. */
  function Init(): Window {
    Window([], 0, UpdateBitrateOptions(Formats[0]), true, true, [], Idle)
  }

  /** A running job was started from a valid window: it has files, and it
      carries a bitrate exactly when its format has presets, that bitrate
      being one of them. */
  predicate JobWellFormed(job: Job) {
    && job.files != []
    && (job.bitrate == None <==> PresetsFor(job.format) == [])
    && (job.bitrate.Some? ==> job.bitrate.value in PresetsFor(job.format))
  }

  /** What holds of every reachable window (`InitInv`, `StepPreservesInv`,
      `ReceivePreservesInv`): a format is current and the bitrate selector
      shows its presets; both buttons are enabled exactly when no thread is
      running; a running job is well formed and is the current selection. */
  predicate Inv(w: Window) {
    && w.formatIndex < |Formats|
    && ShowsPresetsOf(w.bitrates, w.Format())
    && w.convertEnabled == w.phase.Idle?
    && w.selectEnabled == w.phase.Idle?
    && (w.phase.Running? ==> JobWellFormed(w.phase.job) && w.selected == w.phase.job.files)
  }

  /** The dialog's result replaces the selection unless it is empty. */
  function SelectFiles(w: Window, files: seq<string>): Window {
    if files != [] then w.(selected := files) else w
  }

  /** Choosing a format refills the bitrate selector only when the format
      selector's text changes. */
  function ChangeFormat(w: Window, index: nat): Window {
    if index < |Formats| then
      if Formats[index] != w.Format() then
        w.(formatIndex := index, bitrates := UpdateBitrateOptions(Formats[index]))
      else w.(formatIndex := index)
    else w
  }

  /** Convert: with no files only a message is logged; otherwise both
      buttons are disabled and a thread starts on the selection, the
      current format and the chosen bitrate. */
  function StartConversion(w: Window): Window {
    if w.selected == [] then w.(log := w.log + [NoFilesMessage])
    else w.(convertEnabled := false, selectEnabled := false,
            phase := Running(Job(w.selected, w.Format(), ChosenBitrate(w.bitrates))))
  }

  /** One user action; a disabled button delivers no click. */
  function Step(w: Window, a: UserAction): Window {
    match a
    case PickFiles(files) => if w.selectEnabled then SelectFiles(w, files) else w
    case ChooseFormat(i) => ChangeFormat(w, i)
    case ChooseBitrate(i) => w.(bitrates := SelectBitrate(w.bitrates, i))
    case ClickConvert => if w.convertEnabled then StartConversion(w) else w
  }

  /** The slots the thread's signals are connected to. */
  function Receive(w: Window, s: Signal): Window {
    match s
    case Log(text) => w.(log := w.log + [text])
    case Finished =>
      w.(log := w.log + [CompletedMessage], convertEnabled := true, selectEnabled := true, phase := Idle)
  }

  /** An event the window handles: user input or a signal from the thread. */
  datatype Event = Input(action: UserAction) | Emitted(signal: Signal)

  function Apply(w: Window, e: Event): Window {
    match e
    case Input(a) => Step(w, a)
    case Emitted(s) => Receive(w, s)
  }

  function ApplyAll(w: Window, events: seq<Event>): Window
    decreases |events|
  {
    if events == [] then w else ApplyAll(Apply(w, events[0]), events[1..])
  }

  /** The thread's signals among the events, in order. */
  function SignalsOf(events: seq<Event>): seq<Signal> {
    if events == [] then []
    else if events[0].Emitted? then [events[0].signal] + SignalsOf(events[1..])
    else SignalsOf(events[1..])
  }

  /** The texts of the log lines among the signals, in order. */
  function Texts(signals: seq<Signal>): seq<string> {
    if signals == [] then []
    else if signals[0].Log? then [signals[0].text] + Texts(signals[1..])
    else Texts(signals[1..])
  }

  /** A constructed window satisfies the invariant, shows `mp3` and offers
      its presets with the first one current. */
  lemma InitInv()
    ensures Inv(Init())
    ensures Init().Format() == "mp3" && Init().bitrates.items == PresetsFor("mp3")
    ensures ChosenBitrate(Init().bitrates) == Some("128k")
  {
  }

  /** Every user action keeps the invariant. */
  lemma StepPreservesInv(w: Window, a: UserAction)
    requires Inv(w)
    ensures Inv(Step(w, a))
  {
    match a
    case ChooseBitrate(i) =>
      SelectKeepsPresets(w.bitrates, w.Format(), i);
    case ClickConvert =>
      if w.convertEnabled && w.selected != [] {
        ChosenBitrateFollowsPresets(w.bitrates, w.Format());
      }
    case _ =>
  }

  /** Convert with nothing selected logs one message and changes nothing
      else: no thread starts and both buttons stay enabled. */
  lemma StartWithoutFiles(w: Window)
    requires Inv(w) && w.phase.Idle? && w.selected == []
    ensures var r := Step(w, ClickConvert);
            && r.log == w.log + [NoFilesMessage]
            && r.phase == Idle && r.convertEnabled && r.selectEnabled
            && r.selected == w.selected && r.formatIndex == w.formatIndex && r.bitrates == w.bitrates
  {
  }

  /** Convert with files selected starts a thread on exactly the selection,
      the current format and the bitrate selector's current item (none when
      the selector is disabled), so a bitrate is passed exactly when the
      format has presets; both buttons become disabled, nothing is logged
      yet and the selection and both selectors stay as they were. */
  lemma StartWithFiles(w: Window)
    requires Inv(w) && w.phase.Idle? && w.selected != []
    ensures var r := Step(w, ClickConvert);
            && r.phase.Running?
            && r.phase.job.files == w.selected && r.phase.job.format == w.Format()
            && r.phase.job.bitrate
               == (if w.bitrates.enabled then Some(w.bitrates.items[w.bitrates.current]) else None)
            && r.selected == w.selected && r.formatIndex == w.formatIndex && r.bitrates == w.bitrates
            && (r.phase.job.bitrate == None <==> PresetsFor(w.Format()) == [])
            && (r.phase.job.bitrate.Some? ==> r.phase.job.bitrate.value in PresetsFor(w.Format()))
            && (PassesBitrate(r.phase.job.bitrate) <==> PresetsFor(w.Format()) != [])
            && !r.convertEnabled && !r.selectEnabled && r.log == w.log
  {
    ChosenBitrateFollowsPresets(w.bitrates, w.Format());
  }

  /** The bitrate the user picks last before clicking Convert is the one the
      thread is started with. */
  lemma PickedBitrateReachesThread(w: Window, i: nat)
    requires Inv(w) && w.phase.Idle? && w.selected != []
    requires w.bitrates.enabled && i < |w.bitrates.items|
    ensures var r := Step(Step(w, ChooseBitrate(i)), ClickConvert);
            r.phase.Running? && r.phase.job.bitrate == Some(w.bitrates.items[i])
  {
    StepPreservesInv(w, ChooseBitrate(i));
    StartWithFiles(Step(w, ChooseBitrate(i)));
  }

  /** Handling a signal from the thread keeps the invariant. */
  lemma ReceivePreservesInv(w: Window, s: Signal)
    requires Inv(w)
    ensures Inv(Receive(w, s))
  {
  }

  /** While a thread runs, no user action starts another one, changes the
      selection, the running job or the log. */
  lemma RunningIgnoresInput(w: Window, a: UserAction)
    requires Inv(w) && w.phase.Running?
    ensures Step(w, a).phase == w.phase && Step(w, a).log == w.log
    ensures Step(w, a).selected == w.selected
    ensures a.ClickConvert? || a.PickFiles? ==> Step(w, a) == w
  {
  }

  /** Whatever the user does while the thread runs, once its last signal,
      the finished signal, has been handled the log holds what it held
      before, then the thread's lines in order, then the completion
      message; the window is idle again with both buttons enabled. */
  lemma {:induction false} RunCompletes(w: Window, events: seq<Event>, lines: seq<Signal>)
    requires Inv(w) && w.phase.Running?
    requires forall k :: 0 <= k < |lines| ==> lines[k].Log?
    requires SignalsOf(events) == lines + [Finished]
    requires |events| > 0 && events[|events| - 1] == Emitted(Finished)
    ensures var r := ApplyAll(w, events);
            && r.log == w.log + Texts(lines) + [CompletedMessage]
            && r.phase == Idle && r.convertEnabled && r.selectEnabled && Inv(r)
    decreases |events|
  {
    var e := events[0];
    var rest := events[1..];
    var next := Apply(w, e);
    assert events[|events| - 1] == Emitted(Finished);
    match e
    case Input(a) =>
      StepPreservesInv(w, a);
      RunningIgnoresInput(w, a);
      assert SignalsOf(events) == SignalsOf(rest);
      assert |rest| > 0 && rest[|rest| - 1] == events[|events| - 1];
      RunCompletes(next, rest, lines);
    case Emitted(s) =>
      var all := lines + [Finished];
      assert SignalsOf(events) == [s] + SignalsOf(rest);
      assert s == ([s] + SignalsOf(rest))[0] == all[0];
      assert SignalsOf(rest) == ([s] + SignalsOf(rest))[1..] == all[1..];
      if lines == [] {
        assert s == Finished;
        assert SignalsOf(rest) == [];
        if rest != [] {
          EmittedIsSignal(rest, |rest| - 1);
        }
        assert events == [e];
      } else {
        assert all[0] == lines[0] && all[1..] == lines[1..] + [Finished];
        assert |rest| > 0 && rest[|rest| - 1] == events[|events| - 1];
        RunCompletes(next, rest, lines[1..]);
        assert Texts(lines) == [s.text] + Texts(lines[1..]);
        assert w.log + [s.text] + Texts(lines[1..]) == w.log + Texts(lines);
      }
  }

  /** An emitted event shows up among the signals. */
  lemma {:induction false} EmittedIsSignal(events: seq<Event>, k: nat)
    requires k < |events| && events[k].Emitted?
    ensures SignalsOf(events) != []
  {
    if k > 0 && !events[0].Emitted? {
      EmittedIsSignal(events[1..], k - 1);
    }
  }

  /** A started conversion ends with the window's log extended by the
      thread's log lines for every file, in input order, and the completion
      message, however the user's input interleaves with the thread's
      signals. */
  lemma ConversionCompletes(w: Window, events: seq<Event>, results: seq<ProcessResult>)
    requires Inv(w) && w.phase.Running?
    requires |results| == |w.phase.job.files|
    requires SignalsOf(events) == RunSignals(w.phase.job.files, w.phase.job.format, w.phase.job.bitrate, results)
    requires |events| > 0 && events[|events| - 1] == Emitted(Finished)
    ensures var job := w.phase.job;
            var r := ApplyAll(w, events);
            && r.log == w.log + Texts(ConversionLog(job.files, job.format, job.bitrate, results)) + [CompletedMessage]
            && r.phase == Idle && r.convertEnabled && r.selectEnabled && Inv(r)
  {
    var job := w.phase.job;
    var lines := ConversionLog(job.files, job.format, job.bitrate, results);
    FinishedOnceAtEnd(job.files, job.format, job.bitrate, results);
    var run := RunSignals(job.files, job.format, job.bitrate, results);
    assert forall k :: 0 <= k < |lines| ==> lines[k] == run[k];
    RunCompletes(w, events, lines);
  }

  /** Converting to a lossless format never passes a bitrate: the thread
      starts without one and every file's command is the five-element list. */
  lemma LosslessRunsWithoutBitrate(w: Window, src: string)
    requires Inv(w) && w.phase.Idle? && w.selected != []
    requires w.Format() == "flac" || w.Format() == "wav"
    ensures var r := Step(w, ClickConvert);
            && r.phase.Running? && r.phase.job.bitrate == None
            && BuildCommand(src, r.phase.job.bitrate, OutputPath(src, r.phase.job.format))
               == [Encoder, "-i", src, "-y", OutputPath(src, r.phase.job.format)]
  {
    NoPresetsMeansLosslessOrUnknown(w.Format());
    NoPresetsNoRateFlag(w.bitrates, w.Format(), src, OutputPath(src, w.Format()));
  }
}
