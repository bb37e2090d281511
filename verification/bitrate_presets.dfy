/**
 The window's preset table and the bitrate selector it drives: which
 bitrates a format offers, whether the selector is enabled, and which
 bitrate a conversion is started with.
 */
module BitratePresets {
  import opened Optional
  import opened EncoderCommand

  /** The formats in the order the format selector lists them (the table's
      key order). */
  const Formats: seq<string> := ["mp3", "aac", "ogg", "flac", "wav"]

  /** Allowed bitrates per format; the lossless formats have none. */
  const Presets: map<string, seq<string>> := map[
    "mp3" := ["128k", "192k", "256k", "320k"],
    "aac" := ["96k", "128k", "160k", "192k", "256k"],
    "ogg" := ["64k", "96k", "128k", "160k", "192k"],
    "flac" := [],
    "wav" := []
  ]

  /** The table lookup with an empty default for unknown formats. */
  function PresetsFor(format: string): seq<string> {
    if format in Presets then Presets[format] else []
  }

  /** The bitrate selector: its items, whether it accepts input, and the
      index of its current item. */
  datatype BitrateCombo = BitrateCombo(items: seq<string>, enabled: bool, current: nat) {

    /** The selector's current text; empty when no item is current. */
    function CurrentText(): string {
      if current < |items| then items[current] else ""
    }
  }

  /** The selector offers exactly the format's presets and accepts input,
      or, when the format has none, shows only the disabled `N/A`
      placeholder; in both cases some item is current. */
  predicate ShowsPresetsOf(c: BitrateCombo, format: string) {
    && (PresetsFor(format) != [] ==> c.items == PresetsFor(format) && c.enabled)
    && (PresetsFor(format) == [] ==> c.items == [NoBitrate] && !c.enabled)
    && c.current < |c.items|
  }

  /** Refills the selector for a newly chosen format; the first item
      becomes current. */
  function UpdateBitrateOptions(format: string): (c: BitrateCombo)
    ensures ShowsPresetsOf(c, format)
    ensures c.CurrentText() == (if PresetsFor(format) != [] then PresetsFor(format)[0] else NoBitrate)
  {
    var presets := PresetsFor(format);
    if presets != [] then BitrateCombo(presets, true, 0)
    else BitrateCombo([NoBitrate], false, 0)
  }

  /** The user picks item `i`; a disabled selector ignores the input. */
  function SelectBitrate(c: BitrateCombo, i: nat): (r: BitrateCombo)
    ensures r.items == c.items && r.enabled == c.enabled
    ensures c.enabled && i < |c.items| ==> r.CurrentText() == c.items[i]
    ensures !c.enabled || i >= |c.items| ==> r == c
  {
    if c.enabled && i < |c.items| then c.(current := i) else c
  }

  /** Picking a bitrate keeps the selector showing its format's presets. */
  lemma SelectKeepsPresets(c: BitrateCombo, format: string, i: nat)
    requires ShowsPresetsOf(c, format)
    ensures ShowsPresetsOf(SelectBitrate(c, i), format)
  {
  }

  /** The bitrate a conversion is started with: the current text of an
      enabled selector, none for a disabled one. */
  function ChosenBitrate(c: BitrateCombo): Option<string> {
    if c.enabled then Some(c.CurrentText()) else None
  }

  /** No preset is empty or the `N/A` placeholder. */
  lemma PresetsArePlainRates(format: string, b: string)
    requires b in PresetsFor(format)
    ensures b != "" && b != NoBitrate
  {
    if format == "mp3" {
      assert PresetsFor(format) == ["128k", "192k", "256k", "320k"];
    } else if format == "aac" {
      assert PresetsFor(format) == ["96k", "128k", "160k", "192k", "256k"];
    } else if format == "ogg" {
      assert PresetsFor(format) == ["64k", "96k", "128k", "160k", "192k"];
    }
  }

  /** A selector showing a format's presets yields no bitrate exactly when
      the format has no presets (flac, wav and unknown formats), and
      otherwise one of that format's presets, which the encoder command then
      passes on. */
  lemma ChosenBitrateFollowsPresets(c: BitrateCombo, format: string)
    requires ShowsPresetsOf(c, format)
    ensures ChosenBitrate(c) == None <==> PresetsFor(format) == []
    ensures ChosenBitrate(c).Some? ==> ChosenBitrate(c).value in PresetsFor(format)
    ensures PassesBitrate(ChosenBitrate(c)) <==> PresetsFor(format) != []
  {
    if c.enabled {
      var b := c.CurrentText();
      assert b == c.items[c.current];
      PresetsArePlainRates(format, b);
    }
  }

  /** The formats without presets are exactly the lossless ones and those
      missing from the table. */
  lemma NoPresetsMeansLosslessOrUnknown(format: string)
    ensures PresetsFor(format) == [] <==> format == "flac" || format == "wav" || format !in Presets
  {
    if format == "mp3" {
      assert PresetsFor(format) == ["128k", "192k", "256k", "320k"];
    } else if format == "aac" {
      assert PresetsFor(format) == ["96k", "128k", "160k", "192k", "256k"];
    } else if format == "ogg" {
      assert PresetsFor(format) == ["64k", "96k", "128k", "160k", "192k"];
    }
  }

  /** For a format without presets the encoder command is the five-element
      list without a bitrate flag, whatever the selector shows. */
  lemma NoPresetsNoRateFlag(c: BitrateCombo, format: string, src: string, out: string)
    requires ShowsPresetsOf(c, format) && PresetsFor(format) == []
    ensures BuildCommand(src, ChosenBitrate(c), out) == [Encoder, "-i", src, "-y", out]
  {
    var cmd := BuildCommand(src, ChosenBitrate(c), out);
    assert cmd[..4] == [Encoder, "-i", src, "-y"];
    assert cmd == cmd[..4] + [cmd[4]];
  }
}
