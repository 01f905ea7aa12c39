/**
 * The pure part of `format_disk`: the check of the disk id the user typed and
 * the diskpart script built for an accepted id. The confirmation dialog,
 * writing the script to a file and running diskpart are not modelled.
 */
module FormatDisk {
  import opened Wrappers
  import opened Text

  /** The defaults of the `file_system` and `volume_label` parameters. */
  const DefaultFileSystem: string := "NTFS"
  const DefaultVolumeLabel: string := "NewVolume"

  /** Why an id is refused: blank after `strip()`, or not all digits. */
  datatype IdError = MissingId | NotNumeric

  /** A digit is not whitespace, so an all-digit id is never blank. */
  lemma DigitsNotBlank(id: string)
    ensures IsDigits(id) ==> !IsBlank(id)
  {
    if IsDigits(id) {
      assert IsAsciiDigit(id[0]) && !IsSpace(id[0]);
    }
  }

  /**
   * The two checks at the top of `format_disk`, in order: blank after
   * `strip()` first, then `isdigit()` on the id as typed (not stripped).
   * An accepted id is passed on unchanged.
   */
  function ValidateDiskId(id: string): (r: Result<string, IdError>)
    ensures r.Success? <==> IsDigits(id)
    ensures r.Success? ==> r.value == id
    ensures r == Failure(MissingId) <==> IsBlank(id)
    ensures r == Failure(NotNumeric) <==> !IsBlank(id) && !IsDigits(id)
  {
    StripEmptyIffBlank(id);
    DigitsNotBlank(id);
    if Strip(id) == "" then Failure(MissingId)
    else if !IsDigits(id) then Failure(NotNumeric)
    else Success(id)
  }

  /**
   * An empty or all-whitespace id is refused as missing, text that is not
   * digits as not numeric, and "3" is accepted.
   */
  lemma ValidationExamples()
    ensures ValidateDiskId("") == Failure(MissingId)
    ensures ValidateDiskId(" \t") == Failure(MissingId)
    ensures ValidateDiskId("abc") == Failure(NotNumeric)
    ensures ValidateDiskId("-1") == Failure(NotNumeric)
    ensures ValidateDiskId("3") == Success("3")
  {
    assert IsSpace(" \t"[0]) && IsSpace(" \t"[1]);
    assert !IsSpace("abc"[0]) && !IsAsciiDigit("abc"[0]);
    assert !IsSpace("-1"[0]) && !IsAsciiDigit("-1"[0]);
    assert IsDigits("3") by { assert IsAsciiDigit("3"[0]); }
  }

  /**
   * The digit test looks at the id as typed, not stripped: an accepted id with a
   * space before or after it is refused as not numeric.
   */
  lemma PaddedDigitsRefused(id: string)
    requires IsDigits(id)
    ensures ValidateDiskId(" " + id) == Failure(NotNumeric)
    ensures ValidateDiskId(id + " ") == Failure(NotNumeric)
  {
    assert !IsSpace(id[0]);
    assert (" " + id)[1] == id[0] && !IsAsciiDigit((" " + id)[0]);
    assert (id + " ")[0] == id[0] && !IsAsciiDigit((id + " ")[|id|]);
  }

  // ---------------------------------------------------------------------------
  // The diskpart script

  /** The command that opens the first line of the script. */
  const SelectDisk: string := "select disk "

  /** The eight commands of the script, each without its newline. */
  function ScriptLines(id: string, fs: string, volume: string): (r: seq<string>)
    ensures |r| == 8
    ensures r[0] == SelectDisk + id
    ensures r[1..7] == ["clean", "create partition primary", "select partition 1", "active", "assign",
                        "format fs=" + fs + " label=\"" + volume + "\" quick"]
    ensures r[7] == "exit"
  {
    [SelectDisk + id, "clean", "create partition primary", "select partition 1", "active", "assign",
     "format fs=" + fs + " label=\"" + volume + "\" quick", "exit"]
  }

  /**
   * The text written to the script file: the eight commands, each ended by a
   * newline, so it opens by selecting the disk and ends with "exit".
   */
  function DiskpartScript(id: string, fs: string, volume: string): (r: string)
    ensures var first := SelectDisk + id + "\n";
      |first| <= |r| && r[..|first|] == first
    ensures |r| >= 5 && r[|r| - 5..] == "exit\n"
  {
    var lines := ScriptLines(id, fs, volume);
    TerminatedStartsWith(lines);
    assert lines == lines[..7] + ["exit"];
    TerminatedSnoc(lines[..7], "exit");
    Terminated(lines)
  }

  /**
   * What `format_disk` does with its arguments before asking for confirmation:
   * an error for a refused id, otherwise the script for that disk.
   */
  function PlanFormat(id: string, fs: string, volume: string): (r: Result<string, IdError>)
    ensures r.Success? <==> IsDigits(id)
    ensures r.Success? ==> r.value == DiskpartScript(id, fs, volume)
    ensures r.Failure? ==> r.error == (if IsBlank(id) then MissingId else NotNumeric)
  {
    match ValidateDiskId(id)
    case Failure(e) => Failure(e)
    case Success(disk) => Success(DiskpartScript(disk, fs, volume))
  }

  /** The disk the script's first line selects, read back from the script text. */
  function SelectedDisk(script: string): (r: Option<string>)
    ensures r.Some? ==> SplitOn(script, '\n')[0] == SelectDisk + r.value
  {
    var first := SplitOn(script, '\n')[0];
    if |SelectDisk| <= |first| && first[..|SelectDisk|] == SelectDisk then
      assert first == SelectDisk + first[|SelectDisk|..];
      Some(first[|SelectDisk|..])
    else None
  }

  /** A digit string holds no newline. */
  lemma DigitsSingleLine(id: string)
    requires IsDigits(id)
    ensures '\n' !in id
  {
  }

  /** The script built for an accepted id selects exactly that disk, whatever the file system and volume. */
  lemma ScriptSelectsAcceptedDisk(id: string, fs: string, volume: string)
    requires PlanFormat(id, fs, volume).Success?
    ensures SelectedDisk(PlanFormat(id, fs, volume).value) == Some(id)
  {
    var first := SelectDisk + id;
    var rest := Terminated(ScriptLines(id, fs, volume)[1..]);
    var script := PlanFormat(id, fs, volume).value;
    assert script == first + "\n" + rest;
    assert SplitOn(script, '\n')[0] == first by {
      DigitsSingleLine(id);
      SplitOnAfterPiece(first, '\n', rest);
    }
    assert first[..|SelectDisk|] == SelectDisk && first[|SelectDisk|..] == id;
  }

  /**
   * When neither the file system nor the volume holds a newline, the script read
   * line by line is exactly the eight commands (and the empty text after the
   * final newline).
   */
  lemma ScriptSplitsIntoLines(id: string, fs: string, volume: string)
    requires IsDigits(id)
    requires '\n' !in fs && '\n' !in volume
    ensures SplitOn(DiskpartScript(id, fs, volume), '\n') == ScriptLines(id, fs, volume) + [""]
  {
    var lines := ScriptLines(id, fs, volume);
    DigitsSingleLine(id);
    assert '\n' !in SelectDisk;
    var format := "format fs=" + fs + " label=\"" + volume + "\" quick";
    assert '\n' !in format;
    forall k | 0 <= k < 8 ensures '\n' !in lines[k] {
    }
    SplitTerminated(lines);
  }

  /** With the defaults, the format command is `format fs=NTFS label="NewVolume" quick`. */
  lemma DefaultFormatCommand(id: string)
    ensures ScriptLines(id, DefaultFileSystem, DefaultVolumeLabel)[6] == "format fs=NTFS label=\"NewVolume\" quick"
  {
  }
}
