/**
 * The disk-inventory parser of `list_disks`: a pass over the lines of the
 * disk-enumeration command's output that keeps the id of the disk being read
 * (`current_disk`) and a map from disk id to its record (`disk_map`).
 *
 * `Step` is one iteration of the loop and `Run` the whole pass, as a left fold;
 * `ParseInventory` is the loop itself, proved to compute `Run`.
 */
module Inventory {
  import opened Wrappers
  import opened Text

  /** One disk's record: the `{'name', 'size', 'letter', 'fs'}` dictionary. */
  datatype DiskInfo = DiskInfo(name: string, size: real, letter: string, fs: string)

  /** The marker stored for a missing drive letter or file system. */
  const NotAvailable: string := "N/A"

  /** What separates a key from its value on a line. */
  const KeySeparator: string := ": "

  /** The record a `DeviceId` line (re)opens. */
  const FreshDisk: DiskInfo := DiskInfo("", 0.0, NotAvailable, NotAvailable)

  /**
   * `round(float(text) / 1024**3, 2)`: the size in gigabytes, or None when
   * `float` raises ValueError. The floating-point arithmetic is not modelled.
   */
  type SizeConversion = string -> Option<real>

  /** The loop's two variables: `current_disk` (None or an id) and `disk_map`. */
  datatype Scan = Scan(current: Option<string>, disks: map<string, DiskInfo>)

  /** The variables before the first line. */
  const Start: Scan := Scan(None, map[])

  /** Python's truth value of `current_disk`: set and not the empty string. */
  predicate HasOpenDisk(sc: Scan) {
    sc.current.Some? && sc.current.value != ""
  }

  /** An open disk always has its record, so the attribute updates never raise KeyError. */
  predicate Valid(sc: Scan) {
    HasOpenDisk(sc) ==> sc.current.value in sc.disks
  }

  /** A value stored as is, or the marker when it is empty (`value if value else 'N/A'`). */
  function OrNotAvailable(value: string): (r: string)
    ensures value == "" ==> r == NotAvailable
    ensures value != "" ==> r == value
    ensures r != ""
  {
    if value == "" then NotAvailable else value
  }

  /** The size stored for a `Size` value: its conversion, or 0 when the conversion fails. */
  function SizeOf(value: string, toGb: SizeConversion): (r: real)
    ensures toGb(value).None? ==> r == 0.0
    ensures toGb(value).Some? ==> r == toGb(value).value
  {
    match toGb(value)
    case Some(gb) => gb
    case None => 0.0
  }

  /**
   * The key and value a line contributes: a non-blank line holding ": " is cut
   * at its first ": " and both halves stripped; any other line gives nothing.
   */
  function Field(line: string): (r: Option<(string, string)>)
    ensures r.Some? <==> Contains(line, KeySeparator)
    ensures r.Some? ==> Trimmed(r.value.0) && Trimmed(r.value.1)
  {
    BlankHasNoSeparator(line);
    if Strip(line) == "" then None
    else match SplitOnce(line, KeySeparator)
      case None => None
      case Some((key, value)) => Some((Strip(key), Strip(value)))
  }

  /** A blank line cannot hold ": " (':' is not whitespace), so the blank test never decides alone. */
  lemma {:induction false} BlankHasNoSeparator(line: string)
    ensures Strip(line) == "" ==> !Contains(line, KeySeparator)
  {
    StripEmptyIffBlank(line);
    if Contains(line, KeySeparator) {
      var i :| OccursAt(line, KeySeparator, i);
      assert line[i] == line[i..i + 2][0] == ':';
      assert !IsBlank(line);
    }
  }

  /** Key and value are the stripped text before and after the first ": ". */
  lemma {:induction false} FieldOfLine(before: string, after: string)
    requires forall i :: 0 <= i < |before| ==> !OccursAt(before + KeySeparator + after, KeySeparator, i)
    ensures Field(before + KeySeparator + after) == Some((Strip(before), Strip(after)))
  {
    var line := before + KeySeparator + after;
    SplitOnceOfJoin(before, KeySeparator, after);
    assert OccursAt(line, KeySeparator, |before|) by {
      assert line[|before|..|before| + 2] == KeySeparator;
    }
    BlankHasNoSeparator(line);
  }

  /** The four keys that update the open record. */
  predicate IsAttribute(key: string) {
    key == "FriendlyName" || key == "Size" || key == "DriveLetter" || key == "FileSystem"
  }

  /** The record after one attribute line. */
  function SetAttribute(d: DiskInfo, key: string, value: string, toGb: SizeConversion): (r: DiskInfo)
    requires IsAttribute(key)
    ensures key == "FriendlyName" ==> r == d.(name := value)
    ensures key == "Size" ==> r == d.(size := SizeOf(value, toGb))
    ensures key == "DriveLetter" ==> r == d.(letter := OrNotAvailable(value))
    ensures key == "FileSystem" ==> r == d.(fs := OrNotAvailable(value))
  {
    if key == "FriendlyName" then d.(name := value)
    else if key == "Size" then d.(size := SizeOf(value, toGb))
    else if key == "DriveLetter" then d.(letter := OrNotAvailable(value))
    else d.(fs := OrNotAvailable(value))
  }

  /** The `if key == ... elif ...` chain for one key/value pair. */
  function Apply(sc: Scan, key: string, value: string, toGb: SizeConversion): (r: Scan)
    requires Valid(sc)
    ensures Valid(r)
  {
    if key == "DeviceId" then
      Scan(Some(value), sc.disks[value := FreshDisk])
    else if IsAttribute(key) && HasOpenDisk(sc) then
      var id := sc.current.value;
      Scan(sc.current, sc.disks[id := SetAttribute(sc.disks[id], key, value, toGb)])
    else
      sc
  }

  /** One iteration of the loop over the lines. */
  function Step(sc: Scan, line: string, toGb: SizeConversion): (r: Scan)
    requires Valid(sc)
    ensures Valid(r)
    ensures !Contains(line, KeySeparator) ==> r == sc
  {
    match Field(line)
    case None => sc
    case Some((key, value)) => Apply(sc, key, value, toGb)
  }

  /** The loop variables after the given lines, read from first to last. */
  function Run(lines: seq<string>, toGb: SizeConversion): (r: Scan)
    ensures Valid(r)
  {
    if lines == [] then Start
    else Step(Run(lines[..|lines| - 1], toGb), lines[|lines| - 1], toGb)
  }

  // ---------------------------------------------------------------------------
  // One key/value pair

  /** A `DeviceId` line opens its id with a fresh record, discarding any earlier one; nothing else changes. */
  lemma {:induction false} DeviceIdOpensFreshRecord(sc: Scan, value: string, toGb: SizeConversion)
    requires Valid(sc)
    ensures var r := Apply(sc, "DeviceId", value, toGb);
      && r.current == Some(value)
      && r.disks.Keys == sc.disks.Keys + {value}
      && r.disks[value] == FreshDisk
      && (forall id :: id in sc.disks && id != value ==> r.disks[id] == sc.disks[id])
      && (HasOpenDisk(r) <==> value != "")
  {
  }

  /** With no open disk (before any `DeviceId`, or after an empty one), and for any other key, nothing changes. */
  lemma {:induction false} IgnoredPairs(sc: Scan, key: string, value: string, toGb: SizeConversion)
    requires Valid(sc)
    requires key != "DeviceId"
    requires !IsAttribute(key) || !HasOpenDisk(sc)
    ensures Apply(sc, key, value, toGb) == sc
  {
  }

  /**
   * An attribute line for an open disk changes only that disk's record: the
   * current disk stays, no id is added or removed, every other record is kept.
   */
  lemma {:induction false} AttributeTouchesOnlyOpenDisk(sc: Scan, key: string, value: string, toGb: SizeConversion)
    requires Valid(sc) && HasOpenDisk(sc) && IsAttribute(key)
    ensures var r, id := Apply(sc, key, value, toGb), sc.current.value;
      && r.current == sc.current
      && r.disks.Keys == sc.disks.Keys
      && (forall other :: other in sc.disks && other != id ==> r.disks[other] == sc.disks[other])
      && r.disks[id] == SetAttribute(sc.disks[id], key, value, toGb)
  {
  }

  /**
   * For an open disk, an empty `DriveLetter` or `FileSystem` value stores "N/A",
   * and a non-empty one is stored as it is.
   */
  lemma {:induction false} EmptyLetterOrFileSystemIsNotAvailable(sc: Scan, value: string, toGb: SizeConversion)
    requires Valid(sc) && HasOpenDisk(sc)
    ensures var id := sc.current.value;
      && Apply(sc, "DriveLetter", value, toGb).disks[id].letter == (if value == "" then NotAvailable else value)
      && Apply(sc, "FileSystem", value, toGb).disks[id].fs == (if value == "" then NotAvailable else value)
  {
  }

  // ---------------------------------------------------------------------------
  // The whole pass

  /** The value of a `DeviceId` line, if the line is one. */
  function DeviceIdOf(line: string): (r: Option<string>)
    ensures r.Some? <==> Field(line).Some? && Field(line).value.0 == "DeviceId"
    ensures r.Some? ==> r.value == Field(line).value.1
  {
    match Field(line)
    case Some((key, value)) => if key == "DeviceId" then Some(value) else None
    case None => None
  }

  /** The values f picks out of the lines. */
  ghost function Picked(lines: seq<string>, f: string -> Option<string>): set<string> {
    set i | 0 <= i < |lines| && f(lines[i]).Some? :: f(lines[i]).value
  }

  /** The ids named by the `DeviceId` lines. */
  ghost function DeviceIds(lines: seq<string>): set<string> {
    Picked(lines, DeviceIdOf)
  }

  /** No line is a `DeviceId` line. */
  predicate NoDeviceIdLine(lines: seq<string>) {
    forall i :: 0 <= i < |lines| ==> DeviceIdOf(lines[i]).None?
  }

  /** The ids a line opens: its `DeviceId` value, if it is a `DeviceId` line. */
  function OpenedBy(line: string): set<string> {
    if DeviceIdOf(line).Some? then {DeviceIdOf(line).value} else {}
  }

  /** Only a `DeviceId` line adds an id, and it adds exactly its value. */
  lemma {:induction false} StepKeys(sc: Scan, line: string, toGb: SizeConversion)
    requires Valid(sc)
    ensures Step(sc, line, toGb).disks.Keys == sc.disks.Keys + OpenedBy(line)
  {
  }

  lemma {:induction false} PickedSnoc(lines: seq<string>, f: string -> Option<string>)
    requires lines != []
    ensures var last := f(lines[|lines| - 1]);
      Picked(lines, f) == Picked(lines[..|lines| - 1], f) + (if last.Some? then {last.value} else {})
  {
    var pre, last := lines[..|lines| - 1], lines[|lines| - 1];
    forall x | x in Picked(lines, f) ensures x in Picked(pre, f) || f(last) == Some(x) {
      var i :| 0 <= i < |lines| && f(lines[i]).Some? && f(lines[i]).value == x;
      if i < |pre| {
        assert lines[i] == pre[i];
      }
    }
    forall x | x in Picked(pre, f) ensures x in Picked(lines, f) {
      var i :| 0 <= i < |pre| && f(pre[i]).Some? && f(pre[i]).value == x;
      assert lines[i] == pre[i];
    }
  }

  /** The map holds exactly one record per distinct `DeviceId` value. */
  lemma {:induction false} RunKeys(lines: seq<string>, toGb: SizeConversion)
    ensures Run(lines, toGb).disks.Keys == DeviceIds(lines)
  {
    if lines != [] {
      var pre, last := lines[..|lines| - 1], lines[|lines| - 1];
      RunKeys(pre, toGb);
      StepKeys(Run(pre, toGb), last, toGb);
      PickedSnoc(lines, DeviceIdOf);
    }
  }

  /** A line that is not a `DeviceId` line changes nothing while no disk is open. */
  lemma {:induction false} StepClosed(sc: Scan, line: string, toGb: SizeConversion)
    requires Valid(sc) && !HasOpenDisk(sc)
    requires DeviceIdOf(line).None?
    ensures Step(sc, line, toGb) == sc
  {
  }

  /** Lines after which no disk is open and that hold no `DeviceId` line change nothing. */
  lemma {:induction false} ClosedRunIgnoresAttributes(pre: seq<string>, post: seq<string>, toGb: SizeConversion)
    requires !HasOpenDisk(Run(pre, toGb))
    requires NoDeviceIdLine(post)
    ensures Run(pre + post, toGb) == Run(pre, toGb)
  {
    if post != [] {
      var init, last := post[..|post| - 1], post[|post| - 1];
      assert (pre + post)[..|pre + post| - 1] == pre + init;
      assert (pre + post)[|pre + post| - 1] == last;
      assert NoDeviceIdLine(init) by {
        forall i | 0 <= i < |init| ensures DeviceIdOf(init[i]).None? {
          assert init[i] == post[i];
        }
      }
      ClosedRunIgnoresAttributes(pre, init, toGb);
      assert DeviceIdOf(last).None? by {
        assert post[|post| - 1] == last;
      }
      StepClosed(Run(pre, toGb), last, toGb);
    } else {
      assert pre + post == pre;
    }
  }

  /** Attribute lines before the first `DeviceId` line are dropped. */
  lemma {:induction false} NoDeviceIdNoDisks(lines: seq<string>, toGb: SizeConversion)
    requires NoDeviceIdLine(lines)
    ensures Run(lines, toGb) == Start
  {
    if lines != [] {
      var pre := lines[..|lines| - 1];
      assert NoDeviceIdLine(pre) by {
        forall i | 0 <= i < |pre| ensures DeviceIdOf(pre[i]).None? {
          assert pre[i] == lines[i];
        }
      }
      NoDeviceIdNoDisks(pre, toGb);
      StepClosed(Start, lines[|lines| - 1], toGb);
    }
  }

  /**
   * An empty `DeviceId` value creates the record "" but leaves no disk open,
   * so the attribute lines that follow it are all dropped.
   */
  lemma {:induction false} EmptyDeviceIdTakesNoAttributes(pre: seq<string>, line: string, post: seq<string>, toGb: SizeConversion)
    requires DeviceIdOf(line) == Some("")
    requires NoDeviceIdLine(post)
    ensures Run(pre + [line] + post, toGb).disks == Run(pre, toGb).disks["" := FreshDisk]
  {
    assert (pre + [line])[..|pre + [line]| - 1] == pre;
    assert (pre + [line])[|pre + [line]| - 1] == line;
    ClosedRunIgnoresAttributes(pre + [line], post, toGb);
  }

  /** A stored record never has an empty drive letter or file system, and all its text is stripped. */
  predicate Tidy(d: DiskInfo) {
    d.letter != "" && d.fs != "" && Trimmed(d.name) && Trimmed(d.letter) && Trimmed(d.fs)
  }

  /** Every id and record the pass stores is tidy. */
  predicate TidyScan(sc: Scan) {
    forall id :: id in sc.disks ==> Trimmed(id) && Tidy(sc.disks[id])
  }

  lemma {:induction false} ApplyTidy(sc: Scan, key: string, value: string, toGb: SizeConversion)
    requires Valid(sc) && TidyScan(sc) && Trimmed(value)
    ensures TidyScan(Apply(sc, key, value, toGb))
  {
    assert Trimmed(NotAvailable);
  }

  lemma {:induction false} StepTidy(sc: Scan, line: string, toGb: SizeConversion)
    requires Valid(sc) && TidyScan(sc)
    ensures TidyScan(Step(sc, line, toGb))
  {
    match Field(line)
    case None =>
    case Some((key, value)) => ApplyTidy(sc, key, value, toGb);
  }

  lemma {:induction false} RunTidy(lines: seq<string>, toGb: SizeConversion)
    ensures TidyScan(Run(lines, toGb))
  {
    if lines != [] {
      var pre := lines[..|lines| - 1];
      RunTidy(pre, toGb);
      StepTidy(Run(pre, toGb), lines[|lines| - 1], toGb);
    }
  }

  // ---------------------------------------------------------------------------
  // The loop

  /** The fold over one more line is one more Step. */
  lemma {:induction false} RunPrefix(lines: seq<string>, i: nat, toGb: SizeConversion)
    requires i < |lines|
    ensures Run(lines[..i + 1], toGb) == Step(Run(lines[..i], toGb), lines[i], toGb)
  {
    assert lines[..i + 1][..i] == lines[..i];
  }

  /** Step, read as the nested tests of the loop body. */
  lemma {:induction false} StepCases(sc: Scan, line: string, toGb: SizeConversion)
    requires Valid(sc)
    ensures Strip(line) == "" ==> Step(sc, line, toGb) == sc
    ensures SplitOnce(line, KeySeparator).None? ==> Step(sc, line, toGb) == sc
    ensures Strip(line) != "" && SplitOnce(line, KeySeparator).Some? ==>
      var parts := SplitOnce(line, KeySeparator).value;
      Step(sc, line, toGb) == Apply(sc, Strip(parts.0), Strip(parts.1), toGb)
  {
  }

  /**
   * The body of the loop of `list_disks` for one line: the blank test, the cut at
   * ": ", and the `if key == ... elif ...` chain, updating `current_disk` and
   * `disk_map`.
   */
  method ReadLine(current: Option<string>, disks: map<string, DiskInfo>, line: string, toGb: SizeConversion)
    returns (current': Option<string>, disks': map<string, DiskInfo>)
    requires Valid(Scan(current, disks))
    ensures Scan(current', disks') == Step(Scan(current, disks), line, toGb)
  {
    StepCases(Scan(current, disks), line, toGb);
    current', disks' := current, disks;
    if Strip(line) != "" {
      var parts := SplitOnce(line, KeySeparator);
      if parts.Some? {
        var key, value := Strip(parts.value.0), Strip(parts.value.1);
        if key == "DeviceId" {
          current' := Some(value);
          disks' := disks[value := FreshDisk];
        } else if key == "FriendlyName" && current.Some? && current.value != "" {
          disks' := disks[current.value := disks[current.value].(name := value)];
        } else if key == "Size" && current.Some? && current.value != "" {
          var size := toGb(value);
          if size.Some? {
            disks' := disks[current.value := disks[current.value].(size := size.value)];
          } else {
            disks' := disks[current.value := disks[current.value].(size := 0.0)];
          }
        } else if key == "DriveLetter" && current.Some? && current.value != "" {
          disks' := disks[current.value := disks[current.value].(letter := if value != "" then value else NotAvailable)];
        } else if key == "FileSystem" && current.Some? && current.value != "" {
          disks' := disks[current.value := disks[current.value].(fs := if value != "" then value else NotAvailable)];
        }
      }
    }
  }

  /**
   * The loop of `list_disks` over the command's output lines: returns `disk_map`
   * as the fold `Run` defines it.
   */
  method ParseInventory(lines: seq<string>, toGb: SizeConversion) returns (disks: map<string, DiskInfo>)
    ensures disks == Run(lines, toGb).disks
  {
    disks := map[];
    var current: Option<string> := None;
    var i := 0;
    while i < |lines|
      invariant 0 <= i <= |lines|
      invariant Scan(current, disks) == Run(lines[..i], toGb)
    {
      RunPrefix(lines, i, toGb);
      current, disks := ReadLine(current, disks, lines[i], toGb);
      i := i + 1;
    }
    assert lines[..|lines|] == lines;
  }
}
